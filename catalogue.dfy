/**
 The mutable catalogue: the process-wide list of books and the endpoints
 that change it (create, update, delete), together with the functions that
 specify their effect and the lemmas relating those effects to the queries
 and to the id-ordering invariant.
 */
module Catalogue {
  import opened Books
  import opened Queries
  import opened Requests

  /** The id a new book receives: one more than the last book's, or 1 for
      an empty catalogue. */
  function NextId(s: seq<Book>): (r: int)
    ensures s == [] ==> r == 1
    ensures IdsIncreasing(s) ==> forall k :: 0 <= k < |s| ==> s[k].id < r
  {
    if |s| > 0 then s[|s| - 1].id + 1 else 1
  }

  /** With increasing ids the next id is larger than every id in use, so a
      created book never collides with a stored one. */
  lemma NextIdIsFresh(s: seq<Book>)
    requires IdsIncreasing(s)
    ensures forall k :: 0 <= k < |s| ==> s[k].id < NextId(s)
    ensures BooksWithId(s, NextId(s)) == []
  {
  }

  /** The catalogue's ids are not stable: once the last book is deleted, the
      next created book receives that book's id again. */
  lemma DeletedLastIdIsReused()
    ensures NextId(Removed(InitialBooks(), 4)) == 4
  {
    assert IndexOfId(InitialBooks(), 4) == Some(3);
  }

  /** In general, deleting the last of two or more books hands out an id no
      larger than the deleted one: the next id is the new last id plus one. */
  lemma DeletingLastBookLowersNextId(s: seq<Book>)
    requires IdsIncreasing(s) && |s| >= 2
    ensures NextId(Removed(s, s[|s| - 1].id)) == s[|s| - 2].id + 1
    ensures NextId(Removed(s, s[|s| - 1].id)) <= s[|s| - 1].id
  {
    var last := |s| - 1;
    IndexOfIdIsFirst(s, s[last].id, last);
    assert Removed(s, s[last].id) == s[..last];
  }

  /** The first index whose book carries `id`, the one the update and delete
      loops stop at. */
  function IndexOfId(s: seq<Book>, id: int): (r: Option<nat>)
    ensures r.Some? ==> r.value < |s| && s[r.value].id == id
    ensures r.Some? ==> forall k :: 0 <= k < r.value ==> s[k].id != id
    ensures r.None? <==> forall k :: 0 <= k < |s| ==> s[k].id != id
    decreases |s|
  {
    if s == [] then None
    else if s[0].id == id then Some(0)
    else
      match IndexOfId(s[1..], id)
      case None => None
      case Some(i) => Some(i + 1)
  }

  /** The first index of a book with `id` is the unique such index found by
      scanning from the front. */
  lemma IndexOfIdIsFirst(s: seq<Book>, id: int, i: nat)
    requires i < |s| && s[i].id == id
    requires forall k :: 0 <= k < i ==> s[k].id != id
    ensures IndexOfId(s, id) == Some(i)
  {
  }

  /** The contents after `BOOKS[i] = b` at the first index `i` carrying `id`;
      unchanged when no book carries it. */
  function Replaced(s: seq<Book>, id: int, b: Book): (r: seq<Book>)
    ensures |r| == |s|
  {
    match IndexOfId(s, id)
    case None => s
    case Some(i) => s[i := b]
  }

  /** The contents after `BOOKS.pop(i)` at the first index `i` carrying `id`;
      unchanged when no book carries it. */
  function Removed(s: seq<Book>, id: int): (r: seq<Book>)
    ensures IndexOfId(s, id).None? ==> r == s
    ensures IndexOfId(s, id).Some? ==>
      |r| == |s| - 1 && multiset(r) + multiset{s[IndexOfId(s, id).value]} == multiset(s)
  {
    match IndexOfId(s, id)
    case None => s
    case Some(i) =>
      DeleteAtShifts(s, i);
      s[..i] + s[i + 1..]
  }

  /** Replacement touches one position: the first one with the id. */
  lemma ReplacedChangesOnlyFirstMatch(s: seq<Book>, id: int, b: Book)
    ensures IndexOfId(s, id).None? ==> Replaced(s, id, b) == s
    ensures IndexOfId(s, id).Some? ==>
      var i := IndexOfId(s, id).value;
      Replaced(s, id, b)[i] == b &&
      forall k :: 0 <= k < |s| && k != i ==> Replaced(s, id, b)[k] == s[k]
  {
  }

  /** Removal deletes exactly one book, the first with the id, and keeps
      the others in order. */
  lemma RemovedDropsFirstMatch(s: seq<Book>, id: int)
    ensures IndexOfId(s, id).None? ==> Removed(s, id) == s
    ensures IndexOfId(s, id).Some? ==>
      var i := IndexOfId(s, id).value;
      && |Removed(s, id)| == |s| - 1
      && (forall k :: 0 <= k < i ==> Removed(s, id)[k] == s[k])
      && (forall k :: i <= k < |s| - 1 ==> Removed(s, id)[k] == s[k + 1])
      && multiset(Removed(s, id)) + multiset{s[i]} == multiset(s)
    ensures IsSubsequence(Removed(s, id), s)
  {
    match IndexOfId(s, id)
    case None =>
      PrefixIsSubsequence(s, |s|);
      assert s[..|s|] == s;
    case Some(i) =>
      DeleteAtShifts(s, i);
      DeleteAtIsSubsequence(s, i);
  }

  /** Deleting position `i` keeps what is before it and shifts what is after
      it down by one; only the deleted book leaves the multiset. */
  lemma DeleteAtShifts(s: seq<Book>, i: nat)
    requires i < |s|
    ensures |s[..i] + s[i + 1..]| == |s| - 1
    ensures forall k :: 0 <= k < i ==> (s[..i] + s[i + 1..])[k] == s[k]
    ensures forall k :: i < k < |s| ==> (s[..i] + s[i + 1..])[k - 1] == s[k]
    ensures multiset(s[..i] + s[i + 1..]) + multiset{s[i]} == multiset(s)
  {
    assert s == s[..i] + [s[i]] + s[i + 1..];
  }

  /** Deleting one position leaves a subsequence. */
  lemma {:induction false} DeleteAtIsSubsequence(s: seq<Book>, i: nat)
    requires i < |s|
    ensures IsSubsequence(s[..i] + s[i + 1..], s)
    decreases |s|
  {
    var r := s[..i] + s[i + 1..];
    if i == 0 {
      assert r == s[1..];
      PrefixIsSubsequence(s[1..], |s| - 1);
      assert s[1..][..|s| - 1] == s[1..];
      SubsequenceOfTail(r, s);
    } else {
      DeleteAtIsSubsequence(s[1..], i - 1);
      assert r[0] == s[0];
      assert r[1..] == s[1..][..i - 1] + s[1..][i..];
    }
  }

  /** Appending a book with the next id keeps ids increasing. */
  lemma AppendKeepsIdsIncreasing(s: seq<Book>, b: Book)
    requires IdsIncreasing(s) && b.id == NextId(s)
    ensures IdsIncreasing(s + [b])
  {
    NextIdIsFresh(s);
  }

  /** Replacing a book by one with the same id keeps ids increasing. */
  lemma ReplaceKeepsIdsIncreasing(s: seq<Book>, id: int, b: Book)
    requires IdsIncreasing(s) && b.id == id
    ensures IdsIncreasing(Replaced(s, id, b))
  {
  }

  /** Removing a book keeps ids increasing. */
  lemma RemoveKeepsIdsIncreasing(s: seq<Book>, id: int)
    requires IdsIncreasing(s)
    ensures IdsIncreasing(Removed(s, id))
  {
    RemovedDropsFirstMatch(s, id);
    var r := Removed(s, id);
    match IndexOfId(s, id)
    case None =>
    case Some(i) =>
      forall a, c | 0 <= a < c < |r| ensures r[a].id < r[c].id {
        var a' := if a < i then a else a + 1;
        var c' := if c < i then c else c + 1;
        assert r[a] == s[a'] && r[c] == s[c'];
      }
  }

  /** The lookup by id finds nothing exactly when update and delete find
      nothing to act on. */
  lemma NoBookWithIdIffNoIndex(s: seq<Book>, id: int)
    ensures BooksWithId(s, id) == [] <==> IndexOfId(s, id).None?
  {
    if IndexOfId(s, id).Some? {
      assert s[IndexOfId(s, id).value] in BooksWithId(s, id);
    }
  }

  /** With increasing ids the lookup by id returns at most one book: the one
      update and delete act on. */
  lemma {:induction false} BooksWithIdIsIndexed(s: seq<Book>, id: int)
    requires IdsIncreasing(s)
    ensures BooksWithId(s, id) == match IndexOfId(s, id) case None => [] case Some(i) => [s[i]]
    decreases |s|
  {
    if s != [] {
      assert IdsIncreasing(s[1..]);
      BooksWithIdIsIndexed(s[1..], id);
      if s[0].id == id {
        NoBookWithIdIffNoIndex(s[1..], id);
        assert IndexOfId(s[1..], id).None?;
      }
    }
  }

  /** After a delete, a lookup of the deleted id finds nothing. */
  lemma DeletedIdIsGone(s: seq<Book>, id: int)
    requires IdsIncreasing(s)
    ensures BooksWithId(Removed(s, id), id) == []
  {
    RemovedDropsFirstMatch(s, id);
    var r := Removed(s, id);
    match IndexOfId(s, id)
    case None =>
      NoBookWithIdIffNoIndex(s, id);
    case Some(i) =>
      forall k | 0 <= k < |r| ensures r[k].id != id {
        if k < i {
          assert r[k] == s[k] && s[k].id < s[i].id;
        } else {
          assert r[k] == s[k + 1] && s[i].id < s[k + 1].id;
        }
      }
      NoBookWithIdIffNoIndex(r, id);
  }

  /** After an update of a stored id, a lookup of that id finds exactly the
      new book. */
  lemma UpdatedBookIsFound(s: seq<Book>, id: int, b: Book)
    requires IdsIncreasing(s) && b.id == id && IndexOfId(s, id).Some?
    ensures BooksWithId(Replaced(s, id, b), id) == [b]
  {
    ReplaceKeepsIdsIncreasing(s, id, b);
    var r := Replaced(s, id, b);
    var i := IndexOfId(s, id).value;
    IndexOfIdIsFirst(r, id, i);
    BooksWithIdIsIndexed(r, id);
  }

  /** A created book is seen by the year lookup, after every book already
      listed for that year. */
  lemma CreatedBookListedLast(s: seq<Book>, b: Book, year: int)
    ensures BooksFromYear(s + [b], year) ==
      BooksFromYear(s, year) + (if b.publishYear == year then [b] else [])
  {
    FilterAppend(s, [b], PublishedIn(year));
    assert Filter([b], PublishedIn(year)) == (if b.publishYear == year then [b] else []) by {
      assert [b][1..] == [];
    }
  }

  /** The catalogue shared by every request. */
  class BookCatalogue {
    var books: seq<Book>

    /** The invariant the endpoints keep: ids strictly increase. */
    predicate Valid()
      reads this
    {
      IdsIncreasing(books)
    }

    /** The catalogue at start-up holds the four initial books, ids 1 to 4. */
    constructor ()
      ensures books == InitialBooks()
      ensures Valid()
    {
      books := InitialBooks();
      InitialIdsIncreasing();
    }

    /** `attach_new_book_id`: gives `b` the next id and changes nothing else. */
    method AttachNewBookId(b: Book) returns (r: Book)
      ensures r.id == (if |books| > 0 then books[|books| - 1].id + 1 else 1)
      ensures r.(id := b.id) == b
      ensures Valid() ==> BooksWithId(books, r.id) == []
    {
      r := b.(id := NextId(books));
      if Valid() {
        NextIdIsFresh(books);
      }
    }

    /** `create_new_book`: an accepted request becomes a book with the next
        id, appended at the end. */
    method CreateNewBook(req: BookRequest) returns (res: Validated<Book>)
      modifies this
      ensures Violations(req.fields) != [] ==>
        res == Rejected(Violations(req.fields)) && books == old(books)
      ensures Violations(req.fields) == [] ==>
        && res.Accepted?
        && res.value == ToBook(NextId(old(books)), req.fields)
        && books == old(books) + [res.value]
      ensures old(Valid()) ==> Valid()
    {
      var errors := Violations(req.fields);
      if errors != [] {
        return Rejected(errors);
      }
      var draft := ToBook(match req.id case None => 0 case Some(id) => id, req.fields);
      var b := AttachNewBookId(draft);
      if Valid() {
        AppendKeepsIdsIncreasing(books, b);
      }
      books := books + [b];
      res := Accepted(b);
    }

    /** `update_existing_book`: replaces the first book with the request's
        id by the request's book; reports `None` and changes nothing when no
        book has that id. */
    method UpdateExistingBook(u: BookUpdate) returns (res: Validated<Option<Book>>)
      modifies this
      ensures Violations(u.fields) != [] ==>
        res == Rejected(Violations(u.fields)) && books == old(books)
      ensures Violations(u.fields) == [] ==>
        && books == Replaced(old(books), u.id, ToBook(u.id, u.fields))
        && res == Accepted(if IndexOfId(old(books), u.id).Some? then Some(ToBook(u.id, u.fields)) else None)
      ensures old(Valid()) ==> Valid()
    {
      var errors := Violations(u.fields);
      if errors != [] {
        return Rejected(errors);
      }
      var i := 0;
      while i < |books|
        invariant 0 <= i <= |books|
        invariant books == old(books)
        invariant forall k :: 0 <= k < i ==> books[k].id != u.id
      {
        if books[i].id == u.id {
          var b := ToBook(u.id, u.fields);
          IndexOfIdIsFirst(books, u.id, i);
          if Valid() {
            ReplaceKeepsIdsIncreasing(books, u.id, b);
          }
          books := books[i := b];
          return Accepted(Some(b));
        }
        i := i + 1;
      }
      res := Accepted(None);
    }

    /** `delete_book`: removes the first book with the id and returns it;
        returns `None` and changes nothing when no book has that id. */
    method DeleteBook(id: int) returns (res: Option<Book>)
      modifies this
      ensures books == Removed(old(books), id)
      ensures IndexOfId(old(books), id).None? ==> res == None
      ensures IndexOfId(old(books), id).Some? ==> res == Some(old(books)[IndexOfId(old(books), id).value])
      ensures res.Some? ==> res.value.id == id && |books| == |old(books)| - 1
      ensures old(Valid()) ==> Valid()
    {
      var i := 0;
      while i < |books|
        invariant 0 <= i <= |books|
        invariant books == old(books)
        invariant forall k :: 0 <= k < i ==> books[k].id != id
      {
        if books[i].id == id {
          var removed := books[i];
          IndexOfIdIsFirst(books, id, i);
          RemovedDropsFirstMatch(books, id);
          if Valid() {
            RemoveKeepsIdsIncreasing(books, id);
          }
          books := books[..i] + books[i + 1..];
          return Some(removed);
        }
        i := i + 1;
      }
      res := None;
    }
  }
}
