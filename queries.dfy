/**
 The read-only endpoints of the catalogue: the filtered listing and the
 lookups by id and by publish year. The listing filters a Python-style
 prefix of the list; the id and year lookups filter the whole list. Each is
 a function of the catalogue's contents, so none of them can change the
 catalogue.
 */
module Queries {
  import opened Books

  /** The condition a list comprehension keeps a book by. */
  datatype Criterion =
    | RatingAtLeast(threshold: real)
    | IdIs(id: int)
    | PublishedIn(year: int)

  predicate Matches(c: Criterion, b: Book) {
    match c
    case RatingAtLeast(t) => b.rating >= t
    case IdIs(id) => b.id == id
    case PublishedIn(y) => b.publishYear == y
  }

  /** `a` can be obtained from `b` by deleting elements: the elements of `a`
      occur in `b` in the same order. */
  predicate IsSubsequence(a: seq<Book>, b: seq<Book>)
    decreases |b|
  {
    if a == [] then true
    else if b == [] then false
    else if a[0] == b[0] then IsSubsequence(a[1..], b[1..])
    else IsSubsequence(a, b[1..])
  }

  /** `[book for book in s if <c holds of book>]` */
  function Filter(s: seq<Book>, c: Criterion): (r: seq<Book>)
    ensures |r| <= |s|
    ensures forall i :: 0 <= i < |r| ==> Matches(c, r[i])
    ensures forall b :: b in r <==> b in s && Matches(c, b)
    decreases |s|
  {
    if s == [] then []
    else
      assert s == [s[0]] + s[1..];
      if Matches(c, s[0]) then [s[0]] + Filter(s[1..], c)
      else Filter(s[1..], c)
  }

  /** The kept books appear in the order the catalogue holds them. */
  lemma {:induction false} FilterIsSubsequence(s: seq<Book>, c: Criterion)
    ensures IsSubsequence(Filter(s, c), s)
    decreases |s|
  {
    if s != [] {
      FilterIsSubsequence(s[1..], c);
      var rest := Filter(s[1..], c);
      if Matches(c, s[0]) {
        assert Filter(s, c) == [s[0]] + rest;
        assert ([s[0]] + rest)[1..] == rest;
      } else {
        assert Filter(s, c) == rest;
        if rest != [] {
          assert Matches(c, rest[0]);
          assert rest[0] != s[0];
        }
      }
    }
  }

  /** Every book the condition holds of is kept as often as it occurs, and
      no other book is kept. */
  lemma {:induction false} FilterCounts(s: seq<Book>, c: Criterion, b: Book)
    ensures multiset(Filter(s, c))[b] == if Matches(c, b) then multiset(s)[b] else 0
    decreases |s|
  {
    if s != [] {
      FilterCounts(s[1..], c, b);
      assert s == [s[0]] + s[1..];
      assert multiset(s) == multiset{s[0]} + multiset(s[1..]);
      if Matches(c, s[0]) {
        assert multiset(Filter(s, c)) == multiset{s[0]} + multiset(Filter(s[1..], c));
      }
    }
  }

  /** `FilterCounts` for every book at once. */
  lemma FilterCountsAll(s: seq<Book>, c: Criterion)
    ensures forall b :: multiset(Filter(s, c))[b] == if Matches(c, b) then multiset(s)[b] else 0
  {
    forall b {
      FilterCounts(s, c, b);
    }
  }

  /** Filtering a concatenation filters each part. */
  lemma {:induction false} FilterAppend(s: seq<Book>, t: seq<Book>, c: Criterion)
    ensures Filter(s + t, c) == Filter(s, c) + Filter(t, c)
    decreases |s|
  {
    if s == [] {
      assert s + t == t;
    } else {
      assert (s + t)[0] == s[0];
      assert (s + t)[1..] == s[1..] + t;
      FilterAppend(s[1..], t, c);
    }
  }

  function Min(a: int, b: int): int { if a <= b then a else b }
  function Max(a: int, b: int): int { if a >= b then a else b }

  /** The end index of the Python slice `s[:limit]`, or the whole length when
      no limit is given. A negative limit counts from the end; any bound is
      clamped to the sequence. */
  function SliceStop(n: nat, limit: Option<int>): (k: nat)
    ensures k <= n
    ensures limit.None? ==> k == n
    ensures limit.Some? && limit.value >= 0 ==> k == Min(limit.value, n)
    ensures limit.Some? && limit.value < 0 ==> k == Max(n + limit.value, 0)
  {
    match limit
    case None => n
    case Some(l) =>
      if l >= n then n
      else if l >= 0 then l
      else if n + l >= 0 then n + l
      else 0
  }

  /** The part of the catalogue the listing looks at: all of it when no
      limit is given, and otherwise the front of it up to the slice's end
      index. */
  function Prefix(s: seq<Book>, limit: Option<int>): (r: seq<Book>)
    ensures |r| <= |s| && r == s[..|r|]
    ensures limit.None? ==> r == s
    ensures limit.Some? && limit.value >= |s| ==> r == s
    ensures limit.Some? && 0 <= limit.value <= |s| ==> |r| == limit.value
    ensures limit.Some? && -|s| <= limit.value < 0 ==> |r| == |s| + limit.value
    ensures limit.Some? && limit.value < -|s| ==> r == []
  {
    s[..SliceStop(|s|, limit)]
  }

  /** A prefix keeps the order of the sequence it is taken from. */
  lemma {:induction false} PrefixIsSubsequence(s: seq<Book>, k: nat)
    requires k <= |s|
    ensures IsSubsequence(s[..k], s)
    decreases |s|
  {
    if k > 0 {
      PrefixIsSubsequence(s[1..], k - 1);
      assert s[..k][0] == s[0];
      assert s[..k][1..] == s[1..][..k - 1];
    }
  }

  /** Subsequence is transitive. */
  lemma {:induction false} SubsequenceTransitive(a: seq<Book>, b: seq<Book>, c: seq<Book>)
    requires IsSubsequence(a, b) && IsSubsequence(b, c)
    ensures IsSubsequence(a, c)
    decreases |c|
  {
    if a != [] {
      assert b != [] && c != [];
      if b[0] != c[0] {
        SubsequenceTransitive(a, b, c[1..]);
        SubsequenceOfTail(a, c);
      } else if a[0] == b[0] {
        SubsequenceTransitive(a[1..], b[1..], c[1..]);
      } else {
        SubsequenceTransitive(a, b[1..], c[1..]);
        SubsequenceOfTail(a, c);
      }
    }
  }

  /** A subsequence of the tail of `c` whose head is `c`'s head is, without
      that head, still a subsequence of the tail. */
  lemma {:induction false} SubsequenceDropFront(a: seq<Book>, c: seq<Book>)
    requires a != [] && IsSubsequence(a, c)
    ensures IsSubsequence(a[1..], c)
    decreases |c|, 1
  {
    assert c != [];
    if a[0] != c[0] {
      SubsequenceDropFront(a, c[1..]);
      SubsequenceOfTail(a[1..], c);
    } else if a[1..] != [] {
      SubsequenceOfTail(a[1..], c);
    }
  }

  /** A subsequence of the tail is a subsequence of the whole. */
  lemma {:induction false} SubsequenceOfTail(a: seq<Book>, c: seq<Book>)
    requires c != [] && IsSubsequence(a, c[1..])
    ensures IsSubsequence(a, c)
    decreases |c|, 0
  {
    if a != [] && a[0] == c[0] {
      SubsequenceDropFront(a, c[1..]);
    }
  }

  /** `get_all_books(limit, rating)`: the books of the `limit`-prefix whose
      rating reaches the threshold, in catalogue order. */
  function AllBooks(books: seq<Book>, limit: Option<int>, rating: real): (r: seq<Book>)
    ensures forall b :: b in r <==> b in Prefix(books, limit) && b.rating >= rating
    ensures forall i :: 0 <= i < |r| ==> r[i].rating >= rating
    ensures forall b :: multiset(r)[b] == if b.rating >= rating then multiset(Prefix(books, limit))[b] else 0
    ensures IsSubsequence(r, Prefix(books, limit))
    ensures IsSubsequence(r, books)
    ensures limit.None? ==> r == Filter(books, RatingAtLeast(rating))
  {
    var p := Prefix(books, limit);
    FilterIsSubsequence(p, RatingAtLeast(rating));
    FilterCountsAll(p, RatingAtLeast(rating));
    PrefixIsSubsequence(books, |p|);
    SubsequenceTransitive(Filter(p, RatingAtLeast(rating)), p, books);
    Filter(p, RatingAtLeast(rating))
  }

  /** `get_books_by_id(book_id)`: every book carrying that id, in catalogue order. */
  function BooksWithId(books: seq<Book>, id: int): (r: seq<Book>)
    ensures forall b :: b in r <==> b in books && b.id == id
    ensures forall i :: 0 <= i < |r| ==> r[i].id == id
    ensures forall b :: multiset(r)[b] == if b.id == id then multiset(books)[b] else 0
    ensures IsSubsequence(r, books)
  {
    FilterIsSubsequence(books, IdIs(id));
    FilterCountsAll(books, IdIs(id));
    Filter(books, IdIs(id))
  }

  /** `get_book_by_publish_year(year)`: every book published that year, in
      catalogue order. */
  function BooksFromYear(books: seq<Book>, year: int): (r: seq<Book>)
    ensures forall b :: b in r <==> b in books && b.publishYear == year
    ensures forall i :: 0 <= i < |r| ==> r[i].publishYear == year
    ensures forall b :: multiset(r)[b] == if b.publishYear == year then multiset(books)[b] else 0
    ensures IsSubsequence(r, books)
  {
    FilterIsSubsequence(books, PublishedIn(year));
    FilterCountsAll(books, PublishedIn(year));
    Filter(books, PublishedIn(year))
  }
}
