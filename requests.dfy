/**
 The request bodies of the create and update endpoints and the field bounds
 they are validated against before a handler runs. A request that breaks a
 bound is rejected with the list of offending fields; the handler never
 sees it.
 */
module Requests {
  import opened Books

  /** The five validated fields, in the order the request models declare them. */
  datatype Field = Title | Author | Description | Rating | PublishYear

  /** The fields shared by a create request and an update request. */
  datatype Fields = Fields(
    title: string,
    author: string,
    description: string,
    rating: real,
    publishYear: int
  )

  /** Body of the create endpoint; its id is optional and is replaced by the
      catalogue before the book is stored. */
  datatype BookRequest = BookRequest(id: Option<int>, fields: Fields)

  /** Body of the update endpoint; its id names the book to replace. */
  datatype BookUpdate = BookUpdate(id: int, fields: Fields)

  /** What an endpoint with a validated body answers: the handler's own
      answer, or the fields that failed validation. */
  datatype Validated<T> = Accepted(value: T) | Rejected(errors: seq<Field>)

  const MinTitleLength: nat := 3
  const MinAuthorLength: nat := 1
  const MinDescriptionLength: nat := 1
  const MaxDescriptionLength: nat := 100
  const MinRating: real := 0.0
  const MaxRating: real := 5.0
  const MinPublishYear: int := 1999
  const MaxPublishYear: int := 2031

  /** The bound declared on one field. */
  predicate FieldOk(f: Fields, which: Field) {
    match which
    case Title => |f.title| >= MinTitleLength
    case Author => |f.author| >= MinAuthorLength
    case Description => MinDescriptionLength <= |f.description| <= MaxDescriptionLength
    case Rating => MinRating <= f.rating <= MaxRating
    case PublishYear => MinPublishYear <= f.publishYear <= MaxPublishYear
  }

  /** All five bounds at once: the condition under which a request body is accepted. */
  predicate WithinBounds(f: Fields) {
    && |f.title| >= MinTitleLength
    && |f.author| >= MinAuthorLength
    && MinDescriptionLength <= |f.description| <= MaxDescriptionLength
    && MinRating <= f.rating <= MaxRating
    && MinPublishYear <= f.publishYear <= MaxPublishYear
  }

  /** Every validated field, in declaration order. */
  const DeclaredFields: seq<Field> := [Title, Author, Description, Rating, PublishYear]

  lemma DeclaredFieldsComplete()
    ensures forall w: Field :: w in DeclaredFields
  {
    forall w: Field ensures w in DeclaredFields {
      match w
      case Title => assert DeclaredFields[0] == w;
      case Author => assert DeclaredFields[1] == w;
      case Description => assert DeclaredFields[2] == w;
      case Rating => assert DeclaredFields[3] == w;
      case PublishYear => assert DeclaredFields[4] == w;
    }
  }

  /** A field's position among the declared fields. */
  function Rank(w: Field): nat {
    match w
    case Title => 0
    case Author => 1
    case Description => 2
    case Rating => 3
    case PublishYear => 4
  }

  predicate InDeclarationOrder(ws: seq<Field>) {
    forall i, j :: 0 <= i < j < |ws| ==> Rank(ws[i]) < Rank(ws[j])
  }

  /** The fields of `ws` whose bounds `f` breaks, in the order of `ws`. */
  function Offending(f: Fields, ws: seq<Field>): (r: seq<Field>)
    ensures |r| <= |ws|
    ensures forall w :: w in r <==> w in ws && !FieldOk(f, w)
    ensures InDeclarationOrder(ws) ==> InDeclarationOrder(r)
  {
    if ws == [] then []
    else
      assert ws == [ws[0]] + ws[1..];
      var rest := Offending(f, ws[1..]);
      assert InDeclarationOrder(ws) ==> forall w :: w in rest ==> Rank(ws[0]) < Rank(w) by {
        if InDeclarationOrder(ws) {
          forall w | w in rest ensures Rank(ws[0]) < Rank(w) {
            var k :| 0 <= k < |ws[1..]| && ws[1..][k] == w;
            assert ws[k + 1] == w;
          }
        }
      }
      (if FieldOk(f, ws[0]) then [] else [ws[0]]) + rest
  }

  /** The answer of validation: the fields whose bounds `f` breaks, each
      once and in declaration order; empty exactly when every bound holds. */
  function Violations(f: Fields): (r: seq<Field>)
    ensures forall w :: w in r <==> !FieldOk(f, w)
    ensures r == [] <==> WithinBounds(f)
    ensures InDeclarationOrder(r)
    ensures |r| <= 5
  {
    var r := Offending(f, DeclaredFields);
    assert InDeclarationOrder(DeclaredFields);
    DeclaredFieldsComplete();
    assert r == [] <==> WithinBounds(f) by {
      if r == [] {
        assert FieldOk(f, Title) && FieldOk(f, Author) && FieldOk(f, Description);
        assert FieldOk(f, Rating) && FieldOk(f, PublishYear);
      } else {
        assert r[0] in r;
      }
    }
    r
  }

  /** The fields a stored book carries, as a request would state them. */
  function FieldsOf(b: Book): Fields {
    Fields(b.title, b.author, b.description, b.rating, b.publishYear)
  }

  /** The record a validated body becomes: the body's fields under the given id. */
  function ToBook(id: int, f: Fields): (b: Book)
    ensures b.id == id && FieldsOf(b) == f
    ensures forall other: Book :: other.id == id && FieldsOf(other) == f ==> other == b
  {
    Book(id, f.title, f.author, f.description, f.rating, f.publishYear)
  }
}
