# Book catalogue of the FastAPI bookstore service

This project models the in-memory book catalogue of the bookstore service
(`api/main.py`) and proves properties of the model in Dafny. The service
keeps one process-wide list of `Book` records, `BOOKS`. Its starting
contents are four books with ids 1 to 4. The endpoints work on that list:

- a filtered listing: take the `limit`-prefix of the list, then keep the
  books whose rating reaches a threshold;
- lookups by id and by publish year;
- create: validate the request, give it the next id (last id + 1, or 1 on an
  empty list) and append it;
- update: validate the request and replace the first book with its id;
- delete: remove the first book with the given id and return it.

Files and modules:

- `books.dfy` (`Books`): the `Book` record, the initial list and the
  invariant that ids strictly increase along the list.
- `queries.dfy` (`Queries`): the read-only endpoints. The listing filters a
  Python-style prefix of the list; the id and year lookups filter the whole
  list. The lemmas show that a filter keeps exactly the
  matching books, keeps their order, and keeps each one as often as it occurs.
- `requests.dfy` (`Requests`): the create and update request bodies and
  their field bounds. Validation reports the fields that break their bounds.
- `catalogue.dfy` (`Catalogue`): the class `BookCatalogue`. Its field
  `books` is `BOOKS`. Its methods are the endpoints that change the list; the
  update and delete methods keep the source's `for i in range(len(BOOKS))`
  scan as a `while` loop. The module also holds the functions that specify
  those methods' effects (`IndexOfId`, `Replaced`, `Removed`, `NextId`) and
  lemmas that tie those effects to the lookups and to the id invariant.

No method requires the id invariant. Each one instead promises to keep it:
`old(Valid()) ==> Valid()`. The constructor establishes it for the initial
list.

## Model

| member | source | states |
|---|---|---|
| Books.InitialBooks | api/main.py:30-51 | the catalogue starts with four books whose ids are 1, 2, 3, 4 in that order |
| Books.InitialIdsIncreasing | api/main.py:30-51 | the initial list satisfies the invariant that ids strictly increase |
| Books.IncreasingIdsAreUnique | api/main.py:30-51 | under the invariant, two positions holding the same id are the same position |
| Queries.Filter | api/main.py:64 | a list comprehension keeps only books its condition holds of, and keeps a book value exactly when it is in the input and satisfies the condition |
| Queries.FilterIsSubsequence | api/main.py:64 | the kept books are a subsequence of the input: original order is preserved |
| Queries.FilterCounts | api/main.py:64 | each satisfying book occurs in the result as often as in the input; no other book occurs |
| Queries.FilterAppend | api/main.py:76 | filtering a concatenation is the concatenation of the filtered parts |
| Queries.SliceStop | api/main.py:63 | the end index of `[:limit]`: the length with no limit; a non-negative limit clamped to the length; a negative limit added to the length and clamped at 0 |
| Queries.Prefix | api/main.py:63 | `BOOKS[:limit]` follows Python slicing: no limit or a limit at or above the length gives the whole list; a limit of 0 to the length gives that many; a negative limit drops that many from the end; below minus the length gives nothing; the result is always a prefix |
| Queries.AllBooks | api/main.py:61-64 | the listing holds exactly the books of the limit-prefix with rating at least the threshold, all of them reaching it, each as often as it occurs in the prefix, as a subsequence of the prefix (so in catalogue order); with no limit it is the rating filter of the whole list |
| Queries.BooksWithId | api/main.py:68-70 | the lookup by id holds exactly the stored books with that id, each as often as it is stored, in catalogue order |
| Queries.BooksFromYear | api/main.py:73-76 | the lookup by year holds exactly the stored books published that year, each as often as it is stored, in catalogue order |
| Requests.Violations | api/main.py:79-85 | a request is reported as failing a field exactly when it breaks that field's bound (title at least 3 characters, author at least 1, description 1 to 100, rating 0 to 5, publish year 1999 to 2031); each reported field appears once and in declaration order; the report is empty exactly when all bounds hold; the update model at api/main.py:121-127 uses the same bounds on the same `Fields` |
| Requests.ToBook | api/main.py:102 | the record built from a body (also at api/main.py:146) carries the given id and exactly the body's fields, and is the only such record |
| Catalogue.NextId | api/main.py:114-117 | an empty catalogue hands out id 1; under the invariant the next id exceeds every stored id |
| Catalogue.IndexOfId | api/main.py:144-145 | the scan's stopping point: an index whose book has the id and before which no book has it, or none exactly when no book has the id |
| Catalogue.IndexOfIdIsFirst | api/main.py:152-153 | the first position carrying the id, scanning from the front, is the one `IndexOfId` returns |
| Catalogue.Replaced | api/main.py:144-146 | replacement leaves the length unchanged |
| Catalogue.ReplacedChangesOnlyFirstMatch | api/main.py:144-147 | replacement puts the new book at the first matching index and leaves every other entry as it was; without a match the list is unchanged |
| Catalogue.Removed | api/main.py:152-155 | without a match the list is unchanged; with one it is one shorter and only the first matching book leaves the multiset |
| Catalogue.RemovedDropsFirstMatch | api/main.py:152-156 | removal shortens the list by one, keeps the books before the first match, shifts those after it down by one, removes only that book from the multiset and leaves a subsequence; without a match the list is unchanged |
| Catalogue.DeleteAtShifts | api/main.py:155 | `pop(i)` keeps the entries before `i`, shifts the ones after `i` down by one and removes one copy of the popped book |
| Catalogue.DeleteAtIsSubsequence | api/main.py:155 | after `pop(i)` the remaining books keep their relative order |
| Catalogue.NextIdIsFresh | api/main.py:112-118 | under the invariant, the next id is larger than every stored id, so no stored book has it |
| Catalogue.DeletedLastIdIsReused | api/main.py:112-118 | deleting the last book (book 4) of the initial list makes its id the next id again |
| Catalogue.DeletingLastBookLowersNextId | api/main.py:112-118 | under the invariant, after deleting the last of two or more books the next id is the new last id + 1, which is at most the deleted id |
| Catalogue.AppendKeepsIdsIncreasing | api/main.py:102-104 | appending a book with the next id keeps ids strictly increasing |
| Catalogue.ReplaceKeepsIdsIncreasing | api/main.py:144-147 | replacing a book by one with the matched id keeps ids strictly increasing |
| Catalogue.RemoveKeepsIdsIncreasing | api/main.py:152-156 | removing a book keeps ids strictly increasing |
| Catalogue.NoBookWithIdIffNoIndex | api/main.py:68-70 | the lookup by id is empty exactly when update and delete find no book to act on |
| Catalogue.BooksWithIdIsIndexed | api/main.py:68-70 | under the invariant, the lookup by id returns the single book update and delete act on, or nothing |
| Catalogue.DeletedIdIsGone | api/main.py:150-156 | under the invariant, after a delete the lookup of that id is empty |
| Catalogue.UpdatedBookIsFound | api/main.py:142-147 | under the invariant, after updating a stored id the lookup of that id returns exactly the new book |
| Catalogue.CreatedBookListedLast | api/main.py:104 | after an append, the year lookup is the old one, followed by the new book if it has that year |
| Catalogue.BookCatalogue.constructor | api/main.py:30-51 | the catalogue starts as the four initial books and satisfies the invariant |
| Catalogue.BookCatalogue.AttachNewBookId | api/main.py:112-118 | the returned book has id last-id + 1, or 1 on an empty catalogue; every other field is unchanged; under the invariant no stored book has that id |
| Catalogue.BookCatalogue.CreateNewBook | api/main.py:99-104 | an invalid request is rejected with its violations and the catalogue is unchanged; a valid one becomes a book with the request's fields and the next id, appended at the end with everything before it unchanged; the invariant is kept |
| Catalogue.BookCatalogue.UpdateExistingBook | api/main.py:142-147 | an invalid request is rejected and changes nothing; a valid one replaces the first book with the request's id by a book carrying the request's fields and that id, and returns it; with no such book the catalogue is unchanged and nothing is returned; the invariant is kept |
| Catalogue.BookCatalogue.DeleteBook | api/main.py:150-156 | removes the first book with the id and returns it; the list becomes one shorter and the rest keep their order; with no such book the catalogue is unchanged and nothing is returned; the invariant is kept |

## Left out

- `api/orders.py` and `api/products.py` are not part of this model. They are thin wrappers over a Redis object mapper and an outbound HTTP call, and the only computation in them is a floating-point price product.
- HTTP routing, CORS, environment loading, the landing-page handlers and the Swagger example bodies are not modelled.
- Request parsing and type coercion are not modelled; only the declared field bounds are. String lengths count `char`s, and a non-integer path or query parameter (rejected before any handler runs) is not modelled.
- The timestamp in the create response is left out, because it reads the clock and does not affect the list.
- Ratings are exact reals, while the service compares double-precision floats. Two decimals that round to the same double are equal in the service but unequal in the model: a threshold of 4.70000000000000001 admits the stored 4.7 in the service and rejects it in the model. NaN and infinities, which a float query parameter could carry, are not modelled either; with NaN as the threshold the service would list nothing.
- Catalogue.BookCatalogue.AttachNewBookId: the service assigns `book.id` on a mutable record. The model returns an updated copy instead, because the record is freshly built from the request and nothing else refers to it.
- Catalogue.BookCatalogue.CreateNewBook: the record is first built with the request's optional id, which may be absent in the service. The model builds it with that id or 0. The placeholder is overwritten before the book is stored, so it is never observable.
- Catalogue.BookCatalogue.UpdateExistingBook: the service answers with the request body itself. The model returns the stored book, which carries the same fields.
- The message strings of the JSON responses are not modelled. Each response is reduced to the data it returns, or to its absence.
- Concurrency is not modelled. The model assumes each request runs to completion on the shared list before the next one starts. That holds for the `async def` handlers, which run on one event loop without awaiting. It does not hold for `delete_book` (api/main.py:151), a plain `def` that the framework runs on a worker thread: two deletes of one id can both find the same index `i`, and the second `pop(i)` then removes a different book. That interleaving is not captured.
