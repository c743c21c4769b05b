/**
 The book record kept by the in-memory catalogue, the catalogue's initial
 contents, and the ordering invariant on ids that every operation keeps.
 */
module Books {

  datatype Option<T> = None | Some(value: T)

  /** One catalogue entry. The rating is a floating-point number in the
      service; it is only ever compared, so it is modelled as a real. */
  datatype Book = Book(
    id: int,
    title: string,
    author: string,
    description: string,
    rating: real,
    publishYear: int
  )

  /** The four books the catalogue starts with. */
  function InitialBooks(): (r: seq<Book>)
    ensures |r| == 4
    ensures forall k :: 0 <= k < |r| ==> r[k].id == k + 1
  {
    [
      Book(1, "Apache Spark", "Elon Musk", "Details on Apache spark systems", 4.5, 2009),
      Book(2, "Arrow and DuckDB", "Jeff Bezos", "Using DuckDB in modern systems", 4.0, 2022),
      Book(3, "Imran Khan", "PTI Official", "Life of Imran Khan and 1992 Worldcup", 4.7, 2012),
      Book(4, "Mastering AWS and Cloud", "Jeff Bezos", "AWS cloud infrastructure and cloud concepts", 4.2, 2015)
    ]
  }

  /** Ids grow strictly from the front of the catalogue to its back. */
  predicate IdsIncreasing(s: seq<Book>) {
    forall i, j :: 0 <= i < j < |s| ==> s[i].id < s[j].id
  }

  /** Strictly increasing ids are in particular pairwise distinct. */
  lemma IncreasingIdsAreUnique(s: seq<Book>, i: nat, j: nat)
    requires IdsIncreasing(s)
    requires i < |s| && j < |s| && s[i].id == s[j].id
    ensures i == j
  {
  }

  lemma InitialIdsIncreasing()
    ensures IdsIncreasing(InitialBooks())
  {
  }
}
