/**
 The catalog: a book record and the operations the library manager performs
 on its list of books, each stated over `seq<Book>`:
 building a book from the add form (with its validation), removing by exact
 title, case-insensitive search on title or author, and the read statistics.
 */
module Catalog {
  import opened Text
  import opened Seqs

  /** One catalog entry; the keys of the stored record are the field names. */
  datatype Book = Book(title: string, author: string, year: int, genre: string, read: bool)

  /** The field a search looks in. */
  datatype Field = Title | Author

  datatype Option<T> = None | Some(value: T)

  /** Bounds of the publication-year input of the add form. */
  const MinYear: int := 0
  const MaxYear: int := 2100

  /** The values the year input can deliver: whole numbers within its bounds. */
  type YearInput = y: int | MinYear <= y <= MaxYear

  /** What submitting the add form yields: the validation error, or the new book. */
  datatype AddOutcome = MissingFields | Added(book: Book)

  /** Validates the add form and builds the record. Only emptiness is tested:
      a title of blanks is accepted. The read flag is set by the answer "Yes". */
  function NewBook(title: string, author: string, year: YearInput, genre: string,
                   choice: string): (r: AddOutcome)
    ensures r.MissingFields? <==> title == [] || author == [] || genre == []
    ensures r.Added? ==> r.book.title == title && r.book.author == author && r.book.genre == genre
    ensures r.Added? ==> r.book.year == year && MinYear <= r.book.year <= MaxYear
    ensures r.Added? ==> (r.book.read <==> choice == "Yes")
  {
    if title == [] || author == [] || genre == [] then MissingFields
    else Added(Book(title, author, year, genre, choice == "Yes"))
  }

  /** A title made of one blank passes validation: the form checks for the empty
      string only. */
  lemma BlankTitleAccepted(year: YearInput)
    ensures NewBook(" ", "Herbert", year, "Sci-Fi", "No").Added?
  {
  }

  /** The titles offered for removal, in catalog order. */
  function Titles(library: seq<Book>): (r: seq<string>)
    ensures |r| == |library|
    ensures forall i :: 0 <= i < |library| ==> r[i] == library[i].title
  {
    if library == [] then [] else [library[0].title] + Titles(library[1..])
  }

  // ---------------------------------------------------------------- remove

  function HasTitle(title: string): Book -> bool {
    (b: Book) => b.title == title
  }

  function OtherTitle(title: string): Book -> bool {
    (b: Book) => b.title != title
  }

  /** Removal by exact, case-sensitive title: every book with that title goes,
      every other book stays, in its original order. */
  function Remove(library: seq<Book>, title: string): (r: seq<Book>)
    ensures IsSubseq(r, library)
    ensures forall b :: multiset(r)[b] == if b.title == title then 0 else multiset(library)[b]
    ensures |r| == |library| - CountIf(library, HasTitle(title))
  {
    CountIfComplement(library, OtherTitle(title), HasTitle(title));
    Filter(library, OtherTitle(title))
  }

  /** Removing a title offered for removal, one that some book has, shortens
      the catalog. */
  lemma RemoveOfferedTitleShrinks(library: seq<Book>, title: string)
    requires title in Titles(library)
    ensures |Remove(library, title)| < |library|
  {
    var titles := Titles(library);
    var i :| 0 <= i < |titles| && titles[i] == title;
    assert HasTitle(title)(library[i]);
  }

  /** A book survives removal exactly when it was there and has another title. */
  lemma RemoveMembers(library: seq<Book>, title: string, b: Book)
    ensures b in Remove(library, title) <==> b in library && b.title != title
  {
    FilterMembers(library, OtherTitle(title), b);
  }

  /** Removing the same title twice is removing it once. */
  lemma RemoveIdempotent(library: seq<Book>, title: string)
    ensures Remove(Remove(library, title), title) == Remove(library, title)
  {
    FilterIdempotent(library, OtherTitle(title));
  }

  /** Removing a title no book has leaves the catalog as it was. */
  lemma RemoveAbsentTitle(library: seq<Book>, title: string)
    requires forall i :: 0 <= i < |library| ==> library[i].title != title
    ensures Remove(library, title) == library
  {
    FilterKeepsAll(library, OtherTitle(title));
  }

  /** The contract of Remove determines its result: no other order-preserving
      selection drops exactly the books with that title. */
  lemma RemoveUnique(library: seq<Book>, title: string, r: seq<Book>)
    requires IsSubseq(r, library)
    requires forall b :: multiset(r)[b] == if b.title == title then 0 else multiset(library)[b]
    ensures r == Remove(library, title)
  {
    FilterUnique(library, OtherTitle(title), r);
  }

  // ---------------------------------------------------------------- search

  function FieldOf(b: Book, field: Field): string {
    match field
    case Title => b.title
    case Author => b.author
  }

  /** The lower-cased query is a substring of the lower-cased field. */
  predicate Matches(b: Book, field: Field, query: string) {
    Contains(Lower(query), Lower(FieldOf(b, field)))
  }

  function MatchesFor(field: Field, query: string): Book -> bool {
    (b: Book) => Matches(b, field, query)
  }

  /** Search on one field. An empty query performs no search (`None`); otherwise
      the result holds the matching books, in catalog order. */
  function Search(library: seq<Book>, field: Field, query: string): (r: Option<seq<Book>>)
    ensures r.None? <==> query == []
    ensures r.Some? ==> IsSubseq(r.value, library)
    ensures r.Some? ==> forall b :: multiset(r.value)[b] ==
                          if Matches(b, field, query) then multiset(library)[b] else 0
  {
    if query == [] then None else Some(Filter(library, MatchesFor(field, query)))
  }

  /** A book is found exactly when it is in the catalog and the lower-cased query
      occurs at some position of its lower-cased field. */
  lemma SearchMembers(library: seq<Book>, field: Field, query: string, b: Book)
    requires query != []
    ensures b in Search(library, field, query).value <==>
            b in library && exists i :: OccursAt(Lower(query), Lower(FieldOf(b, field)), i)
  {
    var found := Filter(library, MatchesFor(field, query));
    assert Search(library, field, query).value == found;
    FilterMembers(library, MatchesFor(field, query), b);
    assert b in found <==> b in library && Matches(b, field, query);
    ContainsIffOccurs(Lower(query), Lower(FieldOf(b, field)));
  }

  /** The case of the query does not matter: searching with its lower-cased
      form gives the same result. */
  lemma SearchIgnoresQueryCase(library: seq<Book>, field: Field, query: string)
    ensures Search(library, field, Lower(query)) == Search(library, field, query)
  {
    if query != [] {
      LowerIdempotent(query);
      var r := Filter(library, MatchesFor(field, query));
      FilterUnique(library, MatchesFor(field, Lower(query)), r);
    }
  }

  /** Searching titles for "dun" finds "Dune"; searching for "zzz" finds nothing. */
  lemma SearchExample()
    ensures var dune := Book("Dune", "Herbert", 1965, "Sci-Fi", true);
            Search([dune], Title, "dun") == Some([dune]) &&
            Search([dune], Title, "zzz") == Some([])
  {
    var dune := Book("Dune", "Herbert", 1965, "Sci-Fi", true);
    assert Lower("dun") == "dun";
    assert Lower("Dune") == "dune";
    assert "dune"[..3] == "dun";
    assert Matches(dune, Title, "dun");
    assert Lower("zzz") == "zzz";
    assert !OccursAt("zzz", "dune", 0) && !OccursAt("zzz", "dune", 1);
    ContainsIffOccurs("zzz", "dune");
    assert !Matches(dune, Title, "zzz");
    assert [dune][1..] == [];
    assert Filter([dune], MatchesFor(Title, "dun")) == [dune];
    assert Filter([dune], MatchesFor(Title, "zzz")) == [];
  }

  // ------------------------------------------------------------ statistics

  predicate IsRead(b: Book) {
    b.read
  }

  /** The statistics page: nothing when the catalog is empty, otherwise the
      number of books and the number of them marked read. */
  datatype Stats = NoBooks | Summary(total: nat, readCount: nat)

  function Statistics(library: seq<Book>): (s: Stats)
    ensures s.NoBooks? <==> library == []
    ensures s.Summary? ==> s.total == |library| && 0 < s.total
    ensures s.Summary? ==> s.readCount == |Filter(library, IsRead)| && s.readCount <= s.total
  {
    if |library| == 0 then NoBooks else Summary(|library|, CountIf(library, IsRead))
  }

  /** The read percentage, truncated to a whole number; only defined for a
      non-empty catalog, as the division is guarded. */
  function ReadPercent(total: nat, readCount: nat): (p: nat)
    requires 0 < total
    ensures p * total <= readCount * 100 < (p + 1) * total
    ensures readCount <= total ==> p <= 100
  {
    readCount * 100 / total
  }

  /** Adding a book raises the total by one, and the read count by one exactly
      when the new book is read. */
  lemma AddedBookStatistics(library: seq<Book>, b: Book)
    ensures Statistics(library + [b]).Summary?
    ensures Statistics(library + [b]).total == |library| + 1
    ensures Statistics(library + [b]).readCount ==
            CountIf(library, IsRead) + (if b.read then 1 else 0)
    ensures library != [] ==>
            Statistics(library + [b]).readCount ==
            Statistics(library).readCount + (if b.read then 1 else 0)
  {
    CountIfAppend(library, b, IsRead);
  }
}
