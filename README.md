# Personal Library Manager — a Dafny model of the catalog logic

The Personal Library Manager is a single-user book catalog with a form-based
interface. It keeps an ordered list of books (title, author, year, genre, read
flag) in a backing file. From a menu it adds a book, removes books by title,
searches by title or author, lists the catalog and shows read statistics. All
of its data logic sits inline in the interface branches of `streamlit_app.py`.
This project models that logic without the widgets:

- `text.dfy`, module `Text`: ASCII lower-casing and substring containment. These are the two
  string operations the search relies on (`str.lower`, `needle in hay`).
- `seqs.dfy`, module `Seqs`: order-preserving filtering, the shape of the list comprehensions,
  and conditional counting, the shape of the generator `sum`. It also proves that a filter
  is a subsequence, what it keeps, that it is idempotent, and that it is unique.
- `catalog.dfy`, module `Catalog`: the `Book` record and the pure operations.
  - `NewBook`: validation and construction of the added book.
  - `Remove`: removal by exact title.
  - `Search`: case-insensitive search on one field.
  - `Statistics` and `ReadPercent`: the read statistics.
  - Lemmas about each of these.
- `session.dfy`, module `Library`: the session state as a class `Session`.
  - Fields: the in-memory catalog `library` and the backing file `store`.
  - `AddBook` appends to the session's catalog and saves. `RemoveBook` reassigns the catalog and saves.
  - The program reloads the file at the start of every interaction (`library = load_library()`
    runs before every menu branch). The model keeps one `Session` across interactions. That
    is sound because every operation keeps `Synced()`: the in-memory catalog equals what
    loading the file gives. `Reload` models the reload itself, and on a synced session it
    changes nothing.
  - `Load` models the loading policy. A missing or unparseable file gives an empty catalog.
  - `DuneScenario` is a client that runs the add/add/statistics/remove/statistics sequence.

In three places the code behaves differently from what a reader might assume. The
model follows the code:

- Validation tests for the empty string only (`not title`). A title of blanks is
  accepted, and `BlankTitleAccepted` records this. The model does not reject blank fields.
- An empty catalog shows no statistics. The code reports "No books in library" and
  computes no ratio. The model returns `NoBooks` rather than a percentage of 0.
- An empty search query runs no search and shows nothing. `Search` returns `None`,
  which is distinct from `Some([])` ("No matching books found").

## Model

| member | source | states |
|---|---|---|
| `Text.LowerChar` | streamlit_app.py:109 | the lower-cased character is never an ASCII capital; capitals move to their lower-case letter, every other character is unchanged |
| `Text.Lower` | streamlit_app.py:109 | lower-casing keeps the length and lower-cases each character at its own position |
| `Text.LowerIdempotent` | streamlit_app.py:109 | lower-casing twice is lower-casing once |
| `Text.Contains` | streamlit_app.py:109 | the empty string is contained in every string; a contained string is no longer than its container |
| `Text.ContainsIffOccurs` | streamlit_app.py:109 | `needle in hay` holds exactly when `needle` occurs at some index of `hay` (both directions) |
| `Seqs.CountIf` | streamlit_app.py:135 | the count of elements passing a test is at most the length, and is zero exactly when no element passes |
| `Seqs.Filter` | streamlit_app.py:97 | a list comprehension result is a subsequence of its input, holds each passing element as often as the input and no failing element, and its length is the count of passing elements |
| `Seqs.FilterUnique` | streamlit_app.py:97 | the comprehension result is the only subsequence with those multiplicities |
| `Catalog.NewBook` | streamlit_app.py:77-86 | the form is rejected exactly when title, author or genre is the empty string; otherwise the book carries the entered fields, a year in 0..2100 and `read` set exactly when the answer is "Yes" |
| `Catalog.BlankTitleAccepted` | streamlit_app.py:77 | a title of one blank passes validation (emptiness is the only test) |
| `Catalog.Titles` | streamlit_app.py:93 | the titles offered for removal are the books' titles, one per book, in catalog order |
| `Catalog.Remove` | streamlit_app.py:97 | removal keeps a subsequence of the catalog with no book of that title and every other book as often as before; the length drops by the number of books with that title |
| `Catalog.RemoveOfferedTitleShrinks` | streamlit_app.py:93-97 | removing a title taken from the offered titles makes the catalog strictly shorter |
| `Catalog.RemoveMembers` | streamlit_app.py:97 | a book survives removal exactly when it was in the catalog and has a different title |
| `Catalog.RemoveIdempotent` | streamlit_app.py:97 | removing a title twice equals removing it once |
| `Catalog.RemoveAbsentTitle` | streamlit_app.py:97 | removing a title no book has leaves the catalog unchanged |
| `Catalog.RemoveUnique` | streamlit_app.py:97 | any order-preserving selection that drops exactly the books with that title is the result of removal |
| `Catalog.Search` | streamlit_app.py:107-111 | an empty query performs no search; otherwise the result is a subsequence of the catalog holding exactly the books whose lower-cased field contains the lower-cased query, each as often as in the catalog |
| `Catalog.SearchMembers` | streamlit_app.py:108-111 | for a non-empty query a book is found exactly when it is in the catalog and the lower-cased query occurs at some index of its lower-cased title or author |
| `Catalog.SearchIgnoresQueryCase` | streamlit_app.py:109 | searching with the lower-cased query gives the same result as with the query as typed |
| `Catalog.SearchExample` | streamlit_app.py:109 | a title search for "dun" finds "Dune"; a search for "zzz" finds nothing |
| `Catalog.Statistics` | streamlit_app.py:131-135 | an empty catalog gives no statistics; otherwise the total is the number of books and the read count is the number of read books, never more than the total |
| `Catalog.ReadPercent` | streamlit_app.py:136 | the whole-number read percentage `p` satisfies `p * total <= readCount * 100 < (p + 1) * total`, and is at most 100 |
| `Catalog.AddedBookStatistics` | streamlit_app.py:131-135 | after appending a book the total rises by one and the read count rises by one exactly when the new book is read |
| `Library.Load` | streamlit_app.py:11-18 | a parsed file yields its books; a missing or unparseable file yields the empty catalog |
| `Library.Session.Open` | streamlit_app.py:60 | a session starts with the catalog that loading the backing file gives, so catalog and file are in sync |
| `Library.Session.Reload` | streamlit_app.py:60 | the catalog is reloaded from the file, which is unchanged; on a session already in sync the catalog stays as it was |
| `Library.Session.Save` | streamlit_app.py:20-22 | saving writes the whole catalog to the file, leaving the catalog unchanged; loading gives it back because the abstract `Store` holds the catalog itself (the JSON round trip is not verified) |
| `Library.Session.AddBook` | streamlit_app.py:76-88 | a rejected form changes neither catalog nor file; an accepted one appends the new book after every existing entry, in their original order, and saves; either way a session in sync stays in sync |
| `Library.Session.RemoveBook` | streamlit_app.py:96-98 | the catalog becomes its removal by the selected title, and is saved, so catalog and file are in sync |
| `Library.DuneScenarioValues` | streamlit_app.py:131-136 | the two-book catalog of the scenario has total 2 and read count 1 (50%); the one-book catalog of the unread "1984" has total 1 and read count 0 (0%) |
| `Library.DuneScenarioRemoval` | streamlit_app.py:97 | removing "Dune" from the scenario's two-book catalog leaves the unread "1984" alone |
| `Library.DuneScenario` | streamlit_app.py:60-136 | from a missing file, with a reload before each later interaction, adding a read and an unread book gives statistics 2/1 (50%); removing the read one gives 1/0 (0%) |

## Left out

- The interface is not modelled: the page setup, CSS, sidebar menu, forms, buttons, and the
  messages and metrics displayed (streamlit_app.py:25-75, 89, 99-101, 112-127, 137-138). The
  "Display all books" branch only renders the catalog, so it has no model.
- File I/O and JSON (`os.path.exists`, `open`, `json.load`, `json.dump`) are outside the model.
  The backing file is the abstract `Store`: `Missing`, `Malformed` or `Parsed(books)`. The JSON
  encoding and its round trip are not verified.
- Library.Load: a file that parses as JSON but is not a list of book records is not modelled.
  The code returns such a value unchanged. Undecodable bytes raise an error the code does not
  catch; that is not modelled either.
- Library.Session.Save: write failures (permissions, full disk) are not modelled. The code lets
  them propagate.
- Text.Lower: lower-cases ASCII capitals only. Python's `str.lower` follows Unicode case mapping,
  which also changes non-ASCII letters and can change a string's length.
- Catalog.ReadPercent: gives the read percentage truncated to a whole number. The code computes a
  floating-point percentage and displays it rounded to one decimal (streamlit_app.py:136, 138).
- Catalog.NewBook: the year has type `YearInput`, the range 0..2100 that the number input
  enforces (streamlit_app.py:72). Values outside that range cannot reach the code.
- Concurrent sessions writing the same file are not modelled; the last save wins.
