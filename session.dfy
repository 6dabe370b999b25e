/**
 The running application's state: the list of books loaded at the start of an
 interaction and the backing file it is saved to after every change.
 The file is modelled by what a JSON reader would make of it, not by its bytes.
 */
module Library {
  import opened Catalog

  /** The backing file as the loader sees it: absent, not parseable, or a list
      of book records. */
  datatype Store = Missing | Malformed | Parsed(books: seq<Book>)

  /** Loading: a missing or unparseable file reads as an empty catalog. */
  function Load(file: Store): (r: seq<Book>)
    ensures file.Parsed? ==> r == file.books
    ensures !file.Parsed? ==> r == []
  {
    match file
    case Parsed(books) => books
    case _ => []
  }

  class Session {
    /** The catalog in memory. */
    var library: seq<Book>
    /** The backing file. */
    var store: Store

    /** The catalog in memory is what loading the backing file gives. The program
        reloads the file at the start of every interaction; a session that keeps
        this predicate can stand for that sequence of reloads. */
    ghost predicate Synced()
      reads this
    {
      Load(store) == library
    }

    /** Start of the first interaction: the catalog is whatever loading the file gives. */
    constructor Open(file: Store)
      ensures library == Load(file) && store == file
      ensures Synced()
    {
      library := Load(file);
      store := file;
    }

    /** Start of each later interaction: the file is loaded again. On a synced
        session this changes nothing. */
    method Reload()
      modifies this
      ensures library == Load(store) && store == old(store)
      ensures Synced()
      ensures old(Synced()) ==> library == old(library)
    {
      library := Load(store);
    }

    /** Writes the whole catalog to the backing file; loading it back gives the
        catalog again. */
    method Save()
      modifies this
      ensures store == Parsed(library) && library == old(library)
      ensures Load(store) == library
    {
      store := Parsed(library);
    }

    /** Submitting the add form. A form with an empty title, author or genre is
        rejected and nothing changes, the file included; otherwise the new book
        is appended after every existing one and the catalog is saved. */
    method AddBook(title: string, author: string, year: YearInput, genre: string,
                   choice: string) returns (outcome: AddOutcome)
      modifies this
      ensures outcome == NewBook(title, author, year, genre, choice)
      ensures outcome.MissingFields? ==> library == old(library) && store == old(store)
      ensures outcome.Added? ==> library == old(library) + [outcome.book]
      ensures outcome.Added? ==> store == Parsed(library)
      ensures outcome.Added? ==> Synced()
      ensures old(Synced()) ==> Synced()
    {
      outcome := NewBook(title, author, year, genre, choice);
      if outcome.Added? {
        library := library + [outcome.book];
        Save();
      }
    }

    /** Removing every book with the selected title, then saving. */
    method RemoveBook(title: string)
      modifies this
      ensures library == Remove(old(library), title)
      ensures store == Parsed(library)
      ensures Synced()
    {
      library := Remove(library, title);
      Save();
    }
  }

  /** The statistics of the catalogs the scenario below passes through. */
  lemma DuneScenarioValues(dune: Book, orwell: Book)
    requires dune == Book("Dune", "Herbert", 1965, "Sci-Fi", true)
    requires orwell == Book("1984", "Orwell", 1949, "Dystopian", false)
    ensures Statistics([dune, orwell]) == Summary(2, 1)
    ensures Statistics([orwell]) == Summary(1, 0)
    ensures ReadPercent(2, 1) == 50 && ReadPercent(1, 0) == 0
  {
    assert Statistics([dune, orwell]) == Summary(2, 1) by {
      assert [] + [dune] == [dune] && [dune] + [orwell] == [dune, orwell];
      AddedBookStatistics([], dune);
      AddedBookStatistics([dune], orwell);
    }
    assert Statistics([orwell]) == Summary(1, 0) by {
      assert [] + [orwell] == [orwell];
      AddedBookStatistics([], orwell);
    }
  }

  /** Removing "Dune" from the scenario's two-book catalog leaves "1984" alone. */
  lemma DuneScenarioRemoval(dune: Book, orwell: Book)
    requires dune == Book("Dune", "Herbert", 1965, "Sci-Fi", true)
    requires orwell == Book("1984", "Orwell", 1949, "Dystopian", false)
    ensures Remove([dune, orwell], "Dune") == [orwell]
  {
    assert [dune, orwell][1..] == [orwell] && [orwell][1..] == [];
  }

  /** A session that starts from a missing file, adds a read "Dune" and an unread
      "1984", reads the statistics, removes "Dune" and reads them again; each
      interaction after the first starts by reloading the file. */
  method DuneScenario() returns (before: Stats, after: Stats)
    ensures before == Summary(2, 1) && ReadPercent(before.total, before.readCount) == 50
    ensures after == Summary(1, 0) && ReadPercent(after.total, after.readCount) == 0
  {
    var dune := Book("Dune", "Herbert", 1965, "Sci-Fi", true);
    var orwell := Book("1984", "Orwell", 1949, "Dystopian", false);
    var session := new Session.Open(Missing);
    var first := session.AddBook("Dune", "Herbert", 1965, "Sci-Fi", "Yes");
    assert first == Added(dune);
    assert session.library == [dune];
    session.Reload();
    var second := session.AddBook("1984", "Orwell", 1949, "Dystopian", "No");
    assert second == Added(orwell);
    assert session.library == [dune, orwell] by {
      assert [dune] + [orwell] == [dune, orwell];
    }
    DuneScenarioValues(dune, orwell);
    DuneScenarioRemoval(dune, orwell);
    session.Reload();
    before := Statistics(session.library);
    session.Reload();
    session.RemoveBook("Dune");
    session.Reload();
    after := Statistics(session.library);
  }
}
