/**
 * The library service: validated access to the library store and the two
 * cross-entity reports. The stores are fields of the service; the checkable
 * store stands for the checkable service the library service delegates to.
 */
module Service {
  import opened Models
  import opened Exceptions
  import opened CheckableService
  import opened LibraryQueries

  /**
   * The store's keyed lookup by name is sound: whatever it returns under a
   * name is a library of the store with that name. It may miss libraries the
   * full listing returns (a keyed lookup out of step with the listing).
   */
  ghost predicate IndexSound(index: map<string, Library>, libs: seq<Library>)
  {
    forall n :: n in index ==> index[n].name == n && index[n] in libs
  }

  /** With unique names, a hit of the keyed lookup is the library the scan finds. */
  lemma IndexHit(index: map<string, Library>, libs: seq<Library>, name: string)
    requires IndexSound(index, libs) && name in index
    ensures UniqueNames(libs) ==> FindByName(libs, name) == Some(index[name])
  {
  }

  class LibraryService {
    /** The library store, as its full listing returns it. */
    var libraries: seq<Library>
    /** The library store's keyed lookup by name. */
    var nameIndex: map<string, Library>
    /** The checkable store, reached through the checkable service. */
    var checkables: seq<Checkable>

    ghost predicate Valid()
      reads this
    {
      IndexSound(nameIndex, libraries)
    }

    constructor (libraries: seq<Library>, nameIndex: map<string, Library>, checkables: seq<Checkable>)
      requires IndexSound(nameIndex, libraries)
      ensures Valid()
      ensures this.libraries == libraries && this.nameIndex == nameIndex && this.checkables == checkables
    {
      this.libraries := libraries;
      this.nameIndex := nameIndex;
      this.checkables := checkables;
    }

    /** Every library of the store. */
    function GetLibraries(): (r: seq<Library>)
      reads this
      ensures r == libraries
    {
      libraries
    }

    /**
     * The library called `name`: the keyed lookup first, then a scan of the
     * full listing, else LibraryNotFound.
     */
    function GetLibraryByName(name: string): (r: Result<Library>)
      reads this
      requires Valid()
      ensures r.Ok? <==> HasName(libraries, name)
      ensures r.Ok? ==> r.value.name == name && r.value in libraries
      ensures r.Ok? && UniqueNames(libraries) ==> FindByName(libraries, name) == Some(r.value)
      ensures r.Err? ==> r.error == LibraryNotFound(LibraryNotFoundMessage(name))
    {
      if name in nameIndex then
        IndexHit(nameIndex, libraries, name);
        Ok(nameIndex[name])
      else
        match FindByName(GetLibraries(), name)
        case Some(l) => Ok(l)
        case None => Err(LibraryNotFound(LibraryNotFoundMessage(name)))
    }

    /**
     * Stores `lib` unless a library of that name exists already, in which case
     * it fails with ResourceExists and the store is left as it was.
     */
    method Save(lib: Library) returns (r: Outcome)
      requires Valid()
      modifies this
      ensures Valid()
      ensures checkables == old(checkables)
      ensures HasName(old(libraries), lib.name) ==>
                r == Fail(ResourceExists(LibraryExistsMessage(lib.name))) &&
                libraries == old(libraries) && nameIndex == old(nameIndex)
      ensures !HasName(old(libraries), lib.name) ==>
                r == Pass && libraries == old(libraries) + [lib] &&
                nameIndex == old(nameIndex)[lib.name := lib]
      ensures old(UniqueNames(libraries)) ==> UniqueNames(libraries)
      ensures r == Pass ==> GetLibraryByName(lib.name) == Ok(lib)
    {
      var all := GetLibraries();
      if FindByName(all, lib.name).Some? {
        return Fail(ResourceExists(LibraryExistsMessage(lib.name)));
      }
      if UniqueNames(libraries) {
        AppendKeepsUniqueNames(libraries, lib);
      }
      libraries := libraries + [lib];
      nameIndex := nameIndex[lib.name := lib];
      r := Pass;
    }

    /**
     * The stock entry of library `libraryName` for `isbn`: the first entry for
     * that isbn, or a zero amount of the item when the library stocks none.
     * A missing library is reported before a missing item.
     */
    method GetCheckableAmount(libraryName: string, isbn: string) returns (r: Result<CheckableAmount>)
      requires Valid()
      ensures !HasName(libraries, libraryName) ==>
                r == Err(LibraryNotFound(LibraryNotFoundMessage(libraryName)))
      ensures HasName(libraries, libraryName) && !HasIsbn(checkables, isbn) ==>
                r == Err(CheckableNotFound(isbn))
      ensures HasName(libraries, libraryName) && HasIsbn(checkables, isbn) ==>
                r.Ok? &&
                var stock := GetLibraryByName(libraryName).value.checkables;
                || (exists i :: 0 <= i < |stock| && stock[i] == r.value &&
                                stock[i].checkable.isbn == isbn &&
                                forall j :: 0 <= j < i ==> stock[j].checkable.isbn != isbn)
                || ((forall j :: 0 <= j < |stock| ==> stock[j].checkable.isbn != isbn) &&
                    r.value == CheckableAmount(GetByIsbn(checkables, isbn).value, 0))
    {
      var found := GetLibraryByName(libraryName);
      if found.Err? {
        return Err(found.error);
      }
      var library := found.value;
      var item := GetByIsbn(checkables, isbn);
      if item.Err? {
        return Err(item.error);
      }
      var i := 0;
      while i < |library.checkables|
        invariant 0 <= i <= |library.checkables|
        invariant forall j :: 0 <= j < i ==> library.checkables[j].checkable.isbn != isbn
      {
        if library.checkables[i].checkable.isbn == isbn {
          return Ok(library.checkables[i]);
        }
        i := i + 1;
      }
      return Ok(CheckableAmount(item.value, 0));
    }

    /**
     * For every library and every stock entry of it for `isbn` with a positive
     * amount, one row (amount, library name); CheckableNotFound when the item
     * is not in the checkable store.
     */
    method GetLibrariesWithAvailableCheckout(isbn: string) returns (r: Result<seq<LibraryAvailableCheckouts>>)
      ensures !HasIsbn(checkables, isbn) ==> r == Err(CheckableNotFound(isbn))
      ensures HasIsbn(checkables, isbn) ==> r == Ok(Available(libraries, isbn))
    {
      var libs := GetLibraries();
      var available: seq<LibraryAvailableCheckouts> := [];
      var item := GetByIsbn(checkables, isbn);
      if item.Err? {
        return Err(item.error);
      }
      var checkable := item.value;
      var i := 0;
      while i < |libs|
        invariant 0 <= i <= |libs|
        invariant available == Available(libs[..i], isbn)
      {
        var library := libs[i];
        ghost var before := available;
        var j := 0;
        while j < |library.checkables|
          invariant 0 <= j <= |library.checkables|
          invariant available == before + Emit(Holdings(library)[..j], isbn)
        {
          var entry := library.checkables[j];
          HoldingsPrefix(library, j, isbn);
          if entry.checkable.isbn == checkable.isbn && entry.amount > 0 {
            available := available + [LibraryAvailableCheckouts(entry.amount, library.name)];
          }
          j := j + 1;
        }
        assert Holdings(library)[..j] == Holdings(library) by {
          if j > 0 { HoldingsPrefix(library, j - 1, isbn); }
        }
        AvailablePrefix(libs, i, isbn);
        i := i + 1;
      }
      assert libs[..|libs|] == libs;
      return Ok(available);
    }

    /**
     * For every card of library `libraryName` and every checkout on it due
     * strictly before `now`, one row (patron of the card, checkout).
     */
    method GetOverdueCheckouts(libraryName: string, now: int) returns (r: Result<seq<OverdueCheckout>>)
      requires Valid()
      ensures !HasName(libraries, libraryName) ==>
                r == Err(LibraryNotFound(LibraryNotFoundMessage(libraryName)))
      ensures HasName(libraries, libraryName) ==>
                r == Ok(OverdueOf(GetLibraryByName(libraryName).value.cards, now))
    {
      var overdue: seq<OverdueCheckout> := [];
      var found := GetLibraryByName(libraryName);
      if found.Err? {
        return Err(found.error);
      }
      var cards := found.value.cards;
      var i := 0;
      while i < |cards|
        invariant 0 <= i <= |cards|
        invariant overdue == OverdueOf(cards[..i], now)
      {
        var card := cards[i];
        ghost var before := overdue;
        var j := 0;
        while j < |card.checkouts|
          invariant 0 <= j <= |card.checkouts|
          invariant overdue == before + Overdue(CardLoans(card)[..j], now)
        {
          var checkout := card.checkouts[j];
          CardLoansPrefix(card, j, now);
          if checkout.due < now {
            overdue := overdue + [OverdueCheckout(card.patron, checkout)];
          }
          j := j + 1;
        }
        assert CardLoans(card)[..j] == CardLoans(card) by {
          if j > 0 { CardLoansPrefix(card, j - 1, now); }
        }
        OverdueOfPrefix(cards, i, now);
        i := i + 1;
      }
      assert cards[..|cards|] == cards;
      return Ok(overdue);
    }
  }

  /** An item a library holds three copies of is reported with that amount. */
  method ScenarioAvailable()
  {
    var whale := Media("1-0", "The White Whale", "Melvin H", Book);
    var eastside := Library("Eastside", [CheckableAmount(whale, 3)], []);
    var service := new LibraryService([eastside], map[], [whale]);
    assert HasIsbn(service.checkables, "1-0") by { assert service.checkables[0].isbn == "1-0"; }
    var available := service.GetLibrariesWithAvailableCheckout("1-0");
    var held := [Holding("Eastside", CheckableAmount(whale, 3))];
    assert Holdings(eastside) == held;
    assert Emit(held, "1-0") == [LibraryAvailableCheckouts(3, "Eastside")] by {
      assert held[..0] == [];
    }
    AvailableSingle(eastside, "1-0");
    assert available == Ok([LibraryAvailableCheckouts(3, "Eastside")]);
  }

  /** An item a library holds zero copies of gives an empty report, not a failure. */
  method ScenarioNoneAvailable()
  {
    var whale := Media("1-0", "The White Whale", "Melvin H", Book);
    var service := new LibraryService([Library("Eastside", [CheckableAmount(whale, 0)], [])], map[], [whale]);
    assert HasIsbn(service.checkables, "1-0") by { assert service.checkables[0].isbn == "1-0"; }
    var available := service.GetLibrariesWithAvailableCheckout("1-0");
    AvailableEmpty(service.libraries, "1-0");
    assert available == Ok([]);
  }

  /** Looking up a library that does not exist fails with the not-found message. */
  method ScenarioUnknownLibrary()
  {
    var service := new LibraryService([Library("Eastside", [], [])], map[], []);
    assert "Eastside"[0] != "Westside"[0];
    var westside := service.GetLibraryByName("Westside");
    assert westside.Err?;
    assert westside == Err(LibraryNotFound(LibraryNotFoundMessage("Westside")));
  }

  /** A checkout due the moment before now is reported with its card's patron. */
  method ScenarioOverdue()
  {
    var late := Checkout(Ticket("3-0", "Science Museum Tickets"), 999);
    var card := LibraryCard(Patron("Ana T"), [late]);
    var eastside := Library("Eastside", [], [card]);
    var service := new LibraryService([eastside], map[], []);
    assert FindByName([eastside], "Eastside") == Some(eastside);
    assert service.GetLibraryByName("Eastside") == Ok(eastside);
    var overdue := service.GetOverdueCheckouts("Eastside", 1000);
    var loans := [Loan(Patron("Ana T"), late)];
    assert Loans([card]) == loans by {
      assert [card][..0] == [];
      assert CardLoans(card) == loans;
    }
    assert Overdue(loans, 1000) == [OverdueCheckout(Patron("Ana T"), late)] by {
      assert loans[..0] == [];
    }
    assert overdue == Ok([OverdueCheckout(Patron("Ana T"), late)]);
  }
}
