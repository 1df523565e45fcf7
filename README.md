# Library service — a Dafny model

This project models the validation and aggregation layer of a small
library-management backend, the `LibraryService` of
`src/com/bloomtech/library/services/LibraryService.java`. Libraries stock
checkable items (media, science kits, tickets) in given amounts, patrons hold
library cards, and cards carry checkouts with due moments. The service:

- looks a library up by name, first through the store's keyed lookup and then
  by scanning the store's full listing;
- saves a library unless one of that name exists;
- reports how many copies of an item one library stocks;
- lists every library with available copies of an item;
- lists the overdue checkouts of one library.

Files and modules:

- `models.dfy` (`Models`): the entities as datatypes (`Checkable` with its
  three variants, `CheckableAmount`, `Library`, `LibraryCard`, `Checkout`,
  `Patron`) and the two report rows (`LibraryAvailableCheckouts`,
  `OverdueCheckout`).
- `exceptions.dfy` (`Exceptions`): the thrown exceptions as a `ServiceError`
  value (`LibraryNotFound`, `CheckableNotFound`, `ResourceExists`), carried by
  `Result` and `Outcome`. It also holds the two message texts.
- `checkable_service.dfy` (`CheckableService`): the one checkable-service
  operation the library service calls, `GetByIsbn`, over the checkable store
  as a sequence.
- `library_queries.dfy` (`LibraryQueries`): the specification on values. It
  holds the first-match name lookup and the name-uniqueness invariant. It
  defines each report as a filter over an explicit listing of every
  (library, stock entry) pair (`Stock`) or every (card, checkout) pair
  (`Loans`). The lemmas about these are here.
- `library_service.dfy` (`Service`): the class `LibraryService`. Its fields are
  the library store (`libraries`), the store's keyed lookup by name
  (`nameIndex`) and the checkable store (`checkables`). `Save` updates the
  store in place. `GetLibraryByName` is a function whose contract ties it to
  `FindByName`. The two report methods are loops proved equal to the
  specification functions `Available` and `OverdueOf`. `GetCheckableAmount`
  is a loop with an early return, and its own contract states the
  first-match-or-zero result directly. Four scenario methods replay small
  end-to-end examples as clients of the class.

Modelling choices:

- The repositories are fields of the service. `findAll` is the `libraries`
  sequence.
- `findByName` is the map `nameIndex`. The class invariant `Valid` says that
  every entry of the map is a library of the store under its own name. The map
  may miss libraries the listing has, which is the inconsistent store the scan
  fallback of `getLibraryByName` tolerates. `Save` enters the new library in
  both.
- The wall clock `LocalDateTime.now()` is the parameter `now: int`. Due dates
  are instants on the same integer line, and "is before" is `<`.
- A library's cards are a `Set` in the source and a `seq` here. The lemma
  `OverdueIgnoresCardOrder` proves that the overdue report, read as a
  multiset, does not depend on the order the cards are visited in.
- The scan fallback of `getLibraryByName`
  (src/com/bloomtech/library/services/LibraryService.java:51-59) is modelled
  as written, after the keyed lookup.
- Amounts are plain `int`s. The code never checks that they are non-negative,
  and only its `> 0` test (LibraryService.java:105) is modelled.
- Amounts are only compared, never computed with, so Java's 32-bit `int`
  width plays no part.

## Model

| member | source | states |
|---|---|---|
| `CheckableService.GetByIsbn` | tst/com/bloomtech/library/services/CheckableServiceTest.java:65-84 | succeeds iff some item of the checkable store has the isbn; the item returned has that isbn, is in the store and is the first such; otherwise fails with CheckableNotFound for that isbn |
| `LibraryQueries.FindByName` | src/com/bloomtech/library/services/LibraryService.java:52-55 | the filter-then-findFirst on names: finds a library iff one has the name; the one found is in the store, carries the name and no earlier library does |
| `LibraryQueries.FindByNameUnique` | src/com/bloomtech/library/services/LibraryService.java:52-55 | in a store with unique names every library is the one its own name finds |
| `LibraryQueries.AppendKeepsUniqueNames` | src/com/bloomtech/library/services/LibraryService.java:64-70 | appending a library whose name is not taken keeps the names unique |
| `LibraryQueries.AppendThenFind` | src/com/bloomtech/library/services/LibraryService.java:64-70 | after appending a library under a fresh name, a scan for that name finds exactly it and a scan for any other name finds what it found before |
| `LibraryQueries.AppendFind` | src/com/bloomtech/library/services/LibraryService.java:52-55 | appending a library does not change what a scan for a different name finds |
| `LibraryQueries.Stock` | src/com/bloomtech/library/services/LibraryService.java:102-104 | the listing the availability report filters: every (library name, stock entry) pair, library order then entry order, one entry per stock entry of every library |
| `LibraryQueries.Available` | src/com/bloomtech/library/services/LibraryService.java:98-114 | the availability report for an isbn, which `GetLibrariesWithAvailableCheckout` returns: the stock listing filtered on that isbn with amount greater than 0; every row has a positive amount |
| `LibraryQueries.Emit` | src/com/bloomtech/library/services/LibraryService.java:104-108 | the report over a listing of stock entries has at most one row per entry and every row has an amount greater than 0 |
| `LibraryQueries.EmitAppend` | src/com/bloomtech/library/services/LibraryService.java:104-109 | the rows of two listings one after the other are the rows of the first, then those of the second |
| `LibraryQueries.AvailableAppend` | src/com/bloomtech/library/services/LibraryService.java:102-110 | the availability report follows library order: over two stores it is the report over the first followed by that over the second |
| `LibraryQueries.AvailableExact` | src/com/bloomtech/library/services/LibraryService.java:98-110 | a row is in the availability report iff some library has a stock entry for the isbn with amount greater than 0, and the row is (that amount, that library's name) |
| `LibraryQueries.AvailableEmpty` | src/com/bloomtech/library/services/LibraryService.java:98-114 | the availability report is empty iff no library holds a positive amount of the isbn |
| `LibraryQueries.StockMember` | src/com/bloomtech/library/services/LibraryService.java:102-104 | the listing the report filters holds exactly the (library name, entry) pairs of every entry of every library |
| `LibraryQueries.Overdue` | src/com/bloomtech/library/services/LibraryService.java:133-137 | the overdue report over a listing of checkouts has at most one row per checkout and every row is due strictly before now |
| `LibraryQueries.OverdueOfAppend` | src/com/bloomtech/library/services/LibraryService.java:132-139 | the overdue report follows card order: over two runs of cards it is the report over the first followed by that over the second |
| `LibraryQueries.Loans` | src/com/bloomtech/library/services/LibraryService.java:132-133 | the listing the overdue report filters: every (patron of the card, checkout) pair, card order then checkout order, one entry per checkout of every card |
| `LibraryQueries.OverdueOf` | src/com/bloomtech/library/services/LibraryService.java:127-141 | the overdue report of a library's cards at `now`, which `GetOverdueCheckouts` returns: the loans listing filtered on due strictly before `now`; every row is due before `now` |
| `LibraryQueries.OverdueBound` | src/com/bloomtech/library/services/LibraryService.java:127-141 | the overdue report has no more rows than the cards have checkouts in all |
| `LibraryQueries.OverdueExact` | src/com/bloomtech/library/services/LibraryService.java:130-141 | a row is in the overdue report iff some card has a checkout due strictly before now, and the row is (that card's patron, that checkout); no checkout due at or after now appears |
| `LibraryQueries.OverdueIgnoresCardOrder` | src/com/bloomtech/library/services/LibraryService.java:130-132 | visiting the cards in any order yields the same overdue rows with the same multiplicities |
| `Service.IndexHit` | src/com/bloomtech/library/services/LibraryService.java:50-55 | with unique names, what the keyed lookup returns is what the scan of the listing would find |
| `Service.LibraryService.constructor` | src/com/bloomtech/library/services/LibraryService.java:31-34 | wires the service to a library store, its keyed lookup and a checkable store, keeping the lookup sound |
| `Service.LibraryService.GetLibraries` | src/com/bloomtech/library/services/LibraryService.java:36-38 | returns the store's listing as it stands |
| `Service.LibraryService.GetLibraryByName` | src/com/bloomtech/library/services/LibraryService.java:49-61 | succeeds iff some library of the store has the name; the library returned is in the store and has that name, and with unique names it is the one the scan finds; otherwise fails with LibraryNotFound("Library with the name: n was not found") |
| `Service.LibraryService.Save` | src/com/bloomtech/library/services/LibraryService.java:64-70 | if the name is taken, fails with ResourceExists("Library with name: n already exists!") and changes nothing; otherwise the store becomes the old one plus exactly the library and the library is then found by its name; unique names stay unique; the checkable store is untouched |
| `Service.LibraryService.GetCheckableAmount` | src/com/bloomtech/library/services/LibraryService.java:71-88 | a missing library fails with LibraryNotFound before the isbn is checked; a missing isbn then fails with CheckableNotFound; otherwise returns the first entry of the library's stock for the isbn, or (the item, 0) when there is none; changes no state, so the zero default is not stored |
| `Service.LibraryService.GetLibrariesWithAvailableCheckout` | src/com/bloomtech/library/services/LibraryService.java:90-115 | fails with CheckableNotFound when the isbn is not in the checkable store; otherwise returns exactly the availability report over the store, library order then entry order |
| `Service.LibraryService.GetOverdueCheckouts` | src/com/bloomtech/library/services/LibraryService.java:117-142 | fails with LibraryNotFound when the library is missing; otherwise returns exactly the overdue report over that library's cards at `now`, card order then checkout order |

## Left out

- Spring wiring and the persistence repositories are left out. The stores are
  in-memory fields of the service, and wiring is the constructor.
- The real clock is left out because time is nondeterministic. The moment
  `now` is a parameter of `GetOverdueCheckouts`.
- GetOverdueCheckouts: the source reads the clock afresh for each checkout
  (LibraryService.java:134), so its readings can advance during one report.
  The model fixes one instant `now` for the whole report. `OverdueExact`
  therefore holds of the model only. In the program, a checkout whose due
  moment falls between the first and the last clock reading can be reported
  either way.
- The rest of the checkable service is left out: `getAll`, `getByType`, which
  relies on runtime type reflection, and `save`. Their source is not part of
  this model, and only the contract of `getByIsbn` is used here.
- The message text of the checkable service's not-found exception is unknown.
  The error carries the isbn looked up instead.
- The race between two concurrent saves of the same name is left out, because
  concurrency is out of scope. `Save` runs as one atomic step.
- The iteration order of a library's set of cards is not modelled. The cards
  are a sequence, and the overdue report is also proved independent of their
  order as a multiset.
- The descriptive fields of checkables and patrons play no part in the
  service's logic. Only identities are modelled.
- The commented-out code is not modelled: the old `getLibraryByName` and the
  per-library `getCheckableAmount` call inside the availability loop.
