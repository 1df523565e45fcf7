/**
 * Specification of the library service's lookups and reports, on values:
 * the name lookup behind getLibraryByName and save, and the two
 * aggregations, each defined as a filter over an explicit listing of every
 * (library, stock entry) or (card, checkout) pair. The service's lookup and
 * its two report methods are proved against these.
 */
module LibraryQueries {
  import opened Models
  import opened Exceptions

  // ---------------------------------------------------------------------------
  // Lookup by name

  /** Some library of the store is called `name`. */
  predicate HasName(libs: seq<Library>, name: string)
  {
    exists i :: 0 <= i < |libs| && libs[i].name == name
  }

  /** No two libraries of the store share a name. */
  predicate UniqueNames(libs: seq<Library>)
  {
    forall i, j :: 0 <= i < j < |libs| ==> libs[i].name != libs[j].name
  }

  /** The first library of the store called `name`: the stream filter-then-findFirst. */
  function FindByName(libs: seq<Library>, name: string): (r: Option<Library>)
    ensures r.Some? <==> HasName(libs, name)
    ensures r.Some? ==> r.value.name == name && r.value in libs
    ensures r.Some? ==> exists i :: 0 <= i < |libs| && libs[i] == r.value &&
                                   forall j :: 0 <= j < i ==> libs[j].name != name
  {
    if |libs| == 0 then None
    else if libs[0].name == name then Some(libs[0])
    else
      var rest := FindByName(libs[1..], name);
      assert HasName(libs, name) ==> HasName(libs[1..], name) by {
        if HasName(libs, name) {
          var i :| 0 <= i < |libs| && libs[i].name == name;
          assert libs[1..][i - 1].name == name;
        }
      }
      if rest.Some? then
        assert HasName(libs, name) by {
          var k :| 0 <= k < |libs[1..]| && libs[1..][k] == rest.value &&
                   forall j :: 0 <= j < k ==> libs[1..][j].name != name;
          assert libs[k + 1] == rest.value;
        }
        rest
      else rest
  }

  /** In a store with unique names, every library is what its own name finds. */
  lemma FindByNameUnique(libs: seq<Library>, i: nat)
    requires UniqueNames(libs) && i < |libs|
    ensures FindByName(libs, libs[i].name) == Some(libs[i])
  {
  }

  /** Adding a library under a fresh name keeps the names unique. */
  lemma AppendKeepsUniqueNames(libs: seq<Library>, lib: Library)
    requires UniqueNames(libs) && !HasName(libs, lib.name)
    ensures UniqueNames(libs + [lib])
  {
  }

  /** A library appended under a fresh name is then found by that name, and nothing else moves. */
  lemma AppendThenFind(libs: seq<Library>, lib: Library, name: string)
    requires !HasName(libs, lib.name)
    ensures FindByName(libs + [lib], lib.name) == Some(lib)
    ensures name != lib.name ==> FindByName(libs + [lib], name) == FindByName(libs, name)
  {
    var s := libs + [lib];
    assert s[|libs|] == lib;
    var r := FindByName(s, lib.name);
    assert forall j :: 0 <= j < |libs| ==> s[j].name != lib.name;
    var k :| 0 <= k < |s| && s[k] == r.value && forall j :: 0 <= j < k ==> s[j].name != lib.name;
    assert k == |libs|;
    if name != lib.name {
      AppendFind(libs, lib, name);
    }
  }

  lemma {:induction false} AppendFind(libs: seq<Library>, lib: Library, name: string)
    requires name != lib.name
    ensures FindByName(libs + [lib], name) == FindByName(libs, name)
  {
    if |libs| > 0 {
      assert (libs + [lib])[1..] == libs[1..] + [lib];
      AppendFind(libs[1..], lib, name);
    }
  }

  // ---------------------------------------------------------------------------
  // Availability report

  /** One stock entry, tagged with the name of the library that holds it. */
  datatype Holding = Holding(libraryName: string, entry: CheckableAmount)

  /** Every stock entry of one library, in entry order. */
  function Holdings(lib: Library): (r: seq<Holding>)
  {
    seq(|lib.checkables|, k requires 0 <= k < |lib.checkables| => Holding(lib.name, lib.checkables[k]))
  }

  /** Every stock entry of every library: library order, then entry order. */
  function Stock(libs: seq<Library>): (r: seq<Holding>)
    ensures |r| == TotalEntries(libs)
  {
    if |libs| == 0 then [] else Stock(libs[..|libs| - 1]) + Holdings(libs[|libs| - 1])
  }

  /** The number of stock entries over all libraries. */
  function TotalEntries(libs: seq<Library>): nat
  {
    if |libs| == 0 then 0 else TotalEntries(libs[..|libs| - 1]) + |libs[|libs| - 1].checkables|
  }

  /** The holding counts as available for `isbn`: right item, at least one copy. */
  predicate Offers(h: Holding, isbn: string)
  {
    h.entry.checkable.isbn == isbn && h.entry.amount > 0
  }

  /** One report row per holding that offers `isbn`, in the order of the holdings. */
  function Emit(hs: seq<Holding>, isbn: string): (r: seq<LibraryAvailableCheckouts>)
    ensures |r| <= |hs|
    ensures forall k :: 0 <= k < |r| ==> r[k].amount > 0
  {
    if |hs| == 0 then []
    else
      var h := hs[|hs| - 1];
      Emit(hs[..|hs| - 1], isbn)
        + (if Offers(h, isbn) then [LibraryAvailableCheckouts(h.entry.amount, h.libraryName)] else [])
  }

  /** The availability report for `isbn` over a store of libraries. */
  function Available(libs: seq<Library>, isbn: string): (r: seq<LibraryAvailableCheckouts>)
    ensures forall k :: 0 <= k < |r| ==> r[k].amount > 0
  {
    Emit(Stock(libs), isbn)
  }

  lemma {:induction false} EmitAppend(a: seq<Holding>, b: seq<Holding>, isbn: string)
    ensures Emit(a + b, isbn) == Emit(a, isbn) + Emit(b, isbn)
  {
    if |b| > 0 {
      assert (a + b)[..|a + b| - 1] == a + b[..|b| - 1];
      EmitAppend(a, b[..|b| - 1], isbn);
    } else {
      assert a + b == a;
    }
  }

  lemma {:induction false} StockAppend(a: seq<Library>, b: seq<Library>)
    ensures Stock(a + b) == Stock(a) + Stock(b)
  {
    if |b| > 0 {
      assert (a + b)[..|a + b| - 1] == a + b[..|b| - 1];
      StockAppend(a, b[..|b| - 1]);
    } else {
      assert a + b == a;
    }
  }

  /** One more stock entry adds at most its own row at the end of the report. */
  lemma EmitPrefix(hs: seq<Holding>, j: nat, isbn: string)
    requires j < |hs|
    ensures Emit(hs[..j + 1], isbn) ==
            Emit(hs[..j], isbn) +
            (if Offers(hs[j], isbn) then [LibraryAvailableCheckouts(hs[j].entry.amount, hs[j].libraryName)] else [])
  {
    assert hs[..j + 1][..j] == hs[..j];
  }

  /** The rows of the first j + 1 stock entries of a library, in terms of the entry itself. */
  lemma HoldingsPrefix(lib: Library, j: nat, isbn: string)
    requires j < |lib.checkables|
    ensures Emit(Holdings(lib)[..j + 1], isbn) ==
            Emit(Holdings(lib)[..j], isbn) +
            (if lib.checkables[j].checkable.isbn == isbn && lib.checkables[j].amount > 0
             then [LibraryAvailableCheckouts(lib.checkables[j].amount, lib.name)] else [])
    ensures j + 1 == |lib.checkables| ==> Holdings(lib)[..j + 1] == Holdings(lib)
  {
    EmitPrefix(Holdings(lib), j, isbn);
  }

  /** One more library adds the rows of its own stock at the end of the report. */
  lemma AvailablePrefix(libs: seq<Library>, i: nat, isbn: string)
    requires i < |libs|
    ensures Available(libs[..i + 1], isbn) == Available(libs[..i], isbn) + Emit(Holdings(libs[i]), isbn)
  {
    assert libs[..i + 1][..i] == libs[..i];
    EmitAppend(Stock(libs[..i]), Holdings(libs[i]), isbn);
  }

  /** The report over a store of one library is the report over that library's stock. */
  lemma AvailableSingle(lib: Library, isbn: string)
    ensures Available([lib], isbn) == Emit(Holdings(lib), isbn)
  {
    AvailablePrefix([lib], 0, isbn);
    assert [lib][..1] == [lib] && [lib][..0] == [];
  }

  /** The report over two stores is the report over the first followed by that over the second. */
  lemma AvailableAppend(a: seq<Library>, b: seq<Library>, isbn: string)
    ensures Available(a + b, isbn) == Available(a, isbn) + Available(b, isbn)
  {
    StockAppend(a, b);
    EmitAppend(Stock(a), Stock(b), isbn);
  }

  lemma {:induction false} EmitMember(hs: seq<Holding>, isbn: string, x: LibraryAvailableCheckouts)
    ensures x in Emit(hs, isbn) <==>
            exists k :: 0 <= k < |hs| && Offers(hs[k], isbn) &&
                        x == LibraryAvailableCheckouts(hs[k].entry.amount, hs[k].libraryName)
  {
    if |hs| > 0 {
      var init := hs[..|hs| - 1];
      EmitMember(init, isbn, x);
      forall k | 0 <= k < |init| ensures init[k] == hs[k] { }
    }
  }

  lemma {:induction false} StockMember(libs: seq<Library>, h: Holding)
    ensures h in Stock(libs) <==>
            exists i, j :: 0 <= i < |libs| && 0 <= j < |libs[i].checkables| &&
                           h == Holding(libs[i].name, libs[i].checkables[j])
  {
    if |libs| > 0 {
      var init := libs[..|libs| - 1];
      StockMember(init, h);
      forall i | 0 <= i < |init| ensures init[i] == libs[i] { }
      var last := libs[|libs| - 1];
      if h in Holdings(last) {
        var j :| 0 <= j < |Holdings(last)| && Holdings(last)[j] == h;
        assert h == Holding(libs[|libs| - 1].name, libs[|libs| - 1].checkables[j]);
      }
      if exists j :: 0 <= j < |last.checkables| && h == Holding(last.name, last.checkables[j]) {
        var j :| 0 <= j < |last.checkables| && h == Holding(last.name, last.checkables[j]);
        assert Holdings(last)[j] == h;
      }
    }
  }

  /**
   * A row is in the availability report exactly when some library of the store
   * has a stock entry for `isbn` with a positive amount, and the row is that
   * entry's amount with that library's name.
   */
  lemma AvailableExact(libs: seq<Library>, isbn: string, x: LibraryAvailableCheckouts)
    ensures x in Available(libs, isbn) <==>
            exists i, j :: 0 <= i < |libs| && 0 <= j < |libs[i].checkables| &&
                           libs[i].checkables[j].checkable.isbn == isbn &&
                           libs[i].checkables[j].amount > 0 &&
                           x == LibraryAvailableCheckouts(libs[i].checkables[j].amount, libs[i].name)
  {
    var hs := Stock(libs);
    EmitMember(hs, isbn, x);
    if x in Available(libs, isbn) {
      var k :| 0 <= k < |hs| && Offers(hs[k], isbn) &&
               x == LibraryAvailableCheckouts(hs[k].entry.amount, hs[k].libraryName);
      StockMember(libs, hs[k]);
    }
    if exists i, j :: 0 <= i < |libs| && 0 <= j < |libs[i].checkables| &&
                      libs[i].checkables[j].checkable.isbn == isbn &&
                      libs[i].checkables[j].amount > 0 &&
                      x == LibraryAvailableCheckouts(libs[i].checkables[j].amount, libs[i].name) {
      var i, j :| 0 <= i < |libs| && 0 <= j < |libs[i].checkables| &&
                  libs[i].checkables[j].checkable.isbn == isbn &&
                  libs[i].checkables[j].amount > 0 &&
                  x == LibraryAvailableCheckouts(libs[i].checkables[j].amount, libs[i].name);
      var h := Holding(libs[i].name, libs[i].checkables[j]);
      StockMember(libs, h);
      var k :| 0 <= k < |hs| && hs[k] == h;
      assert Offers(hs[k], isbn);
    }
  }

  /** The report is empty, not a failure, exactly when no library holds a positive amount of `isbn`. */
  lemma AvailableEmpty(libs: seq<Library>, isbn: string)
    ensures Available(libs, isbn) == [] <==>
            forall i, j :: 0 <= i < |libs| && 0 <= j < |libs[i].checkables| &&
                           libs[i].checkables[j].checkable.isbn == isbn ==>
                           libs[i].checkables[j].amount <= 0
  {
    var r := Available(libs, isbn);
    if r != [] {
      AvailableExact(libs, isbn, r[0]);
    }
    forall i, j | 0 <= i < |libs| && 0 <= j < |libs[i].checkables| &&
                  libs[i].checkables[j].checkable.isbn == isbn &&
                  libs[i].checkables[j].amount > 0
      ensures r != []
    {
      AvailableExact(libs, isbn, LibraryAvailableCheckouts(libs[i].checkables[j].amount, libs[i].name));
    }
  }

  // ---------------------------------------------------------------------------
  // Overdue report

  /** One checkout, paired with the patron of the card it was made on. */
  datatype Loan = Loan(patron: Patron, checkout: Checkout)

  /** Every checkout of one card, in checkout order. */
  function CardLoans(card: LibraryCard): (r: seq<Loan>)
  {
    seq(|card.checkouts|, k requires 0 <= k < |card.checkouts| => Loan(card.patron, card.checkouts[k]))
  }

  /** Every checkout on every card: card order, then checkout order. */
  function Loans(cards: seq<LibraryCard>): (r: seq<Loan>)
    ensures |r| == TotalCheckouts(cards)
  {
    if |cards| == 0 then [] else Loans(cards[..|cards| - 1]) + CardLoans(cards[|cards| - 1])
  }

  /** The number of checkouts over all cards. */
  function TotalCheckouts(cards: seq<LibraryCard>): nat
  {
    if |cards| == 0 then 0 else TotalCheckouts(cards[..|cards| - 1]) + |cards[|cards| - 1].checkouts|
  }

  /** One report row per loan due strictly before `now`, in the order of the loans. */
  function Overdue(ls: seq<Loan>, now: int): (r: seq<OverdueCheckout>)
    ensures |r| <= |ls|
    ensures forall k :: 0 <= k < |r| ==> r[k].checkout.due < now
  {
    if |ls| == 0 then []
    else
      var l := ls[|ls| - 1];
      Overdue(ls[..|ls| - 1], now)
        + (if l.checkout.due < now then [OverdueCheckout(l.patron, l.checkout)] else [])
  }

  /** The overdue report over a library's cards at the moment `now`. */
  function OverdueOf(cards: seq<LibraryCard>, now: int): (r: seq<OverdueCheckout>)
    ensures forall k :: 0 <= k < |r| ==> r[k].checkout.due < now
  {
    Overdue(Loans(cards), now)
  }

  lemma {:induction false} OverdueAppend(a: seq<Loan>, b: seq<Loan>, now: int)
    ensures Overdue(a + b, now) == Overdue(a, now) + Overdue(b, now)
  {
    if |b| > 0 {
      assert (a + b)[..|a + b| - 1] == a + b[..|b| - 1];
      OverdueAppend(a, b[..|b| - 1], now);
    } else {
      assert a + b == a;
    }
  }

  lemma {:induction false} LoansAppend(a: seq<LibraryCard>, b: seq<LibraryCard>)
    ensures Loans(a + b) == Loans(a) + Loans(b)
  {
    if |b| > 0 {
      assert (a + b)[..|a + b| - 1] == a + b[..|b| - 1];
      LoansAppend(a, b[..|b| - 1]);
    } else {
      assert a + b == a;
    }
  }

  /** One more loan adds at most its own row at the end of the report. */
  lemma OverduePrefix(ls: seq<Loan>, j: nat, now: int)
    requires j < |ls|
    ensures Overdue(ls[..j + 1], now) ==
            Overdue(ls[..j], now) +
            (if ls[j].checkout.due < now then [OverdueCheckout(ls[j].patron, ls[j].checkout)] else [])
  {
    assert ls[..j + 1][..j] == ls[..j];
  }

  /** The rows of the first j + 1 checkouts of a card, in terms of the checkout itself. */
  lemma CardLoansPrefix(card: LibraryCard, j: nat, now: int)
    requires j < |card.checkouts|
    ensures Overdue(CardLoans(card)[..j + 1], now) ==
            Overdue(CardLoans(card)[..j], now) +
            (if card.checkouts[j].due < now then [OverdueCheckout(card.patron, card.checkouts[j])] else [])
    ensures j + 1 == |card.checkouts| ==> CardLoans(card)[..j + 1] == CardLoans(card)
  {
    OverduePrefix(CardLoans(card), j, now);
  }

  /** One more card adds the rows of its own checkouts at the end of the report. */
  lemma OverdueOfPrefix(cards: seq<LibraryCard>, i: nat, now: int)
    requires i < |cards|
    ensures OverdueOf(cards[..i + 1], now) == OverdueOf(cards[..i], now) + Overdue(CardLoans(cards[i]), now)
  {
    assert cards[..i + 1][..i] == cards[..i];
    OverdueAppend(Loans(cards[..i]), CardLoans(cards[i]), now);
  }

  lemma OverdueOfAppend(a: seq<LibraryCard>, b: seq<LibraryCard>, now: int)
    ensures OverdueOf(a + b, now) == OverdueOf(a, now) + OverdueOf(b, now)
  {
    LoansAppend(a, b);
    OverdueAppend(Loans(a), Loans(b), now);
  }

  /** The overdue report never has more rows than there are checkouts. */
  lemma OverdueBound(cards: seq<LibraryCard>, now: int)
    ensures |OverdueOf(cards, now)| <= TotalCheckouts(cards)
  {
  }

  lemma {:induction false} OverdueMember(ls: seq<Loan>, now: int, x: OverdueCheckout)
    ensures x in Overdue(ls, now) <==>
            exists k :: 0 <= k < |ls| && ls[k].checkout.due < now &&
                        x == OverdueCheckout(ls[k].patron, ls[k].checkout)
  {
    if |ls| > 0 {
      var init := ls[..|ls| - 1];
      OverdueMember(init, now, x);
      forall k | 0 <= k < |init| ensures init[k] == ls[k] { }
    }
  }

  lemma {:induction false} LoansMember(cards: seq<LibraryCard>, l: Loan)
    ensures l in Loans(cards) <==>
            exists i, k :: 0 <= i < |cards| && 0 <= k < |cards[i].checkouts| &&
                           l == Loan(cards[i].patron, cards[i].checkouts[k])
  {
    if |cards| > 0 {
      var init := cards[..|cards| - 1];
      LoansMember(init, l);
      forall i | 0 <= i < |init| ensures init[i] == cards[i] { }
      var last := cards[|cards| - 1];
      if l in CardLoans(last) {
        var k :| 0 <= k < |CardLoans(last)| && CardLoans(last)[k] == l;
        assert l == Loan(cards[|cards| - 1].patron, cards[|cards| - 1].checkouts[k]);
      }
      if exists k :: 0 <= k < |last.checkouts| && l == Loan(last.patron, last.checkouts[k]) {
        var k :| 0 <= k < |last.checkouts| && l == Loan(last.patron, last.checkouts[k]);
        assert CardLoans(last)[k] == l;
      }
    }
  }

  /**
   * A row is in the overdue report exactly when some card has a checkout due
   * strictly before `now`, and the row pairs that card's patron with it; so no
   * checkout due at or after `now` is reported.
   */
  lemma OverdueExact(cards: seq<LibraryCard>, now: int, x: OverdueCheckout)
    ensures x in OverdueOf(cards, now) <==>
            exists i, k :: 0 <= i < |cards| && 0 <= k < |cards[i].checkouts| &&
                           cards[i].checkouts[k].due < now &&
                           x == OverdueCheckout(cards[i].patron, cards[i].checkouts[k])
  {
    var ls := Loans(cards);
    OverdueMember(ls, now, x);
    if x in OverdueOf(cards, now) {
      var k :| 0 <= k < |ls| && ls[k].checkout.due < now &&
               x == OverdueCheckout(ls[k].patron, ls[k].checkout);
      LoansMember(cards, ls[k]);
    }
    if exists i, k :: 0 <= i < |cards| && 0 <= k < |cards[i].checkouts| &&
                      cards[i].checkouts[k].due < now &&
                      x == OverdueCheckout(cards[i].patron, cards[i].checkouts[k]) {
      var i, k :| 0 <= i < |cards| && 0 <= k < |cards[i].checkouts| &&
                  cards[i].checkouts[k].due < now &&
                  x == OverdueCheckout(cards[i].patron, cards[i].checkouts[k]);
      var l := Loan(cards[i].patron, cards[i].checkouts[k]);
      LoansMember(cards, l);
      var m :| 0 <= m < |ls| && ls[m] == l;
    }
  }

  /** Taking one card out of a run of cards takes exactly its rows out of the report. */
  lemma OverdueOfSplit(whole: seq<LibraryCard>, before: seq<LibraryCard>, c: LibraryCard, after: seq<LibraryCard>, now: int)
    requires whole == before + [c] + after
    ensures multiset(OverdueOf(whole, now)) ==
            multiset(OverdueOf([c], now)) + multiset(OverdueOf(before + after, now))
  {
    OverdueOfAppend(before + [c], after, now);
    OverdueOfAppend(before, [c], now);
    OverdueOfAppend(before, after, now);
  }

  /** A sequence around its k-th element, and what is left of its multiset without it. */
  lemma RemoveAt(s: seq<LibraryCard>, k: nat)
    requires k < |s|
    ensures s == s[..k] + [s[k]] + s[k + 1..]
    ensures multiset(s[..k] + s[k + 1..]) == multiset(s) - multiset{s[k]}
  {
  }

  /** Removing one occurrence of the same card from two equal multisets of cards. */
  lemma RemoveOccurrence(c1: seq<LibraryCard>, c2: seq<LibraryCard>, k: nat)
    requires |c1| > 0 && k < |c2| && c2[k] == c1[0]
    requires multiset(c1) == multiset(c2)
    ensures multiset(c1[1..]) == multiset(c2[..k] + c2[k + 1..])
    ensures c1 == [] + [c1[0]] + c1[1..] && [] + c1[1..] == c1[1..]
    ensures c2 == c2[..k] + [c2[k]] + c2[k + 1..]
  {
    RemoveAt(c1, 0);
    assert c1[..0] == [];
    RemoveAt(c2, k);
  }

  /**
   * The cards of a library form a set, iterated in no fixed order: whatever the
   * order, the report holds the same rows with the same multiplicities.
   */
  lemma {:induction false} OverdueIgnoresCardOrder(c1: seq<LibraryCard>, c2: seq<LibraryCard>, now: int)
    requires multiset(c1) == multiset(c2)
    ensures multiset(OverdueOf(c1, now)) == multiset(OverdueOf(c2, now))
    decreases |c1|
  {
    if |c1| == 0 {
      assert |c2| == |multiset(c2)| == 0;
    } else {
      assert c1[0] in multiset(c2);
      var k :| 0 <= k < |c2| && c2[k] == c1[0];
      RemoveOccurrence(c1, c2, k);
      OverdueIgnoresCardOrder(c1[1..], c2[..k] + c2[k + 1..], now);
      OverdueOfSplit(c1, [], c1[0], c1[1..], now);
      OverdueOfSplit(c2, c2[..k], c1[0], c2[k + 1..], now);
    }
  }
}
