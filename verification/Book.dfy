/** Level 3 books: applying venue frames, what readers may see, and when a book is invalid. */
module BookModel {
  import opened Text

  /** One order of a venue entry; `decodes` says it fits the pair's precision. */
  datatype Order = Order(id: string, ask: bool, decodes: bool, body: int)

  /** One symbol's part of a frame. Checksum 0 means the venue sent none. */
  datatype Entry = Entry(symbol: string, checksum: nat, orders: seq<Order>)

  datatype Kind = Snapshot | Delta

  /** The order book library, as the functions the repository calls. */
  datatype Sdk<!C> = Sdk(
    empty: C,
    priced: (C, Order) -> bool,      // the order has a price, its own or that of the level holding it
    relocate: (C, Order) -> C,       // drop the order from any other level
    absent: (C, Order) -> bool,      // it removes quantity from a level the book does not hold
    update: (C, Order) -> C,
    enforceDepth: C -> C,
    checksum: C -> nat)

  datatype Applied<C> =
    | Done(book: C)
    | AbsentLevel(book: C)
    | Fault(book: C)

  /** Applies the orders of an entry one after another. */
  function ApplyOrders<C>(sdk: Sdk<C>, book: C, orders: seq<Order>): Applied<C>
    decreases |orders|
  {
    if orders == [] then Done(book)
    else
      var order := orders[0];
      if !order.decodes then Fault(book)
      else if !sdk.priced(book, order) then ApplyOrders(sdk, book, orders[1..])
      else
        var moved := sdk.relocate(book, order);
        if sdk.absent(moved, order) then AbsentLevel(moved)
        else ApplyOrders(sdk, sdk.update(moved, order), orders[1..])
  }

  ghost predicate AllDecode(orders: seq<Order>) {
    forall i :: 0 <= i < |orders| ==> orders[i].decodes
  }

  /** Orders fault exactly when one of them does not decode and no absent level is met before it. */
  lemma {:induction false} FaultIff<C>(sdk: Sdk<C>, book: C, orders: seq<Order>)
    ensures !ApplyOrders(sdk, book, orders).AbsentLevel? ==>
      (ApplyOrders(sdk, book, orders).Done? <==> AllDecode(orders))
  {
    if orders != [] {
      var order := orders[0];
      if order.decodes {
        var moved := sdk.relocate(book, order);
        FaultIff(sdk, if sdk.priced(book, order) then sdk.update(moved, order) else book, orders[1..]);
        assert orders == [order] + orders[1..];
      }
    }
  }

  /** Applying one batch of orders and then another is applying them together, unless the first stops. */
  lemma {:induction false} OrdersConcat<C>(sdk: Sdk<C>, book: C, a: seq<Order>, b: seq<Order>)
    ensures var first := ApplyOrders(sdk, book, a);
      ApplyOrders(sdk, book, a + b) == if first.Done? then ApplyOrders(sdk, first.book, b) else first
    decreases |a|
  {
    if a == [] {
      assert a + b == b;
    } else {
      assert (a + b)[1..] == a[1..] + b;
      var moved := sdk.relocate(book, a[0]);
      OrdersConcat(sdk, if sdk.priced(book, a[0]) then sdk.update(moved, a[0]) else book, a[1..], b);
    }
  }

  /** Order `i` is reached, decodes, has a price, and takes from a level the book does not hold. */
  ghost predicate MeetsAbsent<C>(sdk: Sdk<C>, book: C, orders: seq<Order>, i: int) {
    0 <= i < |orders| && orders[i].decodes && ApplyOrders(sdk, book, orders[..i]).Done? &&
    var reached := ApplyOrders(sdk, book, orders[..i]).book;
    sdk.priced(reached, orders[i]) && sdk.absent(sdk.relocate(reached, orders[i]), orders[i])
  }

  /** Orders stop at an absent level exactly when one of them meets it; an order without a price is passed over. */
  lemma {:induction false} AbsentIff<C>(sdk: Sdk<C>, book: C, orders: seq<Order>)
    ensures ApplyOrders(sdk, book, orders).AbsentLevel? <==> exists i :: MeetsAbsent(sdk, book, orders, i)
    decreases |orders|
  {
    hide ApplyOrders;
    if orders == [] {
      NoOrders(sdk, book);
    } else {
      var n := |orders| - 1;
      var front, last := orders[..n], orders[n];
      AbsentIff(sdk, book, front);
      assert orders == front + [last];
      OrdersConcat(sdk, book, front, [last]);
      OneOrder(sdk, ApplyOrders(sdk, book, front).book, last);
      forall i | 0 <= i < n ensures MeetsAbsent(sdk, book, orders, i) <==> MeetsAbsent(sdk, book, front, i) {
        assert orders[..i] == front[..i];
      }
      assert orders[..n] == front;
      assert ApplyOrders(sdk, book, front).Done? && ApplyOrders(sdk, book, orders).AbsentLevel? ==>
        MeetsAbsent(sdk, book, orders, n);
      if exists i :: MeetsAbsent(sdk, book, front, i) {
        var i :| MeetsAbsent(sdk, book, front, i);
        assert MeetsAbsent(sdk, book, orders, i);
      }
      if i :| MeetsAbsent(sdk, book, orders, i) && i < n {
        assert MeetsAbsent(sdk, book, front, i);
      }
    }
  }

  lemma NoOrders<C>(sdk: Sdk<C>, book: C)
    ensures ApplyOrders(sdk, book, []) == Done(book)
  {
  }

  lemma OneOrder<C>(sdk: Sdk<C>, book: C, o: Order)
    ensures ApplyOrders(sdk, book, [o]).AbsentLevel? <==>
      o.decodes && sdk.priced(book, o) && sdk.absent(sdk.relocate(book, o), o)
  {
    NoOrders(sdk, book);
    assert [o][1..] == [];
  }

  // ------------------------------------------------------------------- books

  /** A resident book and the checksum its last entry was compared with; None when no comparison was made. */
  datatype Managed<C> = Managed(book: C, checked: Option<nat>)

  /** Every symbol's book, the marks on it, and the recovery requests under way. */
  datatype Books<C> = Books(
    managed: map<string, Managed<C>>, stale: set<string>, invalid: map<string, nat>,
    hooked: bool, inflight: set<string>, workers: multiset<string>)

  predicate Verified<C>(sdk: Sdk<C>, m: Managed<C>) {
    m.checked == Some(sdk.checksum(m.book))
  }

  /** Each symbol in flight has exactly one worker, and no other symbol has any. */
  ghost predicate OneWorkerEach(inflight: set<string>, workers: multiset<string>) {
    forall s :: workers[s] == if s in inflight then 1 else 0
  }

  /** Asks for a fresh snapshot unless such a request is already in flight. */
  function Resubscribe<C>(b: Books<C>, symbol: string): (r: Books<C>)
    ensures r.managed == b.managed && r.stale == b.stale && r.invalid == b.invalid && r.hooked == b.hooked
    ensures OneWorkerEach(b.inflight, b.workers) ==> OneWorkerEach(r.inflight, r.workers)
  {
    if symbol == "" || symbol in b.inflight || !b.hooked then b
    else b.(inflight := b.inflight + {symbol}, workers := b.workers + multiset{symbol})
  }

  /** A recovery request has finished. */
  function Finished<C>(b: Books<C>, symbol: string): Books<C> {
    b.(inflight := b.inflight - {symbol}, workers := b.workers - multiset{symbol})
  }

  function Invalidate<C>(b: Books<C>, symbol: string): Books<C> {
    Resubscribe(b.(invalid := b.invalid[symbol := 0]), symbol)
  }

  datatype Outcome = Accepted | Skipped | Failed

  /** Applies one entry of a frame. */
  function ApplyEntry<C>(sdk: Sdk<C>, b: Books<C>, kind: Kind, e: Entry): (Books<C>, Outcome) {
    if e.symbol in b.invalid && kind != Snapshot then
      var dropped := b.invalid[e.symbol] + 1;
      var counted := b.(invalid := b.invalid[e.symbol := dropped]);
      (if dropped % 100 == 0 then Resubscribe(counted, e.symbol) else counted, Skipped)
    else
      var cleared :=
        if kind == Snapshot then b.(stale := b.stale - {e.symbol}, invalid := b.invalid - {e.symbol}) else b;
      var start := if kind == Snapshot || e.symbol !in b.managed then sdk.empty else b.managed[e.symbol].book;
      match ApplyOrders(sdk, start, e.orders)
      case Fault(book) => (Hold(cleared, e.symbol, Managed(book, None)), Failed)
      case AbsentLevel(book) => (Invalidate(Hold(cleared, e.symbol, Managed(book, None)), e.symbol), Failed)
      case Done(book) =>
        var cut := sdk.enforceDepth(book);
        var local := sdk.checksum(cut);
        var server := if e.checksum == 0 then local else e.checksum;
        var held := Hold(cleared, e.symbol, Managed(cut, Some(server)));
        if local == server then (held, Accepted) else (Invalidate(held, e.symbol), Failed)
  }

  function Hold<C>(b: Books<C>, symbol: string, m: Managed<C>): Books<C> {
    b.(managed := b.managed[symbol := m])
  }

  /** What a frame leaves: the books, the symbols accepted, and whether every entry was reached. */
  datatype FrameResult<C> = FrameResult(books: Books<C>, accepted: seq<string>, ok: bool)

  /** Applies the first `n` entries, stopping at the first that fails. */
  function ApplyFrame<C>(sdk: Sdk<C>, b: Books<C>, kind: Kind, entries: seq<Entry>): FrameResult<C> {
    if entries == [] then FrameResult(b, [], true)
    else
      var n := |entries| - 1;
      var before := ApplyFrame(sdk, b, kind, entries[..n]);
      if !before.ok then before
      else
        var (books, outcome) := ApplyEntry(sdk, before.books, kind, entries[n]);
        match outcome
        case Accepted => FrameResult(books, before.accepted + [entries[n].symbol], true)
        case Skipped => FrameResult(books, before.accepted, true)
        case Failed => FrameResult(books, before.accepted, false)
  }

  class Level3<C> {
    const sdk: Sdk<C>
    var books: Books<C>

    constructor (sdk: Sdk<C>, hooked: bool)
      ensures this.sdk == sdk && books == Books(map[], {}, map[], hooked, {}, multiset{})
    {
      this.sdk := sdk;
      books := Books(map[], {}, map[], hooked, {}, multiset{});
    }

    /** Applies one whole frame while the lock is held. */
    method Apply(kind: Kind, entries: seq<Entry>) returns (accepted: seq<string>, ok: bool)
      modifies this
      ensures FrameResult(books, accepted, ok) == ApplyFrame(sdk, old(books), kind, entries)
    {
      hide ApplyEntry;
      accepted, ok := [], true;
      var i := 0;
      while i < |entries|
        invariant 0 <= i <= |entries| && ok
        invariant FrameResult(books, accepted, ok) == ApplyFrame(sdk, old(books), kind, entries[..i])
      {
        assert entries[..i + 1][..i] == entries[..i];
        var (next, outcome) := ApplyEntry(sdk, books, kind, entries[i]);
        books := next;
        i := i + 1;
        match outcome
        case Skipped =>
          continue;
        case Failed =>
          ok := false;
          FailureStops(sdk, old(books), kind, entries, i);
          return;
        case Accepted =>
          accepted := accepted + [entries[i - 1].symbol];
      }
      assert entries[..|entries|] == entries;
    }
  }

  lemma {:induction false} FailureStops<C>(sdk: Sdk<C>, b: Books<C>, kind: Kind, entries: seq<Entry>, i: int)
    requires 0 <= i <= |entries| && !ApplyFrame(sdk, b, kind, entries[..i]).ok
    ensures ApplyFrame(sdk, b, kind, entries) == ApplyFrame(sdk, b, kind, entries[..i])
  {
    if i < |entries| {
      assert entries[..|entries| - 1][..i] == entries[..i];
      FailureStops(sdk, b, kind, entries[..|entries| - 1], i);
    } else {
      assert entries[..i] == entries;
    }
  }

  // --------------------------------------------------------------- invariant

  /**
    A book that is not invalid is verified, unless its last entry faulted; requests in flight are exactly
    the workers running, one for each symbol.
   */
  ghost predicate BooksOk<C>(sdk: Sdk<C>, b: Books<C>, faulted: set<string>) {
    (forall s :: s in b.managed && s !in b.invalid && s !in faulted ==> Verified(sdk, b.managed[s])) &&
    (forall s :: s in b.invalid ==> s in b.managed) && OneWorkerEach(b.inflight, b.workers)
  }

  /** The symbols whose last applied entry faulted, after one more entry. */
  ghost function FaultedAfter<C>(sdk: Sdk<C>, b: Books<C>, kind: Kind, e: Entry, faulted: set<string>): set<string> {
    if e.symbol in b.invalid && kind != Snapshot then faulted
    else if AllDecode(e.orders) then faulted - {e.symbol}
    else faulted + {e.symbol}
  }

  lemma EntryKeepsBooksOk<C>(sdk: Sdk<C>, b: Books<C>, kind: Kind, e: Entry, faulted: set<string>)
    requires BooksOk(sdk, b, faulted)
    ensures BooksOk(sdk, ApplyEntry(sdk, b, kind, e).0, FaultedAfter(sdk, b, kind, e, faulted))
  {
    hide ApplyOrders, AllDecode, OneWorkerEach, Resubscribe;
    if !(e.symbol in b.invalid && kind != Snapshot) {
      var start := if kind == Snapshot || e.symbol !in b.managed then sdk.empty else b.managed[e.symbol].book;
      FaultIff(sdk, start, e.orders);
    }
  }

  /**
    An entry that is applied and leaves its book valid leaves it verified exactly when all its orders
    decode: a decoding failure leaves a half-applied book that is not marked invalid.
   */
  lemma AppliedIsVerifiedIff<C>(sdk: Sdk<C>, b: Books<C>, kind: Kind, e: Entry)
    requires !(e.symbol in b.invalid && kind != Snapshot)
    ensures var b' := ApplyEntry(sdk, b, kind, e).0;
      e.symbol in b'.managed &&
      (e.symbol !in b'.invalid ==> (Verified(sdk, b'.managed[e.symbol]) <==> AllDecode(e.orders)))
  {
    FaultIff(sdk, StartOf(sdk, b, kind, e), e.orders);
  }

  /** The contents an entry is applied to: a snapshot and an unknown symbol start from an empty book. */
  function StartOf<C>(sdk: Sdk<C>, b: Books<C>, kind: Kind, e: Entry): C {
    if kind == Snapshot || e.symbol !in b.managed then sdk.empty else b.managed[e.symbol].book
  }

  /** The entry meets an absent level, or is applied in full and differs from the checksum the venue sent. */
  predicate Diverges<C>(sdk: Sdk<C>, b: Books<C>, kind: Kind, e: Entry) {
    var applied := ApplyOrders(sdk, StartOf(sdk, b, kind, e), e.orders);
    applied.AbsentLevel? ||
    (applied.Done? && e.checksum != 0 && sdk.checksum(sdk.enforceDepth(applied.book)) != e.checksum)
  }

  /**
    After an entry its symbol is invalid, so hidden from readers, exactly when it was skipped for being
    so already or it diverges: that is, when it fails for any reason but decoding. The book of an applied
    entry is kept as its orders left it, never wiped, and matches the venue's checksum if it is accepted.
   */
  lemma FailedBookIsHiddenIff<C>(sdk: Sdk<C>, b: Books<C>, kind: Kind, e: Entry)
    ensures var (b', outcome) := ApplyEntry(sdk, b, kind, e);
      var applied := ApplyOrders(sdk, StartOf(sdk, b, kind, e), e.orders);
      (outcome == Skipped <==> e.symbol in b.invalid && kind != Snapshot) &&
      (e.symbol in b'.invalid <==> outcome == Skipped || Diverges(sdk, b, kind, e)) &&
      (e.symbol in b'.invalid <==> outcome == Skipped || (outcome == Failed && !applied.Fault?)) &&
      (outcome != Skipped ==>
        e.symbol in b'.managed &&
        b'.managed[e.symbol].book == (if applied.Done? then sdk.enforceDepth(applied.book) else applied.book)) &&
      (outcome == Accepted && e.checksum != 0 ==> sdk.checksum(b'.managed[e.symbol].book) == e.checksum) &&
      (outcome != Skipped && e.symbol in b'.invalid ==> b'.invalid[e.symbol] == 0)
  {
    hide ApplyOrders;
  }

  /**
    A book that diverges is asked for anew when there is a hook, and so is an invalid one on every
    hundredth delta dropped; nothing else asks.
   */
  lemma RecoveryIsRequestedIff<C>(sdk: Sdk<C>, b: Books<C>, kind: Kind, e: Entry)
    ensures var (b', outcome) := ApplyEntry(sdk, b, kind, e);
      var asks := if outcome == Skipped then b'.invalid[e.symbol] % 100 == 0 else Diverges(sdk, b, kind, e);
      b'.inflight == (if asks && b.hooked && e.symbol != "" then b.inflight + {e.symbol} else b.inflight) &&
      (outcome == Skipped ==> b'.invalid[e.symbol] == b.invalid[e.symbol] + 1)
  {
    hide ApplyOrders;
  }

  /** An accepted snapshot makes its book readable: it is neither stale nor invalid any more. */
  lemma AcceptedSnapshotIsShown<C>(sdk: Sdk<C>, b: Books<C>, e: Entry, pending: set<string>)
    requires ApplyEntry(sdk, b, Snapshot, e).1 == Accepted
    ensures var b' := ApplyEntry(sdk, b, Snapshot, e).0;
      (Shown(b', pending, e.symbol) <==> e.symbol !in pending) &&
      (e.symbol != "" && e.symbol !in pending ==>
        BlockReason(b', pending, e.symbol) == Clear && !StaleSymbol(b', pending, e.symbol))
  {
    hide ApplyOrders;
  }

  /** An entry that is not a snapshot of `s` leaves a stale `s` stale. */
  lemma EntryKeepsStale<C>(sdk: Sdk<C>, b: Books<C>, kind: Kind, e: Entry, s: string)
    requires s in b.stale && (e.symbol == s ==> kind != Snapshot)
    ensures s in ApplyEntry(sdk, b, kind, e).0.stale
  {
    hide ApplyOrders;
  }

  lemma {:induction false} FrameKeepsStale<C>(sdk: Sdk<C>, b: Books<C>, kind: Kind, entries: seq<Entry>, s: string)
    requires s in b.stale && !(kind == Snapshot && Names(entries, s))
    ensures s in ApplyFrame(sdk, b, kind, entries).books.stale
  {
    hide ApplyEntry;
    if entries != [] {
      var n := |entries| - 1;
      assert Names(entries[..n], s) ==> Names(entries, s);
      assert entries[n].symbol == s ==> Names(entries, s);
      FrameKeepsStale(sdk, b, kind, entries[..n], s);
      var before := ApplyFrame(sdk, b, kind, entries[..n]);
      if before.ok {
        EntryKeepsStale(sdk, before.books, kind, entries[n], s);
      }
    }
  }

  // ------------------------------------------------------- resting orders

  /**
    Where a library rests orders: `at` gives the prices at which an order rests, and `price` the price an
    order names. Dropping an order from the other levels leaves it at most at its own; updating it rests it
    at most there; neither moves another order.
   */
  ghost predicate RestsBy<C(!new)>(sdk: Sdk<C>, at: (C, string) -> set<int>, price: (C, Order) -> int) {
    (forall c: C, o: Order :: at(sdk.relocate(c, o), o.id) <= {price(c, o)}) &&
    (forall c: C, o: Order :: price(sdk.relocate(c, o), o) == price(c, o)) &&
    (forall c: C, o: Order :: at(sdk.update(c, o), o.id) <= at(c, o.id) + {price(c, o)}) &&
    (forall c: C, o: Order, id: string :: id != o.id ==> at(sdk.relocate(c, o), id) == at(c, id)) &&
    (forall c: C, o: Order, id: string :: id != o.id ==> at(sdk.update(c, o), id) == at(c, id))
  }

  /** No order rests at two prices. */
  ghost predicate RestOnce<C>(at: (C, string) -> set<int>, book: C) {
    forall id: string :: |at(book, id)| <= 1
  }

  /** Applying orders never leaves one resting at two prices: it is dropped from its old level first. */
  lemma {:induction false} OrdersRestOnce<C(!new)>(
    sdk: Sdk<C>, at: (C, string) -> set<int>, price: (C, Order) -> int, book: C, orders: seq<Order>)
    requires RestsBy(sdk, at, price) && RestOnce(at, book)
    ensures RestOnce(at, ApplyOrders(sdk, book, orders).book)
    decreases |orders|
  {
    if orders != [] && orders[0].decodes {
      var o := orders[0];
      if !sdk.priced(book, o) {
        OrdersRestOnce(sdk, at, price, book, orders[1..]);
      } else {
        var moved := sdk.relocate(book, o);
        AtMostOne(at(moved, o.id), price(book, o));
        AtMostOne(at(sdk.update(moved, o), o.id), price(book, o));
        if !sdk.absent(moved, o) {
          OrdersRestOnce(sdk, at, price, sdk.update(moved, o), orders[1..]);
        }
      }
    }
  }

  lemma AtMostOne(xs: set<int>, x: int)
    requires xs <= {x}
    ensures |xs| <= 1
  {
    assert xs == {} || xs == {x};
  }

  ghost function SymbolsOf(entries: seq<Entry>): seq<string> {
    seq(|entries|, i requires 0 <= i < |entries| => entries[i].symbol)
  }

  /** A snapshot frame that is applied to its end accepts every one of its entries, in order. */
  lemma {:induction false} SnapshotFrameAcceptsAll<C>(sdk: Sdk<C>, b: Books<C>, entries: seq<Entry>)
    requires ApplyFrame(sdk, b, Snapshot, entries).ok
    ensures ApplyFrame(sdk, b, Snapshot, entries).accepted == SymbolsOf(entries)
  {
    hide ApplyOrders;
    if entries != [] {
      var n := |entries| - 1;
      SnapshotFrameAcceptsAll(sdk, b, entries[..n]);
      assert SymbolsOf(entries) == SymbolsOf(entries[..n]) + [entries[n].symbol];
    }
  }

  /** A book at one number, whose checksum is that number: every update sets it. */
  function Counter(): Sdk<int> {
    Sdk(0, (c: int, o: Order) => true, (c: int, o: Order) => c, (c: int, o: Order) => false,
        (c: int, o: Order) => o.body, (c: int) => c, (c: int) => if c < 0 then 0 else c)
  }

  /** A snapshot whose checksum differs: the book keeps the value applied, and no reader is shown it. */
  lemma DivergedBookIsHidden()
    ensures var b := ApplyEntry(Counter(), Books(map[], {}, map[], false, {}, multiset{}), Snapshot,
                                Entry("A", 7, [Order("o", false, true, 5)])).0;
      "A" in b.managed && b.managed["A"].book == 5 && forall pending :: !Shown(b, pending, "A")
  {
    var orders := [Order("o", false, true, 5)];
    assert orders[1..] == [];
    assert ApplyOrders(Counter(), 5, []) == Done(5);
  }

  /** An entry that is not a snapshot of `s` leaves an invalid `s` invalid, with its book as it was. */
  lemma EntryKeepsInvalid<C>(sdk: Sdk<C>, b: Books<C>, kind: Kind, e: Entry, s: string)
    requires s in b.invalid && (e.symbol == s ==> kind != Snapshot)
    ensures var b' := ApplyEntry(sdk, b, kind, e).0;
      s in b'.invalid && (s in b.managed ==> s in b'.managed && b'.managed[s] == b.managed[s])
  {
    hide ApplyOrders;
  }

  ghost predicate Names(entries: seq<Entry>, s: string) {
    exists i :: 0 <= i < |entries| && entries[i].symbol == s
  }

  /** So does a whole frame, unless it is a snapshot naming the symbol. */
  lemma {:induction false} FrameKeepsInvalid<C>(sdk: Sdk<C>, b: Books<C>, kind: Kind, entries: seq<Entry>, s: string)
    requires s in b.invalid && !(kind == Snapshot && Names(entries, s))
    ensures var b' := ApplyFrame(sdk, b, kind, entries).books;
      s in b'.invalid && (s in b.managed ==> s in b'.managed && b'.managed[s] == b.managed[s])
  {
    hide ApplyEntry;
    if entries != [] {
      var n := |entries| - 1;
      assert Names(entries[..n], s) ==> Names(entries, s);
      assert entries[n].symbol == s ==> Names(entries, s);
      FrameKeepsInvalid(sdk, b, kind, entries[..n], s);
      var before := ApplyFrame(sdk, b, kind, entries[..n]);
      if before.ok {
        EntryKeepsInvalid(sdk, before.books, kind, entries[n], s);
      }
    }
  }

  /** How many deltas of a frame are for `s`. */
  ghost function DeltasFor(entries: seq<Entry>, s: string): nat {
    if entries == [] then 0
    else DeltasFor(entries[..|entries| - 1], s) + if entries[|entries| - 1].symbol == s then 1 else 0
  }

  /**
    While a symbol is invalid a frame of deltas that is applied to its end counts each delta for it as
    dropped and changes nothing else about it.
   */
  lemma {:induction false} InvalidCountsDeltas<C>(sdk: Sdk<C>, b: Books<C>, entries: seq<Entry>, s: string)
    requires s in b.invalid && ApplyFrame(sdk, b, Delta, entries).ok
    ensures var b' := ApplyFrame(sdk, b, Delta, entries).books;
      s in b'.invalid && b'.invalid[s] == b.invalid[s] + DeltasFor(entries, s) &&
      (s in b'.stale <==> s in b.stale) && (s in b.managed ==> s in b'.managed && b'.managed[s] == b.managed[s])
  {
    hide ApplyOrders;
    if entries != [] {
      InvalidCountsDeltas(sdk, b, entries[..|entries| - 1], s);
    }
  }

  // ----------------------------------------------------------------- readers

  /** The guarded read shows the resident book of a symbol that is not pending, stale or invalid. */
  predicate Shown<C>(b: Books<C>, pending: set<string>, s: string) {
    s !in pending && s !in b.stale && s !in b.invalid && s in b.managed
  }

  datatype Reason = Clear | EmptySymbol | StillPending | IsStale | IsInvalid | NotManaged

  function BlockReason<C>(b: Books<C>, pending: set<string>, s: string): Reason {
    if s == "" then EmptySymbol
    else if s in pending then StillPending
    else if s in b.stale then IsStale
    else if s in b.invalid then IsInvalid
    else if s !in b.managed then NotManaged
    else Clear
  }

  predicate StaleSymbol<C>(b: Books<C>, pending: set<string>, s: string) {
    s == "" || s in pending || s in b.stale || s in b.invalid || s !in b.managed
  }
}
