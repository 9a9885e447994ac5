/** Seeding the books: many frame deliveries racing on the set of pending symbols. */
module Seeding {
  import opened Text
  import opened BookModel

  /** The pending set behind its atomic pointer; every store makes a new version. */
  datatype Pointer = Pointer(version: nat, symbols: set<string>)

  /** Where a snapshot delivery is, with the accepted symbols it still has to settle. */
  datatype Caller =
    | Settling(todo: seq<string>)                   // about to load the pointer
    | Swapping(todo: seq<string>, seen: Pointer)    // about to compare and swap
    | Counting(todo: seq<string>)                   // its symbol is removed; about to count what is pending
    | Looking(todo: seq<string>)                    // saw nothing pending; about to look for stale books
    | Declaring(todo: seq<string>)                  // saw nothing stale either; about to declare the books ready

  /**
    The shared state. `announcing` counts announcements that have stored their symbols and not yet
    withdrawn readiness. The last four fields are history: the symbols last announced, those ever accepted
    from a snapshot, those removed since the announcement, and those whose last entry faulted.
   */
  datatype State<C> = State(
    books: Books<C>, pending: Option<Pointer>, nextVersion: nat, ready: bool, announcing: nat,
    callers: map<int, Caller>,
    expected: set<string>, accepted: set<string>, removed: set<string>, faulted: set<string>)

  /**
    One atomic step. An announcement stores its symbols and then withdraws readiness. A delivery applies
    its whole frame under the lock, then settles symbol by symbol; the last step of that declares.
   */
  datatype Step =
    | Store(symbols: set<string>)
    | Withdraw
    | Deliver(id: int, kind: Kind, entries: seq<Entry>)
    | Load(id: int)
    | Swap(id: int)
    | Count(id: int)
    | Look(id: int)
    | Declare(id: int)
    | SocketDown(symbols: set<string>)
    | Recovered(symbol: string)
    | SetHook

  ghost predicate Enabled<C>(s: State<C>, step: Step) {
    match step
    case Store(_) => true
    case Withdraw => s.announcing > 0
    case Deliver(id, _, _) => id !in s.callers
    case Load(id) => id in s.callers && s.callers[id].Settling? && s.callers[id].todo != []
    case Swap(id) => id in s.callers && s.callers[id].Swapping? && s.callers[id].todo != []
    case Count(id) => id in s.callers && s.callers[id].Counting? && s.callers[id].todo != []
    case Look(id) => id in s.callers && s.callers[id].Looking? && s.callers[id].todo != []
    case Declare(id) => id in s.callers && s.callers[id].Declaring? && s.callers[id].todo != []
    case SocketDown(_) => true
    case Recovered(symbol) => s.books.workers[symbol] > 0
    case SetHook => true
  }

  /** The caller goes on to its next symbol, or is done. */
  ghost function Onward<C>(s: State<C>, id: int, todo: seq<string>): State<C>
    requires todo != []
  {
    if |todo| == 1 then s.(callers := s.callers - {id}) else s.(callers := s.callers[id := Settling(todo[1..])])
  }

  /** The faulted symbols after a frame. */
  ghost function FrameFaulted<C>(sdk: Sdk<C>, b: Books<C>, kind: Kind, entries: seq<Entry>, faulted: set<string>)
    : set<string>
  {
    if entries == [] then faulted
    else
      var n := |entries| - 1;
      var before := ApplyFrame(sdk, b, kind, entries[..n]);
      var f := FrameFaulted(sdk, b, kind, entries[..n], faulted);
      if before.ok then FaultedAfter(sdk, before.books, kind, entries[n], f) else f
  }

  ghost function Elements(s: seq<string>): set<string> {
    set x | x in s
  }

  ghost function Next<C>(sdk: Sdk<C>, s: State<C>, step: Step): State<C>
    requires Enabled(s, step)
  {
    match step
    case Store(symbols) =>
      s.(pending := Some(Pointer(s.nextVersion, symbols)), nextVersion := s.nextVersion + 1,
         announcing := s.announcing + 1, expected := symbols, removed := {})
    case Withdraw => s.(ready := false, announcing := s.announcing - 1)
    case Deliver(id, kind, entries) =>
      var r := ApplyFrame(sdk, s.books, kind, entries);
      s.(books := r.books,
         faulted := FrameFaulted(sdk, s.books, kind, entries, s.faulted),
         accepted := if kind == Snapshot then s.accepted + Elements(r.accepted) else s.accepted,
         callers :=
           if r.ok && kind == Snapshot && r.accepted != [] then s.callers[id := Settling(r.accepted)] else s.callers)
    case Load(id) =>
      var todo := s.callers[id].todo;
      s.(callers := s.callers[id := if s.pending.None? then Counting(todo) else Swapping(todo, s.pending.value)])
    case Swap(id) =>
      var Swapping(todo, seen) := s.callers[id];
      if s.pending.Some? && s.pending.value.version == seen.version then
        s.(pending := Some(Pointer(s.nextVersion, seen.symbols - {todo[0]})), nextVersion := s.nextVersion + 1,
           removed := s.removed + {todo[0]}, callers := s.callers[id := Counting(todo)])
      else s.(callers := s.callers[id := Settling(todo)])
    case Count(id) =>
      var todo := s.callers[id].todo;
      if s.pending.None? || s.pending.value.symbols == {} then s.(callers := s.callers[id := Looking(todo)])
      else Onward(s, id, todo)
    case Look(id) =>
      var todo := s.callers[id].todo;
      if s.books.stale == {} then s.(callers := s.callers[id := Declaring(todo)]) else Onward(s, id, todo)
    case Declare(id) => Onward(s.(ready := true), id, s.callers[id].todo)
    case SocketDown(symbols) => s.(books := s.books.(stale := s.books.stale + symbols))
    case Recovered(symbol) => s.(books := Finished(s.books, symbol))
    case SetHook => s.(books := s.books.(hooked := true))
  }

  /** The books before anything has happened. */
  function Fresh<C>(): State<C> {
    State(Books(map[], {}, map[], false, {}, multiset{}), None, 0, false, 0, map[], {}, {}, {}, {})
  }

  // --------------------------------------------------------------- invariant

  ghost function Waiting<C>(s: State<C>): set<string> {
    if s.pending.Some? then s.pending.value.symbols else {}
  }

  ghost predicate CallerOk<C>(s: State<C>, c: Caller) {
    c.todo != [] && (forall x :: x in c.todo ==> x in s.accepted) &&
    (c.Swapping? ==> c.seen.version < s.nextVersion) &&
    (c.Swapping? && s.pending.Some? && c.seen.version == s.pending.value.version ==> c.seen == s.pending.value) &&
    (c.Looking? || c.Declaring? ==> Waiting(s) == {})
  }

  /** The pending set is the announced set less the removals, and every removal had an accepted snapshot. */
  ghost predicate PendingOk<C>(s: State<C>) {
    (s.pending.Some? ==> s.pending.value.version < s.nextVersion) &&
    Waiting(s) == s.expected - s.removed && s.removed <= s.accepted &&
    (s.ready && s.announcing == 0 ==> Waiting(s) == {})
  }

  ghost predicate Inv<C>(sdk: Sdk<C>, s: State<C>) {
    PendingOk(s) && (forall id :: id in s.callers ==> CallerOk(s, s.callers[id])) && BooksOk(sdk, s.books, s.faulted)
  }

  /** The delivery has seen nothing pending and will not look at the pending set again before declaring. */
  ghost predicate Committed(c: Caller) {
    c.Looking? || c.Declaring?
  }

  ghost predicate SomeoneCommitted<C>(s: State<C>) {
    exists id :: id in s.callers && Committed(s.callers[id])
  }

  /** An announcement is timely when no delivery is committed to declaring the books ready. */
  ghost predicate Timely<C>(s: State<C>, step: Step) {
    step.Store? ==> !SomeoneCommitted(s)
  }

  lemma FreshIsOk<C>(sdk: Sdk<C>)
    ensures Inv(sdk, Fresh<C>())
  {
  }

  lemma StoreKeepsInv<C>(sdk: Sdk<C>, s: State<C>, step: Step)
    requires Inv(sdk, s) && step.Store? && Timely(s, step)
    ensures Inv(sdk, Next(sdk, s, step))
  {
    hide BooksOk;
    var s' := Next(sdk, s, step);
    forall id | id in s'.callers ensures CallerOk(s', s'.callers[id]) {
      assert CallerOk(s, s.callers[id]);
    }
  }

  lemma {:induction false} FrameKeepsBooksOk<C>(
    sdk: Sdk<C>, b: Books<C>, kind: Kind, entries: seq<Entry>, faulted: set<string>)
    requires BooksOk(sdk, b, faulted)
    ensures BooksOk(sdk, ApplyFrame(sdk, b, kind, entries).books, FrameFaulted(sdk, b, kind, entries, faulted))
  {
    hide BooksOk, ApplyEntry, FaultedAfter;
    if entries != [] {
      var n := |entries| - 1;
      FrameKeepsBooksOk(sdk, b, kind, entries[..n], faulted);
      var before := ApplyFrame(sdk, b, kind, entries[..n]);
      if before.ok {
        EntryKeepsBooksOk(sdk, before.books, kind, entries[n], FrameFaulted(sdk, b, kind, entries[..n], faulted));
      }
    }
  }

  /** A frame whose entries all decode adds no fault. */
  lemma {:induction false} DecodingFramesDoNotFault<C>(
    sdk: Sdk<C>, b: Books<C>, kind: Kind, entries: seq<Entry>, faulted: set<string>)
    requires forall i :: 0 <= i < |entries| ==> AllDecode(entries[i].orders)
    ensures FrameFaulted(sdk, b, kind, entries, faulted) <= faulted
  {
    hide ApplyEntry, AllDecode;
    if entries != [] {
      DecodingFramesDoNotFault(sdk, b, kind, entries[..|entries| - 1], faulted);
    }
  }

  lemma DeliverKeepsInv<C>(sdk: Sdk<C>, s: State<C>, step: Step)
    requires Inv(sdk, s) && step.Deliver? && Enabled(s, step)
    ensures Inv(sdk, Next(sdk, s, step))
  {
    hide BooksOk, ApplyFrame, FrameFaulted;
    FrameKeepsBooksOk(sdk, s.books, step.kind, step.entries, s.faulted);
    var s' := Next(sdk, s, step);
    forall id | id in s'.callers ensures CallerOk(s', s'.callers[id]) {
      if id in s.callers {
        assert CallerOk(s, s.callers[id]);
      }
    }
  }

  lemma SettleKeepsInv<C>(sdk: Sdk<C>, s: State<C>, step: Step)
    requires Inv(sdk, s) && (step.Load? || step.Swap? || step.Count? || step.Look? || step.Declare?) && Enabled(s, step)
    ensures Inv(sdk, Next(sdk, s, step))
    ensures Waiting(Next(sdk, s, step)) <= Waiting(s)
  {
    hide BooksOk;
    var s' := Next(sdk, s, step);
    assert CallerOk(s, s.callers[step.id]);
    forall id | id in s'.callers ensures CallerOk(s', s'.callers[id]) {
      if id in s.callers {
        assert CallerOk(s, s.callers[id]);
      }
    }
  }

  lemma OtherStepsKeepInv<C>(sdk: Sdk<C>, s: State<C>, step: Step)
    requires Inv(sdk, s) && (step.Withdraw? || step.SocketDown? || step.Recovered? || step.SetHook?) && Enabled(s, step)
    ensures Inv(sdk, Next(sdk, s, step))
  {
    var s' := Next(sdk, s, step);
    forall id | id in s'.callers ensures CallerOk(s', s'.callers[id]) {
      assert CallerOk(s, s.callers[id]);
    }
  }

  lemma StepKeepsInv<C>(sdk: Sdk<C>, s: State<C>, step: Step)
    requires Inv(sdk, s) && Enabled(s, step) && Timely(s, step)
    ensures Inv(sdk, Next(sdk, s, step)) && s.accepted <= Next(sdk, s, step).accepted
    ensures !step.Store? ==> Next(sdk, s, step).expected == s.expected && s.removed <= Next(sdk, s, step).removed
  {
    hide BooksOk, ApplyFrame, FrameFaulted, CallerOk;
    if step.Store? {
      StoreKeepsInv(sdk, s, step);
    } else if step.Deliver? {
      DeliverKeepsInv(sdk, s, step);
    } else if step.Load? || step.Swap? || step.Count? || step.Look? || step.Declare? {
      SettleKeepsInv(sdk, s, step);
    } else {
      OtherStepsKeepInv(sdk, s, step);
    }
  }

  // -------------------------------------------------------------------- runs

  /** A run from new books in which every announcement is timely. */
  ghost predicate Run<C>(sdk: Sdk<C>, states: seq<State<C>>, steps: seq<Step>) {
    |states| == |steps| + 1 && states[0] == Fresh() &&
    forall i :: 0 <= i < |steps| ==>
      Enabled(states[i], steps[i]) && Timely(states[i], steps[i]) && states[i + 1] == Next(sdk, states[i], steps[i])
  }

  lemma {:induction false} RunKeepsInv<C>(sdk: Sdk<C>, states: seq<State<C>>, steps: seq<Step>, n: int)
    requires Run(sdk, states, steps) && 0 <= n < |states|
    ensures Inv(sdk, states[n])
  {
    hide Inv, Next, Timely, Enabled, Fresh;
    if n > 0 {
      RunKeepsInv(sdk, states, steps, n - 1);
      StepKeepsInv(sdk, states[n - 1], steps[n - 1]);
    } else {
      FreshIsOk(sdk);
    }
  }

  /**
    In every interleaving: whenever no announcement is between storing its symbols and withdrawing
    readiness, the books are ready only after every announced symbol has had an accepted snapshot. The
    pending set is always exactly the announced symbols not removed since.
   */
  lemma ReadyOnlyWhenSeeded<C>(sdk: Sdk<C>, states: seq<State<C>>, steps: seq<Step>, n: int)
    requires Run(sdk, states, steps) && 0 <= n < |states|
    ensures states[n].ready && states[n].announcing == 0 ==> states[n].expected <= states[n].accepted
    ensures Waiting(states[n]) == states[n].expected - states[n].removed
  {
    hide Next, BooksOk, CallerOk;
    RunKeepsInv(sdk, states, steps, n);
    ReadyMeansSeeded(states[n]);
  }

  lemma ReadyMeansSeeded<C>(s: State<C>)
    requires PendingOk(s)
    ensures s.ready && s.announcing == 0 ==> s.expected <= s.accepted
  {
    forall x | s.ready && s.announcing == 0 && x in s.expected ensures x in s.accepted {
      assert x !in s.expected - s.removed;
    }
  }

  /** No removal is ever lost: until the next announcement, what was removed stays removed. */
  lemma {:induction false} RemovalsAreKept<C>(sdk: Sdk<C>, states: seq<State<C>>, steps: seq<Step>, m: int, n: int)
    requires Run(sdk, states, steps) && 0 <= m <= n < |states|
    requires forall i :: m <= i < n ==> !steps[i].Store?
    ensures states[m].removed <= states[n].removed && states[n].expected == states[m].expected
    ensures Waiting(states[n]) <= Waiting(states[m])
    decreases n - m
  {
    hide Next, BooksOk, CallerOk, Enabled;
    RunKeepsInv(sdk, states, steps, m);
    RunKeepsInv(sdk, states, steps, n);
    if m < n {
      RemovalsAreKept(sdk, states, steps, m, n - 1);
      RunKeepsInv(sdk, states, steps, n - 1);
      StepKeepsInv(sdk, states[n - 1], steps[n - 1]);
    }
  }

  /** In every run a book that any reader lets through passed its last comparison, unless its last entry faulted. */
  lemma ReadersSeeVerifiedBooks<C>(sdk: Sdk<C>, states: seq<State<C>>, steps: seq<Step>, n: int, symbol: string)
    requires Run(sdk, states, steps) && 0 <= n < |states|
    requires symbol !in states[n].faulted
    requires var b, waiting := states[n].books, Waiting(states[n]);
      Shown(b, waiting, symbol) || BlockReason(b, waiting, symbol) == Clear || !StaleSymbol(b, waiting, symbol)
    ensures Verified(sdk, states[n].books.managed[symbol])
  {
    RunKeepsInv(sdk, states, steps, n);
  }

  /** In every run each symbol has at most one recovery request in flight. */
  lemma OneRecoveryEach<C>(sdk: Sdk<C>, states: seq<State<C>>, steps: seq<Step>, n: int, symbol: string)
    requires Run(sdk, states, steps) && 0 <= n < |states|
    ensures states[n].books.workers[symbol] <= 1
  {
    RunKeepsInv(sdk, states, steps, n);
  }

  /** When every frame delivered decodes, no symbol is ever faulted, so every book shown is verified. */
  lemma {:induction false} DecodingRunsNeverFault<C>(sdk: Sdk<C>, states: seq<State<C>>, steps: seq<Step>, n: int)
    requires Run(sdk, states, steps) && 0 <= n < |states|
    requires forall i, j :: 0 <= i < n && steps[i].Deliver? && 0 <= j < |steps[i].entries| ==>
      AllDecode(steps[i].entries[j].orders)
    ensures states[n].faulted == {}
  {
    if n > 0 {
      hide ApplyFrame, FrameFaulted, Inv, AllDecode;
      DecodingRunsNeverFault(sdk, states, steps, n - 1);
      var step, s := steps[n - 1], states[n - 1];
      if step.Deliver? {
        DecodingFramesDoNotFault(sdk, s.books, step.kind, step.entries, s.faulted);
      }
    }
  }

  // ------------------------------------------- announcements that are not timely

  /** Every step is enabled when its turn comes. */
  ghost predicate Follows<C>(sdk: Sdk<C>, s: State<C>, steps: seq<Step>)
    decreases |steps|
  {
    steps == [] || (Enabled(s, steps[0]) && Follows(sdk, Next(sdk, s, steps[0]), steps[1..]))
  }

  ghost function After<C>(sdk: Sdk<C>, s: State<C>, steps: seq<Step>): State<C>
    requires Follows(sdk, s, steps)
    decreases |steps|
  {
    if steps == [] then s else After(sdk, Next(sdk, s, steps[0]), steps[1..])
  }

  /** Ready, with no announcement under way, although an announced symbol was never accepted. */
  ghost predicate FalselyReady<C>(s: State<C>) {
    s.ready && s.announcing == 0 && !(s.expected <= s.accepted)
  }

  /** Some continuation without a further announcement makes the books falsely ready. */
  ghost predicate CanBeOvertaken<C>(sdk: Sdk<C>, s: State<C>) {
    exists steps: seq<Step> :: NoStore(steps) && Follows(sdk, s, steps) && FalselyReady(After(sdk, s, steps))
  }

  ghost predicate NoStore(steps: seq<Step>) {
    forall i :: 0 <= i < |steps| ==> !steps[i].Store?
  }

  /** The announcement of `symbols`, both its steps. */
  ghost function Announced<C>(sdk: Sdk<C>, s: State<C>, symbols: set<string>): State<C> {
    Next(sdk, Next(sdk, s, Store(symbols)), Withdraw)
  }

  /**
    Announcing a symbol never accepted can be overtaken by a false readiness exactly when it is not
    timely, that is, when some delivery is already committed to declaring.
   */
  lemma OvertakenIffUntimely<C>(sdk: Sdk<C>, s: State<C>, symbols: set<string>)
    requires Inv(sdk, s) && s.announcing == 0 && !(symbols <= s.accepted)
    ensures CanBeOvertaken(sdk, Announced(sdk, s, symbols)) <==> SomeoneCommitted(s)
  {
    hide BooksOk, Inv, Follows, FalselyReady;
    var t := Announced(sdk, s, symbols);
    if SomeoneCommitted(s) {
      var id :| id in s.callers && Committed(s.callers[id]);
      CallersOk(sdk, s, id);
      var steps := DeclareAtLast(sdk, t, id);
    } else {
      StepKeepsInv(sdk, s, Store(symbols));
      StepKeepsInv(sdk, Next(sdk, s, Store(symbols)), Withdraw);
      forall steps: seq<Step> | NoStore(steps) && Follows(sdk, t, steps) ensures !FalselyReady(After(sdk, t, steps)) {
        NeverFalselyReady(sdk, t, steps);
      }
    }
  }

  lemma CallersOk<C>(sdk: Sdk<C>, s: State<C>, id: int)
    requires Inv(sdk, s) && id in s.callers
    ensures CallerOk(s, s.callers[id])
  {
  }

  lemma {:induction false} NeverFalselyReady<C>(sdk: Sdk<C>, s: State<C>, steps: seq<Step>)
    requires Inv(sdk, s) && NoStore(steps) && Follows(sdk, s, steps)
    ensures !FalselyReady(After(sdk, s, steps))
    decreases |steps|
  {
    hide Next, BooksOk, CallerOk, Enabled;
    if steps == [] {
      ReadyMeansSeeded(s);
    } else {
      StepKeepsInv(sdk, s, steps[0]);
      NeverFalselyReady(sdk, Next(sdk, s, steps[0]), steps[1..]);
    }
  }

  /** A committed delivery can be brought to declare, once what is stale has been cleared by failing snapshots. */
  lemma DeclareAtLast<C>(sdk: Sdk<C>, t: State<C>, id: int) returns (steps: seq<Step>)
    requires id in t.callers && Committed(t.callers[id]) && t.callers[id].todo != []
    requires t.announcing == 0 && !(t.expected <= t.accepted)
    ensures NoStore(steps) && Follows(sdk, t, steps) && FalselyReady(After(sdk, t, steps))
  {
    if t.callers[id].Declaring? {
      steps := [Declare(id)];
      OneStep(sdk, t, Declare(id));
    } else {
      var clearing := ClearStale(sdk, t);
      var u := After(sdk, t, clearing);
      var v := Next(sdk, u, Look(id));
      OneStep(sdk, v, Declare(id));
      assert [Look(id), Declare(id)][1..] == [Declare(id)];
      assert Follows(sdk, u, [Look(id), Declare(id)]);
      FollowsConcat(sdk, t, clearing, [Look(id), Declare(id)]);
      steps := clearing + [Look(id), Declare(id)];
    }
  }

  lemma OneStep<C>(sdk: Sdk<C>, s: State<C>, step: Step)
    requires Enabled(s, step)
    ensures Follows(sdk, s, [step]) && After(sdk, s, [step]) == Next(sdk, s, step)
  {
    assert [step][1..] == [];
  }

  lemma {:induction false} FollowsConcat<C>(sdk: Sdk<C>, s: State<C>, a: seq<Step>, b: seq<Step>)
    requires Follows(sdk, s, a) && Follows(sdk, After(sdk, s, a), b)
    ensures Follows(sdk, s, a + b) && After(sdk, s, a + b) == After(sdk, After(sdk, s, a), b)
    decreases |a|
  {
    hide Next, Enabled;
    if a == [] {
      assert a + b == b;
    } else {
      FollowsConcat(sdk, Next(sdk, s, a[0]), a[1..], b);
      assert (a + b)[0] == a[0] && (a + b)[1..] == a[1..] + b;
    }
  }

  /** Snapshots that do not decode clear every stale mark and change nothing the callers see. */
  lemma {:induction false} ClearStale<C>(sdk: Sdk<C>, t: State<C>) returns (steps: seq<Step>)
    ensures NoStore(steps) && Follows(sdk, t, steps)
    ensures var u := After(sdk, t, steps);
      u.books.stale == {} && u.callers == t.callers && u.announcing == t.announcing &&
      u.expected == t.expected && u.accepted == t.accepted
    decreases |t.books.stale|
  {
    if t.books.stale == {} {
      steps := [];
    } else {
      var x :| x in t.books.stale;
      var id := UnusedId(t.callers.Keys);
      var step := Deliver(id, Snapshot, [Entry(x, 0, [Order("", false, false, 0)])]);
      FaultClears(sdk, t.books, x);
      var u := Next(sdk, t, step);
      assert u.books.stale == t.books.stale - {x};
      var rest := ClearStale(sdk, u);
      steps := [step] + rest;
      assert steps[1..] == rest;
    }
  }

  lemma FaultClears<C>(sdk: Sdk<C>, b: Books<C>, x: string)
    ensures var r := ApplyFrame(sdk, b, Snapshot, [Entry(x, 0, [Order("", false, false, 0)])]);
      !r.ok && r.accepted == [] && r.books.stale == b.stale - {x}
  {
    var e := Entry(x, 0, [Order("", false, false, 0)]);
    assert [e][..0] == [];
    assert ApplyFrame(sdk, b, Snapshot, []) == FrameResult(b, [], true);
  }

  lemma {:induction false} UnusedId(ids: set<int>) returns (id: int)
    ensures id !in ids && forall x :: x in ids ==> x < id
    decreases |ids|
  {
    if x :| x in ids {
      var above := UnusedId(ids - {x});
      id := if above <= x then x + 1 else above;
      forall y | y in ids ensures y < id {
        assert y == x || y in ids - {x};
      }
    } else {
      id := 0;
    }
  }

  /**
    Such a run from new books: a delivery seeds A and finds nothing pending, B is announced, and the
    delivery then declares the books ready without B.
   */
  lemma OvertakenFromFresh<C>(sdk: Sdk<C>)
    ensures var steps := [
        Deliver(1, Snapshot, [Entry("A", 0, [])]), Load(1), Count(1), Store({"B"}), Withdraw, Look(1), Declare(1)];
      Follows(sdk, Fresh<C>(), steps) && FalselyReady(After(sdk, Fresh<C>(), steps))
  {
    hide Next, Enabled, Fresh, Follows, After, FalselyReady;
    var a := [Deliver(1, Snapshot, [Entry("A", 0, [])]), Load(1), Count(1)];
    var s := SeedsA(sdk);
    OvertakesB(sdk, s);
    FollowsConcat(sdk, Fresh<C>(), a, [Store({"B"}), Withdraw, Look(1), Declare(1)]);
    assert a + [Store({"B"}), Withdraw, Look(1), Declare(1)] ==
      [Deliver(1, Snapshot, [Entry("A", 0, [])]), Load(1), Count(1), Store({"B"}), Withdraw, Look(1), Declare(1)];
  }

  lemma OvertakesB<C>(sdk: Sdk<C>, s: State<C>)
    requires s.callers == map[1 := Looking(["A"])] && s.books.stale == {} && s.accepted == {"A"} && s.announcing == 0
    ensures var steps := [Store({"B"}), Withdraw, Look(1), Declare(1)];
      Follows(sdk, s, steps) && FalselyReady(After(sdk, s, steps))
  {
    var t := Next(sdk, s, Store({"B"}));
    var u := Next(sdk, t, Withdraw);
    var v := Next(sdk, u, Look(1));
    assert v.expected == {"B"} && "B" !in v.accepted && v.announcing == 0 && v.callers[1] == Declaring(["A"]);
    OneStep(sdk, v, Declare(1));
    var steps := [Store({"B"}), Withdraw, Look(1), Declare(1)];
    assert steps[1..][1..][1..] == [Declare(1)];
    assert Follows(sdk, u, steps[1..][1..]) && After(sdk, u, steps[1..][1..]) == Next(sdk, v, Declare(1));
    assert Follows(sdk, t, steps[1..]) && After(sdk, t, steps[1..]) == Next(sdk, v, Declare(1));
    assert "B" in v.expected;
  }

  lemma SeedsA<C>(sdk: Sdk<C>) returns (s: State<C>)
    ensures var steps := [Deliver(1, Snapshot, [Entry("A", 0, [])]), Load(1), Count(1)];
      Follows(sdk, Fresh<C>(), steps) && After(sdk, Fresh<C>(), steps) == s
    ensures s.callers == map[1 := Looking(["A"])] && s.books.stale == {} && s.accepted == {"A"} && s.announcing == 0
  {
    var e := Entry("A", 0, []);
    var f := Fresh<C>();
    assert [e][..0] == [];
    assert ApplyFrame(sdk, f.books, Snapshot, []) == FrameResult(f.books, [], true);
    var r := ApplyFrame(sdk, f.books, Snapshot, [e]);
    assert r.ok && r.accepted == ["A"] && r.books.stale == {};
    var s1 := Next(sdk, f, Deliver(1, Snapshot, [e]));
    var s2 := Next(sdk, s1, Load(1));
    s := Next(sdk, s2, Count(1));
    OneStep(sdk, s2, Count(1));
    assert [Load(1), Count(1)][1..] == [Count(1)];
    assert Follows(sdk, s1, [Load(1), Count(1)]);
    var steps := [Deliver(1, Snapshot, [e]), Load(1), Count(1)];
    assert steps[1..] == [Load(1), Count(1)];
  }

  // ------------------------------------------------------------- invalid books

  /**
    In every run a symbol that is invalid stays invalid, its book as it was and shown to no reader, until
    a snapshot naming it is delivered.
   */
  lemma {:induction false} HiddenUntilSnapshot<C>(
    sdk: Sdk<C>, states: seq<State<C>>, steps: seq<Step>, m: int, n: int, symbol: string)
    requires Run(sdk, states, steps) && 0 <= m <= n < |states| && symbol in states[m].books.invalid
    requires forall i :: m <= i < n && steps[i].Deliver? && steps[i].kind == Snapshot ==>
      !Names(steps[i].entries, symbol)
    ensures symbol in states[n].books.invalid && !Shown(states[n].books, Waiting(states[n]), symbol)
    ensures StaleSymbol(states[n].books, Waiting(states[n]), symbol)
    ensures BlockReason(states[n].books, Waiting(states[n]), symbol) != Clear
    ensures symbol in states[m].books.managed ==>
      symbol in states[n].books.managed && states[n].books.managed[symbol] == states[m].books.managed[symbol]
    decreases n - m
  {
    hide Next, Names, Inv, Fresh, Enabled, Timely;
    if m < n {
      HiddenUntilSnapshot(sdk, states, steps, m, n - 1, symbol);
      StepKeepsInvalid(sdk, states[n - 1], steps[n - 1], symbol);
    }
  }

  lemma StepKeepsInvalid<C>(sdk: Sdk<C>, s: State<C>, step: Step, symbol: string)
    requires Enabled(s, step) && symbol in s.books.invalid
    requires step.Deliver? && step.kind == Snapshot ==> !Names(step.entries, symbol)
    ensures var b := Next(sdk, s, step).books;
      symbol in b.invalid &&
      (symbol in s.books.managed ==> symbol in b.managed && b.managed[symbol] == s.books.managed[symbol])
  {
    hide ApplyFrame, FrameFaulted, Names;
    if step.Deliver? {
      FrameKeepsInvalid(sdk, s.books, step.kind, step.entries, symbol);
    }
  }

  // --------------------------------------------------- stale and pending books

  /** The three readers refuse a symbol. */
  ghost predicate Refused<C>(s: State<C>, symbol: string) {
    !Shown(s.books, Waiting(s), symbol) && StaleSymbol(s.books, Waiting(s), symbol) &&
    BlockReason(s.books, Waiting(s), symbol) != Clear
  }

  /**
    In every run a symbol whose socket went down, or that is stale for any reason, stays stale and is
    refused by every reader until a snapshot naming it is delivered.
   */
  lemma {:induction false} StaleUntilSnapshot<C>(
    sdk: Sdk<C>, states: seq<State<C>>, steps: seq<Step>, m: int, n: int, symbol: string)
    requires Run(sdk, states, steps) && 0 <= m <= n < |states|
    requires symbol in states[m].books.stale || (m < n && steps[m].SocketDown? && symbol in steps[m].symbols)
    requires forall i :: m <= i < n && steps[i].Deliver? && steps[i].kind == Snapshot ==>
      !Names(steps[i].entries, symbol)
    ensures symbol in states[n].books.stale && Refused(states[n], symbol)
    decreases n - m
  {
    hide Names, Inv, Fresh, Timely, Next, Enabled;
    if m < n {
      if m < n - 1 || symbol in states[m].books.stale {
        StaleUntilSnapshot(sdk, states, steps, m, n - 1, symbol);
      }
      StepKeepsStale(sdk, states[n - 1], steps[n - 1], symbol);
    }
  }

  lemma StepKeepsStale<C>(sdk: Sdk<C>, s: State<C>, step: Step, symbol: string)
    requires Enabled(s, step) && (symbol in s.books.stale || (step.SocketDown? && symbol in step.symbols))
    requires step.Deliver? && step.kind == Snapshot ==> !Names(step.entries, symbol)
    ensures symbol in Next(sdk, s, step).books.stale
  {
    hide ApplyFrame, FrameFaulted, Names;
    if step.Deliver? {
      FrameKeepsStale(sdk, s.books, step.kind, step.entries, symbol);
    }
  }

  /** A step that takes `symbol` from the pending set: the swap of a delivery that settles it. */
  ghost predicate Settles<C>(s: State<C>, step: Step, symbol: string) {
    step.Swap? && step.id in s.callers && s.callers[step.id].Swapping? && s.callers[step.id].todo != [] &&
    s.callers[step.id].todo[0] == symbol
  }

  /**
    In every run an announced symbol stays pending and is refused by every reader until a delivery that
    accepted its snapshot settles it, or other symbols are announced.
   */
  lemma {:induction false} PendingUntilSettled<C>(
    sdk: Sdk<C>, states: seq<State<C>>, steps: seq<Step>, m: int, n: int, symbol: string)
    requires Run(sdk, states, steps) && 0 <= m < n < |states| && steps[m].Store? && symbol in steps[m].symbols
    requires forall i :: m < i < n ==> !steps[i].Store? && !Settles(states[i], steps[i], symbol)
    ensures symbol in Waiting(states[n]) && Refused(states[n], symbol)
    decreases n
  {
    hide Inv, Fresh, Timely, ApplyFrame, FrameFaulted;
    if m < n - 1 {
      PendingUntilSettled(sdk, states, steps, m, n - 1, symbol);
      RunKeepsInv(sdk, states, steps, n - 1);
      PendingStays(sdk, states[n - 1], steps[n - 1], symbol);
    }
  }

  lemma PendingStays<C>(sdk: Sdk<C>, s: State<C>, step: Step, symbol: string)
    requires Inv(sdk, s) && Enabled(s, step) && !step.Store? && !Settles(s, step, symbol) && symbol in Waiting(s)
    ensures symbol in Waiting(Next(sdk, s, step))
  {
    hide BooksOk, ApplyFrame, FrameFaulted;
    if step.Swap? {
      assert CallerOk(s, s.callers[step.id]);
    }
  }

  // -------------------------------------------------- how readiness is declared

  /** Delivery `id` stands between looking and declaring throughout states `from` to `to`. */
  ghost predicate Stands<C>(states: seq<State<C>>, id: int, from: int, to: int) {
    0 <= from && to < |states| &&
    forall i :: from <= i <= to ==> id in states[i].callers && Committed(states[i].callers[id])
  }

  /**
    The books become ready only when a delivery declares them so, and that delivery, without doing
    anything else in between, had counted nothing pending and then looked when no book was stale.
   */
  lemma ReadyWasLooked<C>(sdk: Sdk<C>, states: seq<State<C>>, steps: seq<Step>, n: int)
    returns (counted: int, looked: int)
    requires Run(sdk, states, steps) && 0 <= n < |steps| && !states[n].ready && states[n + 1].ready
    ensures steps[n].Declare? && 0 <= counted < looked < n
    ensures steps[counted] == Count(steps[n].id) && Waiting(states[counted]) == {}
    ensures steps[looked] == Look(steps[n].id) && states[looked].books.stale == {}
    ensures Stands(states, steps[n].id, counted + 1, n)
  {
    hide Inv, Fresh, Timely, ApplyFrame, FrameFaulted;
    assert steps[n].Declare?;
    looked := DeclaringLooked(sdk, states, steps, n, steps[n].id);
    counted := LookingCounted(sdk, states, steps, looked, steps[n].id);
  }

  lemma {:induction false} DeclaringLooked<C>(sdk: Sdk<C>, states: seq<State<C>>, steps: seq<Step>, n: int, id: int)
    returns (looked: int)
    requires Run(sdk, states, steps) && 0 <= n < |states| && id in states[n].callers && states[n].callers[id].Declaring?
    ensures 0 <= looked < n && steps[looked] == Look(id) && states[looked].books.stale == {}
    ensures id in states[looked].callers && states[looked].callers[id].Looking? && Stands(states, id, looked, n)
    decreases n
  {
    hide Inv, Fresh, Timely, Next, Enabled;
    NoCallersAtFirst(sdk, states, steps);
    Commits(sdk, states[n - 1], steps[n - 1], id);
    if id in states[n - 1].callers && states[n - 1].callers[id].Declaring? {
      looked := DeclaringLooked(sdk, states, steps, n - 1, id);
    } else {
      looked := n - 1;
    }
  }

  lemma {:induction false} LookingCounted<C>(sdk: Sdk<C>, states: seq<State<C>>, steps: seq<Step>, n: int, id: int)
    returns (counted: int)
    requires Run(sdk, states, steps) && 0 <= n < |states| && id in states[n].callers && states[n].callers[id].Looking?
    ensures 0 <= counted < n && steps[counted] == Count(id) && Waiting(states[counted]) == {}
    ensures Stands(states, id, counted + 1, n)
    decreases n
  {
    hide Inv, Fresh, Timely, Next, Enabled;
    NoCallersAtFirst(sdk, states, steps);
    Commits(sdk, states[n - 1], steps[n - 1], id);
    if id in states[n - 1].callers && states[n - 1].callers[id].Looking? {
      counted := LookingCounted(sdk, states, steps, n - 1, id);
    } else {
      counted := n - 1;
    }
  }

  /**
    However many deliveries race: in every run a delivery goes on to count only when its symbol has left
    the pending set, and it goes on with the same symbols to settle.
   */
  lemma CountsOnceRemoved<C>(sdk: Sdk<C>, states: seq<State<C>>, steps: seq<Step>, n: int, id: int)
    requires Run(sdk, states, steps) && 0 <= n < |steps| && id in states[n + 1].callers
    requires states[n + 1].callers[id].Counting? && !(id in states[n].callers && states[n].callers[id].Counting?)
    ensures id in states[n].callers && states[n].callers[id].todo == states[n + 1].callers[id].todo
    ensures states[n + 1].callers[id].todo != [] && states[n + 1].callers[id].todo[0] !in Waiting(states[n + 1])
  {
    hide Fresh, Timely, ApplyFrame, FrameFaulted, BooksOk;
    RunKeepsInv(sdk, states, steps, n);
    assert steps[n].Load? || steps[n].Swap?;
    assert CallerOk(states[n], states[n].callers[id]);
  }

  /** A delivery comes to look only by counting nothing pending, and to declare only by seeing nothing stale. */
  lemma Commits<C>(sdk: Sdk<C>, s: State<C>, step: Step, id: int)
    requires Enabled(s, step) && id in Next(sdk, s, step).callers
    ensures var c := Next(sdk, s, step).callers[id];
      (c.Declaring? && !(id in s.callers && s.callers[id].Declaring?) ==>
        step == Look(id) && id in s.callers && s.callers[id].Looking? && s.books.stale == {}) &&
      (c.Looking? && !(id in s.callers && s.callers[id].Looking?) ==>
        step == Count(id) && Waiting(s) == {})
  {
    hide ApplyFrame, FrameFaulted;
  }

  lemma NoCallersAtFirst<C>(sdk: Sdk<C>, states: seq<State<C>>, steps: seq<Step>)
    requires Run(sdk, states, steps)
    ensures states[0].callers == map[]
  {
  }

  lemma OneMore<C>(sdk: Sdk<C>, s: State<C>, step: Step, rest: seq<Step>, steps: seq<Step>)
    requires Enabled(s, step) && Follows(sdk, Next(sdk, s, step), rest) && steps == [step] + rest
    ensures Follows(sdk, s, steps) && After(sdk, s, steps) == After(sdk, Next(sdk, s, step), rest)
  {
    assert steps[1..] == rest;
  }

  /** A delivery has its accepted symbols to settle exactly when its whole frame was a snapshot that went through. */
  lemma DeliverySettlesIff<C>(sdk: Sdk<C>, s: State<C>, id: int, kind: Kind, entries: seq<Entry>)
    requires Enabled(s, Deliver(id, kind, entries))
    ensures var r, t := ApplyFrame(sdk, s.books, kind, entries), Next(sdk, s, Deliver(id, kind, entries));
      t.books == r.books && t.pending == s.pending && t.ready == s.ready &&
      (id in t.callers <==> r.ok && kind == Snapshot && entries != []) &&
      (id in t.callers ==> t.callers == s.callers[id := Settling(SymbolsOf(entries))])
  {
    hide ApplyFrame, FrameFaulted;
    if kind == Snapshot && ApplyFrame(sdk, s.books, kind, entries).ok {
      SnapshotFrameAcceptsAll(sdk, s.books, entries);
    }
  }

  /** The symbols of a sequence. */
  ghost function Named(todo: seq<string>): set<string> {
    set x | x in todo
  }

  /**
    Left to itself a delivery settles every symbol it accepted: it takes exactly those from the pending
    set, and it ends with the books ready if nothing is then pending and nothing is stale.
   */
  lemma {:induction false} DeliverySettlesAll<C>(sdk: Sdk<C>, s: State<C>, id: int) returns (steps: seq<Step>)
    requires Inv(sdk, s) && id in s.callers && s.callers[id].Settling?
    ensures Follows(sdk, s, steps) && NoStore(steps)
    ensures var t := After(sdk, s, steps);
      t.callers == s.callers - {id} && Waiting(t) == Waiting(s) - Named(s.callers[id].todo) && t.books == s.books &&
      (t.ready <==> s.ready || (Waiting(t) == {} && s.books.stale == {}))
    decreases |s.callers[id].todo|
  {
    hide Inv, Follows, After, Next, Enabled, BooksOk;
    var first, t := SettlesFirst(sdk, s, id);
    var todo := s.callers[id].todo;
    if id in t.callers {
      var rest := DeliverySettlesAll(sdk, t, id);
      FollowsConcat(sdk, s, first, rest);
      steps := first + rest;
      assert Named(todo) == {todo[0]} + Named(todo[1..]);
      assert t.callers - {id} == s.callers - {id};
    } else {
      steps := first;
      assert Named(todo) == {todo[0]};
    }
  }

  /** The same for the first of its symbols. */
  lemma SettlesFirst<C>(sdk: Sdk<C>, s: State<C>, id: int) returns (steps: seq<Step>, t: State<C>)
    requires Inv(sdk, s) && id in s.callers && s.callers[id].Settling?
    ensures s.callers[id].todo != [] && Follows(sdk, s, steps) && NoStore(steps) && t == After(sdk, s, steps)
    ensures Inv(sdk, t) && t.books == s.books
    ensures var todo := s.callers[id].todo;
      Waiting(t) == Waiting(s) - {todo[0]} &&
      t.callers == (if |todo| == 1 then s.callers - {id} else s.callers[id := Settling(todo[1..])]) &&
      (t.ready <==> s.ready || (Waiting(t) == {} && s.books.stale == {}))
  {
    hide Follows, After, BooksOk;
    assert CallerOk(s, s.callers[id]);
    hide Inv;
    var todo := s.callers[id].todo;
    var u, before := Unpended(sdk, s, id);
    var rest := CountedOn(sdk, u, id, todo);
    FollowsConcat(sdk, s, before, rest);
    steps, t := before + rest, After(sdk, u, rest);
    FollowsKeepsInv(sdk, s, steps);
    assert s.callers[id := Counting(todo)] - {id} == s.callers - {id};
  }

  /** Taking one symbol from the pending set, undisturbed. */
  lemma Unpended<C>(sdk: Sdk<C>, s: State<C>, id: int) returns (t: State<C>, steps: seq<Step>)
    requires id in s.callers && s.callers[id].Settling? && s.callers[id].todo != []
    ensures Follows(sdk, s, steps) && NoStore(steps) && t == After(sdk, s, steps)
    ensures t.callers == s.callers[id := Counting(s.callers[id].todo)] && t.books == s.books && t.ready == s.ready
    ensures Waiting(t) == Waiting(s) - {s.callers[id].todo[0]}
  {
    hide Follows, After;
    var s1 := Next(sdk, s, Load(id));
    if s.pending.None? {
      t, steps := s1, [Load(id)];
      OneStep(sdk, s, Load(id));
    } else {
      t, steps := Next(sdk, s1, Swap(id)), [Load(id), Swap(id)];
      OneStep(sdk, s1, Swap(id));
      OneMore(sdk, s, Load(id), [Swap(id)], steps);
    }
  }

  /** Counting, looking and declaring, undisturbed. */
  lemma CountedOn<C>(sdk: Sdk<C>, s: State<C>, id: int, todo: seq<string>) returns (steps: seq<Step>)
    requires id in s.callers && s.callers[id] == Counting(todo) && todo != []
    ensures Follows(sdk, s, steps) && NoStore(steps)
    ensures var t := After(sdk, s, steps);
      t.callers == (if |todo| == 1 then s.callers - {id} else s.callers[id := Settling(todo[1..])]) &&
      t.books == s.books && Waiting(t) == Waiting(s) &&
      (t.ready <==> s.ready || (Waiting(s) == {} && s.books.stale == {}))
  {
    hide Follows, After;
    var s1 := Next(sdk, s, Count(id));
    if Waiting(s) != {} {
      steps := [Count(id)];
      OneStep(sdk, s, Count(id));
    } else {
      var s2 := Next(sdk, s1, Look(id));
      if s.books.stale != {} {
        steps := [Count(id), Look(id)];
        OneStep(sdk, s1, Look(id));
        OneMore(sdk, s, Count(id), [Look(id)], steps);
      } else {
        steps := [Count(id), Look(id), Declare(id)];
        OneStep(sdk, s2, Declare(id));
        OneMore(sdk, s1, Look(id), [Declare(id)], [Look(id), Declare(id)]);
        OneMore(sdk, s, Count(id), [Look(id), Declare(id)], steps);
      }
    }
  }

  lemma {:induction false} FollowsKeepsInv<C>(sdk: Sdk<C>, s: State<C>, steps: seq<Step>)
    requires Inv(sdk, s) && Follows(sdk, s, steps) && NoStore(steps)
    ensures Inv(sdk, After(sdk, s, steps))
    decreases |steps|
  {
    hide Inv, Next;
    if steps != [] {
      StepKeepsInv(sdk, s, steps[0]);
      FollowsKeepsInv(sdk, Next(sdk, s, steps[0]), steps[1..]);
    }
  }

  /** A hook once set stays set. */
  lemma {:induction false} HookStays<C>(sdk: Sdk<C>, states: seq<State<C>>, steps: seq<Step>, m: int, n: int)
    requires Run(sdk, states, steps) && 0 <= m < n < |states| && steps[m] == SetHook
    ensures states[n].books.hooked
    decreases n
  {
    hide Inv, Fresh, Timely, ApplyFrame, FrameFaulted;
    if m < n - 1 {
      HookStays(sdk, states, steps, m, n - 1);
      var s, step := states[n - 1], steps[n - 1];
      if step.Deliver? {
        FrameKeepsHook(sdk, s.books, step.kind, step.entries);
      }
    }
  }

  lemma {:induction false} FrameKeepsHook<C>(sdk: Sdk<C>, b: Books<C>, kind: Kind, entries: seq<Entry>)
    ensures ApplyFrame(sdk, b, kind, entries).books.hooked == b.hooked
  {
    hide ApplyOrders, Resubscribe;
    if entries != [] {
      FrameKeepsHook(sdk, b, kind, entries[..|entries| - 1]);
    }
  }

  /** A recovery that finishes leaves room for the next request. */
  lemma RecoveryEnds<C>(sdk: Sdk<C>, states: seq<State<C>>, steps: seq<Step>, n: int)
    requires Run(sdk, states, steps) && 0 <= n < |steps| && steps[n].Recovered?
    ensures steps[n].symbol !in states[n + 1].books.inflight && states[n + 1].books.workers[steps[n].symbol] == 0
  {
    RunKeepsInv(sdk, states, steps, n);
    RunKeepsInv(sdk, states, steps, n + 1);
  }

  /** A snapshot that does not decode leaves a book that readers are shown and that passed no comparison. */
  lemma FaultIsShown<C>(sdk: Sdk<C>, body: int)
    ensures var s, bad := Announced(sdk, Fresh<C>(), {}), Order("o", false, false, body);
      var t := Next(sdk, s, Deliver(1, Snapshot, [Entry("A", 0, [bad])]));
      Shown(t.books, Waiting(t), "A") && !Verified(sdk, t.books.managed["A"]) && t.callers == map[]
  {
    var s := Announced(sdk, Fresh<C>(), {});
    var e := Entry("A", 0, [Order("o", false, false, body)]);
    assert [e][..0] == [];
    assert ApplyFrame(sdk, s.books, Snapshot, []) == FrameResult(s.books, [], true);
    assert ApplyOrders(sdk, sdk.empty, e.orders) == Fault(sdk.empty);
  }
}
