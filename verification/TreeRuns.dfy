/** Whole runs of the path tree, from empty. */
module TreeRuns {
  import opened Text
  import opened TreeModel

  /** One call of the model on its tree. */
  datatype Call =
    | Seed(path: string, action: Action)
    | Move(path: string, delta: real)
    | Close(entryPath: string, exitPath: string, profitable: bool)
    | Ask(tokens: seq<string>, brightness: real)

  /** The leaves after one more call. */
  ghost function Performed(leaves: map<string, Decision>, call: Call, minPathLength: int): map<string, Decision> {
    match call
    case Seed(path, action) => Ensured(leaves, path, action, minPathLength)
    case Move(path, delta) => Updated(leaves, path, delta, minPathLength)
    case Close(entryPath, exitPath, profitable) => Closed(leaves, entryPath, exitPath, profitable, minPathLength)
    case Ask(tokens, _) => Without(leaves, Marked(leaves, tokens, minPathLength))
  }

  /** What one call adds to the ledger. */
  ghost function EventsOf(leaves: map<string, Decision>, call: Call, minPathLength: int): seq<Event> {
    match call
    case Seed(path, action) => SeedEvents(leaves, path, action, minPathLength)
    case Move(path, delta) => MoveEvents(path, delta, minPathLength)
    case Close(entryPath, exitPath, profitable) => CloseEvents(leaves, entryPath, exitPath, profitable, minPathLength)
    case Ask(tokens, _) => Removals(Marked(leaves, tokens, minPathLength))
  }

  ghost function LeavesAfter(calls: seq<Call>, minPathLength: int): map<string, Decision> {
    if calls == [] then map[]
    else Performed(LeavesAfter(calls[..|calls| - 1], minPathLength), calls[|calls| - 1], minPathLength)
  }

  ghost function LogAfter(calls: seq<Call>, minPathLength: int): seq<Event> {
    if calls == [] then []
    else
      var n := |calls| - 1;
      LogAfter(calls[..n], minPathLength) + EventsOf(LeavesAfter(calls[..n], minPathLength), calls[n], minPathLength)
  }

  /** Any run of calls from an empty tree: its leaves and its ledger are those of the calls. */
  method RunTree(calls: seq<Call>, minPathLength: int) returns (tree: Tree)
    ensures fresh(tree) && tree.Valid() && tree.minPathLength == minPathLength
    ensures tree.leaves == LeavesAfter(calls, minPathLength) && tree.log == LogAfter(calls, minPathLength)
  {
    hide Tree.Valid, Performed, EventsOf;
    tree := new Tree(minPathLength);
    for i := 0 to |calls|
      invariant fresh(tree) && tree.Valid() && tree.minPathLength == minPathLength
      invariant tree.leaves == LeavesAfter(calls[..i], minPathLength) && tree.log == LogAfter(calls[..i], minPathLength)
    {
      assert calls[..i + 1][..i] == calls[..i];
      Perform(tree, calls[i]);
    }
    assert calls[..|calls|] == calls;
  }

  method Perform(tree: Tree, call: Call)
    requires tree.Valid()
    modifies tree
    ensures tree.Valid() && tree.leaves == Performed(old(tree.leaves), call, tree.minPathLength)
    ensures tree.log == old(tree.log) + EventsOf(old(tree.leaves), call, tree.minPathLength)
  {
    hide Tree.Valid, Ensured, Updated, Closed, Marked, Without, SeedEvents, MoveEvents, CloseEvents, Removals;
    match call {
      case Seed(path, action) => tree.Ensure(path, action);
      case Move(path, delta) => tree.Update(path, delta);
      case Close(entryPath, exitPath, profitable) => tree.SettleExit(entryPath, exitPath, profitable);
      case Ask(tokens, brightness) =>
        var _, _, _, _ := tree.Predict(tokens, brightness);
    }
  }

  // ----------------------------------------------------------- settled leaves

  /** How far one call moves the leaf `key`. */
  ghost function Shift(call: Call, key: string, minPathLength: int): real {
    match call
    case Move(path, delta) => Push(path, key, minPathLength, delta)
    case Close(entryPath, exitPath, profitable) =>
      var delta := DeltaOf(profitable);
      if exitPath == "" || exitPath == entryPath then 0.0
      else Push(entryPath, key, minPathLength, delta) + Push(exitPath, key, minPathLength, delta)
    case _ => 0.0
  }

  ghost function ShiftSum(calls: seq<Call>, key: string, minPathLength: int): real {
    if calls == [] then 0.0
    else ShiftSum(calls[..|calls| - 1], key, minPathLength) + Shift(calls[|calls| - 1], key, minPathLength)
  }

  /** The action under which a call would seed `key`. */
  ghost function SeedsAs(call: Call, key: string): Action {
    match call
    case Seed(path, action) => if path == key then action else Abstain
    case Close(entryPath, exitPath, _) => if entryPath == key then Enter else if exitPath == key then Exit else Abstain
    case _ => Abstain
  }

  /** One call seen from one leaf: it is seeded, moved, kept or removed. */
  lemma LeafStep(leaves: map<string, Decision>, call: Call, minPathLength: int, key: string)
    requires key in Performed(leaves, call, minPathLength)
    ensures var d, shift := Performed(leaves, call, minPathLength)[key], Shift(call, key, minPathLength);
      if key in leaves then d == Decision(leaves[key].action, leaves[key].resistance + shift)
      else d == Decision(Name(SeedsAs(call, key)), SEED_RESISTANCE + shift) && SeedsAs(call, key) != Abstain
  {
    hide LongEnough, Walk, Listing, Push;
  }

  /**
    The ledger over every run: a leaf holds the seed plus what every settlement since it was seeded moved
    it by, and the action it was seeded with. Call `n` is the one that seeded it.
   */
  lemma {:induction false} LeafIsSeedPlusSettlements(calls: seq<Call>, minPathLength: int, key: string) returns (n: int)
    requires key in LeavesAfter(calls, minPathLength)
    ensures 0 <= n < |calls| && key !in LeavesAfter(calls[..n], minPathLength)
    ensures forall m :: n < m <= |calls| ==> key in LeavesAfter(calls[..m], minPathLength)
    ensures SeedsAs(calls[n], key) != Abstain
    ensures LeavesAfter(calls, minPathLength)[key] ==
      Decision(Name(SeedsAs(calls[n], key)), SEED_RESISTANCE + ShiftSum(calls[n..], key, minPathLength))
  {
    hide Performed, Shift, SeedsAs;
    n := |calls| - 1;
    var last, before := calls[n], LeavesAfter(calls[..n], minPathLength);
    LeafStep(before, last, minPathLength, key);
    assert calls[..|calls|] == calls;
    if key in before {
      var all := n;
      n := LeafIsSeedPlusSettlements(calls[..all], minPathLength, key);
      assert forall m :: 0 <= m <= all ==> calls[..all][..m] == calls[..m];
      assert calls[n..][..all - n] == calls[..all][n..] && calls[n..][all - n] == last;
    } else {
      assert calls[n..] == [last] && [last][..0] == [];
      assert ShiftSum([], key, minPathLength) == 0.0;
    }
  }

  /** How often the paths of settled positions were above `key`, with a profit or without. */
  ghost function Closings(calls: seq<Call>, key: string, minPathLength: int, profitable: bool): nat {
    if calls == [] then 0
    else
      var last := calls[|calls| - 1];
      Closings(calls[..|calls| - 1], key, minPathLength, profitable) +
      if last.Close? && last.profitable == profitable && last.exitPath != "" && last.exitPath != last.entryPath
      then PathsAbove(last.entryPath, last.exitPath, key, minPathLength)
      else 0
  }

  /** The sum of the plain updates above `key`. */
  ghost function MoveSum(calls: seq<Call>, key: string, minPathLength: int): real {
    if calls == [] then 0.0
    else
      var last := calls[|calls| - 1];
      MoveSum(calls[..|calls| - 1], key, minPathLength) +
      if last.Move? && Above(last.path, key, minPathLength) then last.delta else 0.0
  }

  lemma {:induction false} ShiftsCount(calls: seq<Call>, key: string, minPathLength: int)
    ensures ShiftSum(calls, key, minPathLength) ==
      0.05 * (Closings(calls, key, minPathLength, false) - Closings(calls, key, minPathLength, true)) as real +
      MoveSum(calls, key, minPathLength)
  {
    hide LongEnough;
    if calls != [] {
      ShiftsCount(calls[..|calls| - 1], key, minPathLength);
      LongMeans(minPathLength);
    }
  }

  lemma LongMeans(minPathLength: int)
    ensures forall path :: LongEnough(path, minPathLength) <==> Slashes(path) + 1 >= minPathLength
  {
  }

  /**
    What a run teaches a leaf: since the call that seeded it, 0.05 up for every losing path above it, 0.05
    down for every profitable one, and the plain updates, from 0.5.
   */
  lemma LeafLearns(calls: seq<Call>, minPathLength: int, key: string) returns (n: int)
    requires key in LeavesAfter(calls, minPathLength)
    ensures 0 <= n < |calls| && key !in LeavesAfter(calls[..n], minPathLength)
    ensures forall m :: n < m <= |calls| ==> key in LeavesAfter(calls[..m], minPathLength)
    ensures var since := calls[n..];
      var losses, profits := Closings(since, key, minPathLength, false), Closings(since, key, minPathLength, true);
      LeavesAfter(calls, minPathLength)[key].resistance ==
        0.5 + 0.05 * (losses - profits) as real + MoveSum(since, key, minPathLength)
  {
    hide LeavesAfter, ShiftSum, Closings, MoveSum, SeedsAs;
    n := LeafIsSeedPlusSettlements(calls, minPathLength, key);
    ShiftsCount(calls[n..], key, minPathLength);
  }

  /** Every leaf of a run from an empty tree names an action. */
  lemma RunNames(calls: seq<Call>, minPathLength: int)
    ensures AllNamed(LeavesAfter(calls, minPathLength))
  {
    hide LeavesAfter, SeedsAs, ShiftSum;
    var leaves := LeavesAfter(calls, minPathLength);
    forall k | k in leaves ensures ActionAt(leaves, k) != Abstain {
      var n := LeafIsSeedPlusSettlements(calls, minPathLength, k);
    }
  }

  /** Every key of a run from an empty tree has at least the minimum number of segments. */
  lemma {:induction false} RunKeysAreLong(calls: seq<Call>, minPathLength: int, key: string)
    requires key in LeavesAfter(calls, minPathLength)
    ensures key != "" && Slashes(key) + 1 >= minPathLength
  {
    var n := |calls| - 1;
    if key in LeavesAfter(calls[..n], minPathLength) {
      RunKeysAreLong(calls[..n], minPathLength, key);
    } else {
      hide Walk, Listing, Push;
    }
  }

  // -------------------------------------------------------------- predictions

  /** The average of the leaves under `prefix` not above the threshold, if there are any. */
  ghost function Average(leaves: map<string, Decision>, prefix: string): Option<real> {
    var (total, count) := KeptTotal(leaves, Listing(leaves, prefix));
    if count == 0 then None else Some(total / count as real)
  }

  /** Names the action of the first leaf under `prefix` in key order. */
  ghost predicate NamesFirst(leaves: map<string, Decision>, prefix: string, action: Action) {
    var order := Listing(leaves, prefix);
    order != [] && ActionAt(leaves, order[0]) == action
  }

  /** A leaf under `prefix` above the threshold that names what the first one names. */
  ghost predicate Removable(leaves: map<string, Decision>, prefix: string, key: string) {
    key in leaves && prefix <= key && leaves[key].resistance > PRUNE_ABOVE &&
    NamesFirst(leaves, prefix, ActionAt(leaves, key))
  }

  /**
    A prediction after any run from an empty tree. It names an action exactly when the cut is long enough,
    no two leaves under it differ and the brightness exceeds the average of the leaves kept; every leaf
    under the cut then names that action. It removes exactly the leaves under the cut that are above the
    threshold and name what the first one names.
   */
  method PredictAfterRun(calls: seq<Call>, minPathLength: int, tokens: seq<string>, brightness: real)
    returns (action: Action, resistance: real, disagreed: bool,
             before: map<string, Decision>, after: map<string, Decision>)
    ensures before == LeavesAfter(calls, minPathLength)
    ensures after == LeavesAfter(calls + [Ask(tokens, brightness)], minPathLength)
    ensures var prefix := Join(tokens, "/");
      (disagreed <==> |tokens| >= minPathLength && Differ(before, prefix)) &&
      (action != Abstain <==>
        |tokens| >= minPathLength && !disagreed &&
        Average(before, prefix).Some? && brightness > Average(before, prefix).value) &&
      (action != Abstain ==> forall k :: k in before && prefix <= k ==> ActionAt(before, k) == action) &&
      resistance == (if action != Abstain then Average(before, prefix).value else 0.0) &&
      (forall k :: k in after ==> k in before && after[k] == before[k]) &&
      (forall k :: k in before ==> (k !in after <==> |tokens| >= minPathLength && Removable(before, prefix, k)))
  {
    hide Tree.Valid, Walk, Join, AllNamed, LeavesAfter, LogAfter;
    var tree := RunTree(calls, minPathLength);
    before := tree.leaves;
    ghost var order;
    action, resistance, disagreed, order := tree.Predict(tokens, brightness);
    after := tree.leaves;
    RunNames(calls, minPathLength);
    AskLast(calls, tokens, brightness, minPathLength);
    if |tokens| >= minPathLength {
      PredictionMeans(before, Join(tokens, "/"), minPathLength, brightness, action, resistance, disagreed);
    }
  }

  lemma AskLast(calls: seq<Call>, tokens: seq<string>, brightness: real, minPathLength: int)
    ensures var before := LeavesAfter(calls, minPathLength);
      LeavesAfter(calls + [Ask(tokens, brightness)], minPathLength) ==
        Without(before, Marked(before, tokens, minPathLength))
  {
    assert (calls + [Ask(tokens, brightness)])[..|calls|] == calls;
  }

  /** What a walk's conclusion means when every leaf names an action. */
  lemma PredictionMeans(leaves: map<string, Decision>, prefix: string, minPathLength: int, brightness: real,
                        action: Action, resistance: real, disagreed: bool)
    requires AllLong(Listing(leaves, prefix), minPathLength) && AllNamed(leaves)
    requires Concludes(Walk(leaves, Listing(leaves, prefix), minPathLength), brightness, action, resistance, disagreed)
    ensures disagreed <==> Differ(leaves, prefix)
    ensures action != Abstain <==>
      !disagreed && Average(leaves, prefix).Some? && brightness > Average(leaves, prefix).value
    ensures action != Abstain ==> forall k :: k in leaves && prefix <= k ==> ActionAt(leaves, k) == action
    ensures resistance == if action != Abstain then Average(leaves, prefix).value else 0.0
    ensures forall k ::
      k in Walk(leaves, Listing(leaves, prefix), minPathLength).prunes <==> Removable(leaves, prefix, k)
  {
    hide Walk, LongEnough, NewAction, Precedes, Ascending, KeptTotal;
    var order := Listing(leaves, prefix);
    WalkDisagreesIff(leaves, order, minPathLength);
    WalkAverages(leaves, order, minPathLength);
    WalkPrunesIff(leaves, order, minPathLength);
    NamedDisagree(leaves, order, prefix, minPathLength);
    if order == [] {
      NothingKept(leaves);
    } else if !disagreed {
      AllAlike(leaves, order, prefix);
    }
  }

  lemma NothingKept(leaves: map<string, Decision>)
    ensures KeptTotal(leaves, []) == (0.0, 0)
  {
  }

  /** When every leaf names an action, disagreement is a difference. */
  lemma NamedDisagree(leaves: map<string, Decision>, order: seq<string>, prefix: string, minPathLength: int)
    requires Lists(order, leaves, prefix) && AllLong(order, minPathLength) && AllNamed(leaves)
    ensures Walk(leaves, order, minPathLength).disagreed <==> Differ(leaves, prefix)
  {
    hide Walk, LongEnough, NewAction, Precedes, Ascending;
    StoredLeavesDisagree(leaves, order, prefix, minPathLength);
  }
}
