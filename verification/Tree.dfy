/** The path tree: decisions keyed by path, whose resistance settles over time. */
module TreeModel {
  import opened Text

  datatype Action = Abstain | Enter | Hold | Exit

  function NewAction(name: string): Action {
    if name == "enter" then Enter else if name == "hold" then Hold else if name == "exit" then Exit else Abstain
  }

  function Name(action: Action): string {
    match action
    case Abstain => "none"
    case Enter => "enter"
    case Hold => "hold"
    case Exit => "exit"
  }

  /** An action is read back from its name, and any other name is no action. */
  lemma NamesAreRead(name: string, action: Action)
    ensures NewAction(Name(action)) == action
    ensures Name(Enter) == "enter" && Name(Hold) == "hold" && Name(Exit) == "exit"
    ensures NewAction(name) == Abstain <==> name !in {"enter", "hold", "exit"}
  {
  }

  datatype Decision = Decision(action: string, resistance: real)

  const SEED_RESISTANCE := 0.5
  const PRUNE_ABOVE := 0.8

  function Slashes(path: string): nat {
    if path == "" then 0 else Slashes(path[1..]) + if path[0] == '/' then 1 else 0
  }

  /** A path with fewer segments than the minimum is ignored. */
  predicate LongEnough(path: string, minPathLength: int) {
    Slashes(path) + 1 >= minPathLength
  }

  lemma {:induction false} SlashesConcat(a: string, b: string)
    ensures Slashes(a + b) == Slashes(a) + Slashes(b)
  {
    if a == "" {
      assert a + b == b;
    } else {
      SlashesConcat(a[1..], b);
      assert (a + b)[1..] == a[1..] + b;
    }
  }

  /** A path of tokens without slashes is long enough exactly when it has enough tokens. */
  lemma {:induction false} PathLengthIsTokens(tokens: seq<string>, minPathLength: int)
    requires tokens != [] && forall i :: 0 <= i < |tokens| ==> '/' !in tokens[i]
    ensures Slashes(Join(tokens, "/")) + 1 == |tokens|
    ensures LongEnough(Join(tokens, "/"), minPathLength) <==> |tokens| >= minPathLength
  {
    NoSlashes(tokens[0]);
    if |tokens| > 1 {
      PathLengthIsTokens(tokens[1..], minPathLength);
      SlashesConcat(tokens[0] + "/", Join(tokens[1..], "/"));
      SlashesConcat(tokens[0], "/");
      assert "/"[1..] == "";
    }
  }

  lemma {:induction false} NoSlashes(s: string)
    requires '/' !in s
    ensures Slashes(s) == 0
  {
    if s != "" {
      NoSlashes(s[1..]);
    }
  }

  /** A path under a cut of n tokens has at least n segments. */
  lemma {:induction false} JoinedSlashes(tokens: seq<string>)
    ensures Slashes(Join(tokens, "/")) + 1 >= |tokens|
  {
    if |tokens| > 1 {
      JoinedSlashes(tokens[1..]);
      SlashesConcat(tokens[0] + "/", Join(tokens[1..], "/"));
      SlashesConcat(tokens[0], "/");
      assert "/"[1..] == "";
    }
  }

  // ----------------------------------------------------------- predict's walk

  /** What the walk under a cut has gathered. */
  datatype Tally = Tally(current: Action, disagreed: bool, total: real, count: nat, prunes: seq<string>)

  function Visit(t: Tally, key: string, d: Decision, minPathLength: int): Tally {
    var action := NewAction(d.action);
    if !LongEnough(key, minPathLength) then t
    else if t.current != Abstain && t.current != action then t.(disagreed := true)
    else if d.resistance > PRUNE_ABOVE then t.(current := action, prunes := t.prunes + [key])
    else t.(current := action, total := t.total + d.resistance, count := t.count + 1)
  }

  lemma VisitLong(t: Tally, key: string, d: Decision, minPathLength: int)
    requires LongEnough(key, minPathLength)
    ensures var t', action := Visit(t, key, d, minPathLength), NewAction(d.action);
      if t.current == Abstain || t.current == action then t'.current == action && t'.disagreed == t.disagreed
      else t'.current == t.current && t'.disagreed
  {
  }

  /** The walk over the keys of `order`, one after another. */
  function Walk(leaves: map<string, Decision>, order: seq<string>, minPathLength: int): Tally
    requires forall k :: k in order ==> k in leaves
  {
    if order == [] then Tally(Abstain, false, 0.0, 0, [])
    else
      var n := |order| - 1;
      Visit(Walk(leaves, order[..n], minPathLength), order[n], leaves[order[n]], minPathLength)
  }

  /** The radix tree's key order: a proper prefix first, otherwise the smaller character where two keys part. */
  predicate Precedes(a: string, b: string) {
    b != "" && (a == "" || a[0] < b[0] || (a[0] == b[0] && Precedes(a[1..], b[1..])))
  }

  lemma {:induction false} PrecedesIsTotal(a: string, b: string)
    ensures (a == b || Precedes(a, b) || Precedes(b, a)) && !(Precedes(a, b) && (a == b || Precedes(b, a)))
  {
    if a != "" && b != "" {
      PrecedesIsTotal(a[1..], b[1..]);
      assert a == [a[0]] + a[1..] && b == [b[0]] + b[1..];
    }
  }

  /** A key precedes its extensions, and of two keys that part the one with the smaller character comes first. */
  lemma {:induction false} PrecedesMeans(common: string, x: char, a: string, y: char, b: string)
    ensures Precedes(common, common + [x] + a)
    ensures x < y ==> Precedes(common + [x] + a, common + [y] + b)
  {
    if common != "" {
      PrecedesMeans(common[1..], x, a, y, b);
      assert (common + [x] + a)[1..] == common[1..] + [x] + a;
      assert (common + [y] + b)[1..] == common[1..] + [y] + b;
    }
  }

  lemma {:induction false} PrecedesIsTransitive(a: string, b: string, c: string)
    requires Precedes(a, b) && Precedes(b, c)
    ensures Precedes(a, c)
  {
    if a != "" && a[0] == b[0] == c[0] {
      PrecedesIsTransitive(a[1..], b[1..], c[1..]);
    }
  }

  ghost predicate Ascending(order: seq<string>) {
    forall i, j :: 0 <= i < j < |order| ==> Precedes(order[i], order[j])
  }

  /** `order` lists the keys under `prefix` in the radix tree's order, each once. */
  ghost predicate Lists(order: seq<string>, leaves: map<string, Decision>, prefix: string) {
    (forall k :: k in order <==> k in leaves && prefix <= k) && Ascending(order)
  }

  /** A key put where it belongs among ascending keys. */
  function Placed(order: seq<string>, key: string): seq<string> {
    if order == [] || Precedes(key, order[0]) then [key] + order else [order[0]] + Placed(order[1..], key)
  }

  lemma {:induction false} PlacedAscends(order: seq<string>, key: string)
    requires Ascending(order) && key !in order
    ensures Ascending(Placed(order, key)) && forall k :: k in Placed(order, key) <==> k == key || k in order
  {
    hide Precedes;
    if order != [] {
      var first, rest := order[0], order[1..];
      assert order == [first] + rest;
      PrecedesIsTotal(key, first);
      if Precedes(key, first) {
        forall k | k in rest ensures Precedes(key, k) {
          PrecedesIsTransitive(key, first, k);
        }
      } else {
        PlacedAscends(rest, key);
        assert forall k :: k in Placed(rest, key) ==> Precedes(first, k);
      }
    }
  }

  /** Keys can be listed in order in one way only. */
  lemma {:induction false} AscendingIsUnique(a: seq<string>, b: seq<string>)
    requires Ascending(a) && Ascending(b) && forall k :: k in a <==> k in b
    ensures a == b
    decreases |a|
  {
    hide Precedes;
    if a == [] {
      assert forall i :: 0 <= i < |b| ==> b[i] in b;
    } else {
      assert a[0] in a && b != [] && b[0] in b;
      PrecedesIsTotal(a[0], b[0]);
      AscendingTail(a);
      AscendingTail(b);
      AscendingIsUnique(a[1..], b[1..]);
      assert a == [a[0]] + a[1..] && b == [b[0]] + b[1..];
    }
  }

  lemma AscendingTail(a: seq<string>)
    requires Ascending(a) && a != []
    ensures Ascending(a[1..]) && forall k :: k in a[1..] <==> k in a && k != a[0]
  {
    hide Precedes;
    forall k | k in a[1..] ensures k != a[0] && Precedes(a[0], k) {
      PrecedesIsTotal(a[0], k);
    }
    assert a == [a[0]] + a[1..];
  }

  /** The keys under `prefix` in the radix tree's order. */
  ghost function Listing(leaves: map<string, Decision>, prefix: string): (order: seq<string>)
    ensures Lists(order, leaves, prefix)
    decreases |leaves|
  {
    if leaves == map[] then []
    else
      var key :| key in leaves;
      FewerLeaves(leaves, key);
      var rest := Listing(leaves - {key}, prefix);
      if prefix <= key then PlacedAscends(rest, key); Placed(rest, key) else rest
  }

  lemma FewerLeaves(leaves: map<string, Decision>, key: string)
    requires key in leaves
    ensures |leaves - {key}| < |leaves|
  {
    assert (leaves - {key}).Keys == leaves.Keys - {key};
  }

  ghost predicate AllLong(order: seq<string>, minPathLength: int) {
    forall i :: 0 <= i < |order| ==> LongEnough(order[i], minPathLength)
  }

  function ActionAt(leaves: map<string, Decision>, key: string): Action
    requires key in leaves
  {
    NewAction(leaves[key].action)
  }

  /** The keys up to `j` abstain and all the others name `a`. */
  ghost predicate SettlesOn(leaves: map<string, Decision>, order: seq<string>, j: int, a: Action) {
    0 <= j <= |order| && (forall k :: k in order ==> k in leaves) &&
    (forall i :: 0 <= i < j ==> ActionAt(leaves, order[i]) == Abstain) &&
    (forall i :: j <= i < |order| ==> ActionAt(leaves, order[i]) == a)
  }

  lemma WalkNothing(leaves: map<string, Decision>, minPathLength: int, a: Action)
    ensures Walk(leaves, [], minPathLength) == Tally(Abstain, false, 0.0, 0, [])
    ensures forall j :: SettlesOn(leaves, [], j, a) <==> j == 0
  {
  }

  /** What the last key of a walk does to its verdict. */
  lemma WalkLast(leaves: map<string, Decision>, order: seq<string>, minPathLength: int)
    requires order != [] && (forall k :: k in order ==> k in leaves) && AllLong(order, minPathLength)
    ensures var n := |order| - 1;
      var t, t' := Walk(leaves, order[..n], minPathLength), Walk(leaves, order, minPathLength);
      var action := ActionAt(leaves, order[n]);
      AllLong(order[..n], minPathLength) &&
      if t.current == Abstain || t.current == action then t'.current == action && t'.disagreed == t.disagreed
      else t'.current == t.current && t'.disagreed
  {
    hide Visit, LongEnough, NewAction;
    var n := |order| - 1;
    VisitLong(Walk(leaves, order[..n], minPathLength), order[n], leaves[order[n]], minPathLength);
  }

  /** The walk agrees on an action exactly when leaves that name none come first and the rest all name it. */
  lemma {:induction false} WalkAgreesIff(
    leaves: map<string, Decision>, order: seq<string>, minPathLength: int, a: Action)
    requires (forall k :: k in order ==> k in leaves) && AllLong(order, minPathLength) && a != Abstain
    ensures var t := Walk(leaves, order, minPathLength);
      (!t.disagreed && t.current == a <==> exists j :: j < |order| && SettlesOn(leaves, order, j, a)) &&
      (!t.disagreed && t.current == Abstain <==> SettlesOn(leaves, order, |order|, a))
    decreases |order|
  {
    hide Walk, ActionAt, SettlesOn;
    if order == [] {
      WalkNothing(leaves, minPathLength, a);
    } else {
      var n := |order| - 1;
      var rest := order[..n];
      WalkAgreesIff(leaves, rest, minPathLength, a);
      WalkLast(leaves, order, minPathLength);
      SettlesStep(leaves, order, a);
      var t, t' := Walk(leaves, rest, minPathLength), Walk(leaves, order, minPathLength);
      if !t'.disagreed && t'.current == a {
        if t.current == a {
          var j :| j < |rest| && SettlesOn(leaves, rest, j, a);
          assert SettlesOn(leaves, order, j, a);
        } else {
          assert SettlesOn(leaves, order, n, a);
        }
      }
    }
  }

  /** Under `prefix` some leaf names `a`, no leaf names another action, and those naming none come first. */
  ghost predicate Agreed(leaves: map<string, Decision>, prefix: string, a: Action) {
    (exists k :: k in leaves && prefix <= k && ActionAt(leaves, k) == a) &&
    (forall k :: k in leaves && prefix <= k ==> ActionAt(leaves, k) == a || ActionAt(leaves, k) == Abstain) &&
    (forall k, m |
      k in leaves && m in leaves && prefix <= k && prefix <= m &&
      ActionAt(leaves, k) == Abstain && ActionAt(leaves, m) == a :: Precedes(k, m))
  }

  /** What the walk in key order agrees on is a condition on the stored leaves alone. */
  lemma StoredLeavesDecide(
    leaves: map<string, Decision>, order: seq<string>, prefix: string, minPathLength: int, a: Action)
    requires Lists(order, leaves, prefix) && AllLong(order, minPathLength) && a != Abstain
    ensures var t := Walk(leaves, order, minPathLength); !t.disagreed && t.current == a <==> Agreed(leaves, prefix, a)
  {
    hide Walk, LongEnough, NewAction, Precedes;
    WalkAgreesIff(leaves, order, minPathLength, a);
    if Agreed(leaves, prefix, a) {
      var j := FirstNaming(leaves, order, prefix, a);
      assert j < |order| && SettlesOn(leaves, order, j, a);
    }
    if j :| j < |order| && SettlesOn(leaves, order, j, a) {
      assert order[j] in order;
      forall k, m | k in order && m in order && ActionAt(leaves, k) == Abstain && ActionAt(leaves, m) == a
        ensures Precedes(k, m)
      {
        var i, l :| 0 <= i < |order| && 0 <= l < |order| && order[i] == k && order[l] == m;
        assert i < j <= l;
      }
    }
  }

  /** Two leaves under `prefix` hold different actions, where naming none is one of them. */
  ghost predicate Differ(leaves: map<string, Decision>, prefix: string) {
    exists k, m ::
      k in leaves && m in leaves && prefix <= k && prefix <= m && ActionAt(leaves, k) != ActionAt(leaves, m)
  }

  /** The walk reports a disagreement exactly when two leaves differ and no action is agreed all the same. */
  lemma StoredLeavesDisagree(leaves: map<string, Decision>, order: seq<string>, prefix: string, minPathLength: int)
    requires Lists(order, leaves, prefix) && AllLong(order, minPathLength)
    ensures Walk(leaves, order, minPathLength).disagreed <==>
      Differ(leaves, prefix) && forall a :: a != Abstain ==> !Agreed(leaves, prefix, a)
  {
    hide Walk, LongEnough, NewAction, Precedes, Agreed, SettlesOn;
    var t := Walk(leaves, order, minPathLength);
    forall a | a != Abstain ensures !t.disagreed && t.current == a <==> Agreed(leaves, prefix, a) {
      StoredLeavesDecide(leaves, order, prefix, minPathLength, a);
    }
    WalkAgreesIff(leaves, order, minPathLength, Enter);
    AllAbstain(leaves, order, Enter);
    if !t.disagreed {
      assert t.current != Abstain ==> Agreed(leaves, prefix, t.current);
    } else if !Differ(leaves, prefix) && order != [] {
      AllAlike(leaves, order, prefix);
    }
  }

  lemma AllAbstain(leaves: map<string, Decision>, order: seq<string>, a: Action)
    requires forall k :: k in order ==> k in leaves
    ensures SettlesOn(leaves, order, |order|, a) <==> forall k :: k in order ==> ActionAt(leaves, k) == Abstain
  {
    hide NewAction;
    assert forall i :: 0 <= i < |order| ==> order[i] in order;
  }

  /** Leaves that do not differ all abstain or agree. */
  lemma AllAlike(leaves: map<string, Decision>, order: seq<string>, prefix: string)
    requires Lists(order, leaves, prefix) && order != [] && !Differ(leaves, prefix)
    ensures order[0] in leaves && forall k :: k in order ==> ActionAt(leaves, k) == ActionAt(leaves, order[0])
    ensures ActionAt(leaves, order[0]) == Abstain || Agreed(leaves, prefix, ActionAt(leaves, order[0]))
  {
    hide NewAction, Precedes, Ascending;
    assert order[0] in order;
  }

  lemma FirstNaming(leaves: map<string, Decision>, order: seq<string>, prefix: string, a: Action) returns (j: int)
    requires Lists(order, leaves, prefix) && Agreed(leaves, prefix, a) && a != Abstain
    ensures j < |order| && SettlesOn(leaves, order, j, a)
  {
    hide NewAction, Precedes;
    var k :| k in leaves && prefix <= k && ActionAt(leaves, k) == a;
    assert k in order;
    j := 0;
    while ActionAt(leaves, order[j]) == Abstain
      invariant 0 <= j < |order| && forall i :: 0 <= i < j ==> ActionAt(leaves, order[i]) == Abstain
      invariant exists i :: j <= i < |order| && ActionAt(leaves, order[i]) == a
      decreases |order| - j
    {
      j := j + 1;
    }
    forall i | j < i < |order| ensures ActionAt(leaves, order[i]) == a {
      assert order[i] in order && order[j] in order;
      PrecedesIsTotal(order[i], order[j]);
    }
  }

  /** Every leaf names an action. */
  ghost predicate AllNamed(leaves: map<string, Decision>) {
    forall k :: k in leaves ==> ActionAt(leaves, k) != Abstain
  }

  /** Settling on one more key. */
  lemma SettlesStep(leaves: map<string, Decision>, order: seq<string>, a: Action)
    requires order != [] && forall k :: k in order ==> k in leaves
    ensures var n := |order| - 1;
      var last := ActionAt(leaves, order[n]);
      (forall j :: j <= n ==> (SettlesOn(leaves, order, j, a) <==> SettlesOn(leaves, order[..n], j, a) && last == a)) &&
      (SettlesOn(leaves, order, |order|, a) <==> SettlesOn(leaves, order[..n], n, a) && last == Abstain)
  {
    hide NewAction;
    var n := |order| - 1;
    assert order == order[..n] + [order[n]];
    forall j | j <= n
      ensures SettlesOn(leaves, order, j, a) <==> SettlesOn(leaves, order[..n], j, a) && ActionAt(leaves, order[n]) == a
    {
    }
  }

  /** When every leaf under the cut names an action, the walk disagrees exactly when two leaves differ. */
  lemma {:induction false} WalkDisagreesIff(leaves: map<string, Decision>, order: seq<string>, minPathLength: int)
    requires (forall k :: k in order ==> k in leaves && ActionAt(leaves, k) != Abstain) && AllLong(order, minPathLength)
    ensures var t := Walk(leaves, order, minPathLength);
      (t.current == Abstain <==> order == []) && (order != [] ==> t.current == ActionAt(leaves, order[0])) &&
      (t.disagreed <==> exists i :: 0 <= i < |order| && ActionAt(leaves, order[i]) != ActionAt(leaves, order[0]))
    decreases |order|
  {
    hide Walk, ActionAt;
    WalkNothing(leaves, minPathLength, Enter);
    if order != [] {
      var n := |order| - 1;
      WalkDisagreesIff(leaves, order[..n], minPathLength);
      WalkLast(leaves, order, minPathLength);
      assert order[n] in order && order[0] in order;
      if n > 0 {
        assert order[..n][0] == order[0];
        assert forall i :: 0 <= i < n ==> order[..n][i] == order[i];
      } else {
        assert order[..n] == [];
      }
    }
  }

  /** An agreeing walk marks every leaf above the threshold, and never marks another. */
  lemma {:induction false} WalkPrunes(leaves: map<string, Decision>, order: seq<string>, minPathLength: int)
    requires (forall k :: k in order ==> k in leaves) && AllLong(order, minPathLength)
    ensures var t := Walk(leaves, order, minPathLength);
      (forall k :: k in t.prunes ==> k in order && leaves[k].resistance > PRUNE_ABOVE) &&
      (!t.disagreed ==> forall k :: k in order && leaves[k].resistance > PRUNE_ABOVE ==> k in t.prunes)
    decreases |order|
  {
    if order != [] {
      WalkPrunes(leaves, order[..|order| - 1], minPathLength);
    }
  }

  /** When every leaf names an action, the walk marks the leaves above the threshold that name the first one's. */
  lemma {:induction false} WalkPrunesIff(leaves: map<string, Decision>, order: seq<string>, minPathLength: int)
    requires (forall k :: k in order ==> k in leaves && ActionAt(leaves, k) != Abstain) && AllLong(order, minPathLength)
    ensures var t := Walk(leaves, order, minPathLength);
      forall k :: k in t.prunes <==>
        k in order && leaves[k].resistance > PRUNE_ABOVE && ActionAt(leaves, k) == ActionAt(leaves, order[0])
    decreases |order|
  {
    if order != [] {
      hide LongEnough, NewAction;
      var n := |order| - 1;
      assert order == order[..n] + [order[n]];
      WalkPrunesIff(leaves, order[..n], minPathLength);
      WalkDisagreesIff(leaves, order[..n], minPathLength);
    }
  }

  /** The sum and the number of the leaves not marked. */
  function KeptTotal(leaves: map<string, Decision>, order: seq<string>): (real, nat)
    requires forall k :: k in order ==> k in leaves
  {
    if order == [] then (0.0, 0)
    else
      var n := |order| - 1;
      var (total, count) := KeptTotal(leaves, order[..n]);
      var r := leaves[order[n]].resistance;
      if r > PRUNE_ABOVE then (total, count) else (total + r, count + 1)
  }

  /** The leaves a walk keeps: those not above 0.8. */
  ghost function Kept(leaves: map<string, Decision>, order: seq<string>): set<string>
    requires forall k :: k in order ==> k in leaves
  {
    set k | k in order && leaves[k].resistance <= 0.8
  }

  /** The kept leaves are counted once each, and their mean lies between their extremes. */
  lemma {:induction false} KeptMean(leaves: map<string, Decision>, order: seq<string>, lo: real, hi: real)
    requires (forall k :: k in order ==> k in leaves) && Ascending(order)
    requires forall k :: k in order && leaves[k].resistance <= 0.8 ==> lo <= leaves[k].resistance <= hi
    ensures var (total, count) := KeptTotal(leaves, order);
      count == |Kept(leaves, order)| && Many(lo, count) <= total <= Many(hi, count)
    decreases |order|
  {
    hide Precedes, Many, Kept;
    if order != [] {
      var n := |order| - 1;
      KeptMean(leaves, order[..n], lo, hi);
      var (_, count) := KeptTotal(leaves, order[..n]);
      OneMore(lo, count);
      OneMore(hi, count);
      KeptGrows(leaves, order);
      assert order[n] in order;
    } else {
      OneMore(lo, 0);
      OneMore(hi, 0);
      KeptGrows(leaves, order);
    }
  }

  ghost function Many(x: real, n: nat): real {
    x * n as real
  }

  lemma OneMore(x: real, n: nat)
    ensures Many(x, n + 1) == Many(x, n) + x && Many(x, 0) == 0.0
  {
  }

  lemma KeptGrows(leaves: map<string, Decision>, order: seq<string>)
    requires (forall k :: k in order ==> k in leaves) && Ascending(order)
    ensures order == [] ==> Kept(leaves, order) == {}
    ensures order != [] ==>
      var n := |order| - 1;
      |Kept(leaves, order)| == |Kept(leaves, order[..n])| + if leaves[order[n]].resistance <= 0.8 then 1 else 0
  {
    hide Precedes;
    if order != [] {
      var n := |order| - 1;
      var rest, last := order[..n], order[n];
      assert order == rest + [last];
      forall k | k in rest ensures k != last {
        PrecedesIsTotal(k, last);
      }
      assert Kept(leaves, order) == Kept(leaves, rest) + if leaves[last].resistance <= 0.8 then {last} else {};
    }
  }

  /** An agreeing walk averages exactly the leaves it keeps. */
  lemma {:induction false} WalkAverages(leaves: map<string, Decision>, order: seq<string>, minPathLength: int)
    requires (forall k :: k in order ==> k in leaves) && AllLong(order, minPathLength)
    ensures var t := Walk(leaves, order, minPathLength);
      !t.disagreed ==> (t.total, t.count) == KeptTotal(leaves, order)
    decreases |order|
  {
    if order != [] {
      WalkAverages(leaves, order[..|order| - 1], minPathLength);
    }
  }

  /** A leaf whose action is unknown, met first, is passed over: the walk then names what it does not. */
  lemma UnknownActionIsPassedOver()
    ensures var leaves := map["A/A" := Decision("", 0.5), "A/B" := Decision("enter", 0.5)];
      var t := Walk(leaves, ["A/A", "A/B"], 1);
      !t.disagreed && t.current == Enter && ActionAt(leaves, "A/A") == Abstain
  {
    var leaves := map["A/A" := Decision("", 0.5), "A/B" := Decision("enter", 0.5)];
    assert ["A/A", "A/B"][..1] == ["A/A"] && ["A/A"][..0] == [];
    assert Walk(leaves, ["A/A"], 1) == Tally(Abstain, false, 0.5, 1, []);
  }

  // ------------------------------------------------------------------ ledger

  /** What has happened to the tree. */
  datatype Event =
    | Seeded(path: string, decision: Decision)
    | Settled(path: string, delta: real)
    | Removed(path: string)

  /** The resistance of `key` after the events, or None when it is not in the tree. */
  ghost function Ledger(log: seq<Event>, key: string): Option<real> {
    if log == [] then None
    else
      var before := Ledger(log[..|log| - 1], key);
      match log[|log| - 1]
      case Seeded(path, d) => if path == key then Some(d.resistance) else before
      case Settled(path, delta) => if path <= key && before.Some? then Some(before.value + delta) else before
      case Removed(path) => if path == key then None else before
  }

  /** The sum of the settlements whose path is a prefix of `key`. */
  ghost function DeltaSum(log: seq<Event>, key: string): real {
    if log == [] then 0.0
    else
      var last := log[|log| - 1];
      DeltaSum(log[..|log| - 1], key) + if last.Settled? && last.path <= key then last.delta else 0.0
  }

  ghost predicate Untouched(log: seq<Event>, key: string) {
    forall i :: 0 <= i < |log| ==> log[i].Settled? || log[i].path != key
  }

  /** A live leaf holds its seed plus every settlement above it since it was seeded. */
  lemma {:induction false} ResistanceIsSeedPlusDeltas(log: seq<Event>, key: string) returns (at: int)
    requires Ledger(log, key).Some?
    ensures 0 <= at < |log| && log[at].Seeded? && log[at].path == key && Untouched(log[at + 1..], key)
    ensures Ledger(log, key).value == log[at].decision.resistance + DeltaSum(log[at + 1..], key)
  {
    var n := |log| - 1;
    var last := log[n];
    if last.Seeded? && last.path == key {
      at := n;
      assert log[at + 1..] == [];
    } else {
      at := ResistanceIsSeedPlusDeltas(log[..n], key);
      assert log[..n][at + 1..] == log[at + 1..n];
      assert log[at + 1..][..n - at - 1] == log[at + 1..n];
    }
  }

  // ---------------------------------------------- what the calls do to the leaves

  /** Whether seeding `path` would write a leaf. */
  predicate Seeds(leaves: map<string, Decision>, path: string, action: Action, minPathLength: int) {
    path != "" && action != Abstain && LongEnough(path, minPathLength) && path !in leaves
  }

  function SeedOf(action: Action): Decision {
    Decision(Name(action), SEED_RESISTANCE)
  }

  ghost function Ensured(leaves: map<string, Decision>, path: string, action: Action, minPathLength: int)
    : map<string, Decision>
  {
    if Seeds(leaves, path, action, minPathLength) then leaves[path := SeedOf(action)] else leaves
  }

  ghost function SeedEvents(leaves: map<string, Decision>, path: string, action: Action, minPathLength: int)
    : seq<Event>
  {
    if Seeds(leaves, path, action, minPathLength) then [Seeded(path, SeedOf(action))] else []
  }

  ghost function Updated(leaves: map<string, Decision>, path: string, delta: real, minPathLength: int)
    : map<string, Decision>
  {
    map k | k in leaves :: leaves[k].(resistance := leaves[k].resistance + Push(path, k, minPathLength, delta))
  }

  ghost function MoveEvents(path: string, delta: real, minPathLength: int): seq<Event> {
    if path != "" && LongEnough(path, minPathLength) then [Settled(path, delta)] else []
  }

  /** A settlement's delta: a profit eases both paths, anything else stiffens them. */
  function DeltaOf(profitable: bool): real {
    if profitable then -0.05 else 0.05
  }

  ghost function SeededBoth(leaves: map<string, Decision>, entryPath: string, exitPath: string, minPathLength: int)
    : map<string, Decision>
  {
    Ensured(Ensured(leaves, entryPath, Enter, minPathLength), exitPath, Exit, minPathLength)
  }

  ghost function UpdatedBoth(leaves: map<string, Decision>, entryPath: string, exitPath: string,
                             minPathLength: int, delta: real): map<string, Decision> {
    Updated(Updated(leaves, entryPath, delta, minPathLength), exitPath, delta, minPathLength)
  }

  ghost function Closed(leaves: map<string, Decision>, entryPath: string, exitPath: string,
                        profitable: bool, minPathLength: int): map<string, Decision> {
    if exitPath == "" || exitPath == entryPath then leaves
    else
      var seeded := SeededBoth(leaves, entryPath, exitPath, minPathLength);
      UpdatedBoth(seeded, entryPath, exitPath, minPathLength, DeltaOf(profitable))
  }

  ghost function CloseEvents(leaves: map<string, Decision>, entryPath: string, exitPath: string,
                             profitable: bool, minPathLength: int): seq<Event> {
    if exitPath == "" || exitPath == entryPath then []
    else
      var delta := DeltaOf(profitable);
      SeedEvents(leaves, entryPath, Enter, minPathLength) +
      SeedEvents(Ensured(leaves, entryPath, Enter, minPathLength), exitPath, Exit, minPathLength) +
      MoveEvents(entryPath, delta, minPathLength) + MoveEvents(exitPath, delta, minPathLength)
  }

  /** The keys a prediction under `tokens` removes. */
  ghost function Marked(leaves: map<string, Decision>, tokens: seq<string>, minPathLength: int): seq<string> {
    if |tokens| < minPathLength then []
    else Walk(leaves, Listing(leaves, Join(tokens, "/")), minPathLength).prunes
  }

  ghost function Without(leaves: map<string, Decision>, keys: seq<string>): map<string, Decision> {
    leaves - (set k | k in keys)
  }

  ghost function Removals(keys: seq<string>): seq<Event> {
    seq(|keys|, i requires 0 <= i < |keys| => Removed(keys[i]))
  }

  class Tree {
    const minPathLength: int
    var leaves: map<string, Decision>
    ghost var log: seq<Event>

    /** The tree is exactly what the ledger says. */
    ghost predicate Valid()
      reads this
    {
      forall key :: if key in leaves then Ledger(log, key) == Some(leaves[key].resistance) else Ledger(log, key) == None
    }

    constructor (minPathLength: int)
      ensures Valid() && leaves == map[] && log == [] && this.minPathLength == minPathLength
    {
      this.minPathLength := minPathLength;
      leaves, log := map[], [];
    }

    /** Writes a decision leaf. */
    method Insert(path: string, decision: Decision)
      requires Valid()
      modifies this
      ensures Valid()
      ensures if path == "" || !LongEnough(path, minPathLength) then leaves == old(leaves) && log == old(log)
              else leaves == old(leaves)[path := decision] && log == old(log) + [Seeded(path, decision)]
    {
      hide LongEnough;
      if path == "" || !LongEnough(path, minPathLength) {
        return;
      }
      Appended(log, Seeded(path, decision));
      leaves := leaves[path := decision];
      log := log + [Seeded(path, decision)];
    }

    /** Seeds a leaf once; an existing leaf keeps its resistance. */
    method Ensure(path: string, action: Action)
      requires Valid()
      modifies this
      ensures Valid() && forall key :: key in old(leaves) ==> key in leaves && leaves[key] == old(leaves)[key]
      ensures leaves == Ensured(old(leaves), path, action, minPathLength)
      ensures log == old(log) + SeedEvents(old(leaves), path, action, minPathLength)
      ensures AllNamed(old(leaves)) ==> AllNamed(leaves)
    {
      hide LongEnough, Ledger;
      if path == "" || action == Abstain || !LongEnough(path, minPathLength) || path in leaves {
        return;
      }
      Insert(path, SeedOf(action));
    }

    /** Applies a settled delta to every decision under `path`. */
    method Update(path: string, delta: real)
      requires Valid()
      modifies this
      ensures Valid()
      ensures leaves == Updated(old(leaves), path, delta, minPathLength)
      ensures log == old(log) + MoveEvents(path, delta, minPathLength)
      ensures AllNamed(old(leaves)) ==> AllNamed(leaves)
    {
      hide LongEnough;
      if path == "" || !LongEnough(path, minPathLength) {
        return;
      }
      Appended(log, Settled(path, delta));
      var pending := leaves.Keys;
      ghost var before := leaves;
      while pending != {}
        invariant pending <= leaves.Keys == before.Keys && log == old(log)
        invariant forall k :: k in pending ==> leaves[k] == before[k]
        invariant forall k :: k in leaves.Keys - pending ==> leaves[k] == Moved(before[k], path <= k, delta)
        decreases |pending|
      {
        var key :| key in pending;
        pending := pending - {key};
        if path <= key {
          leaves := leaves[key := leaves[key].(resistance := leaves[key].resistance + delta)];
        }
      }
      log := log + [Settled(path, delta)];
    }

    method Delete(path: string)
      requires Valid()
      modifies this
      ensures Valid() && leaves == old(leaves) - {path} && log == old(log) + [Removed(path)]
    {
      Appended(log, Removed(path));
      leaves := leaves - {path};
      log := log + [Removed(path)];
    }

    /**
      Settles a closed position: both its paths are seeded if new, then both are updated by the same
      delta. A leaf under both paths moves twice.
     */
    method SettleExit(entryPath: string, exitPath: string, profitable: bool)
      requires Valid()
      modifies this
      ensures Valid()
      ensures leaves == Closed(old(leaves), entryPath, exitPath, profitable, minPathLength)
      ensures log == old(log) + CloseEvents(old(leaves), entryPath, exitPath, profitable, minPathLength)
      ensures exitPath != "" && exitPath != entryPath ==>
        leaves.Keys == old(leaves).Keys + Seedable(entryPath, minPathLength) + Seedable(exitPath, minPathLength) &&
        SettledTwice(old(leaves), leaves, entryPath, exitPath, minPathLength, DeltaOf(profitable))
      ensures AllNamed(old(leaves)) ==> AllNamed(leaves)
    {
      hide LongEnough, Ledger, Valid, AllNamed, Ensured, Updated, SeedEvents, MoveEvents, Seedable, SettledTwice;
      if exitPath == "" || exitPath == entryPath {
        return;
      }
      Ensure(entryPath, Enter);
      Ensure(exitPath, Exit);
      var delta := DeltaOf(profitable);
      Update(entryPath, delta);
      Update(exitPath, delta);
      ClosedMoves(old(leaves), entryPath, exitPath, profitable, minPathLength);
    }

    /** Keys under `prefix`, in the radix tree's order. */
    method Enumerate(prefix: string) returns (order: seq<string>)
      ensures Lists(order, leaves, prefix)
    {
      order := [];
      var pending := leaves.Keys;
      while pending != {}
        invariant pending <= leaves.Keys
        invariant forall k :: k in order <==> k in leaves.Keys - pending && prefix <= k
        invariant Ascending(order)
        decreases |pending|
      {
        var key :| key in pending;
        pending := pending - {key};
        if prefix <= key {
          PlacedAscends(order, key);
          order := Placed(order, key);
        }
      }
    }

    /**
      The agreed action and average resistance under the cut, the leaves met in key order.
      Leaves above the threshold that the walk marks are removed; nothing else changes.
     */
    method Predict(tokens: seq<string>, brightness: real)
      returns (action: Action, resistance: real, disagreed: bool, ghost order: seq<string>)
      requires Valid()
      modifies this
      ensures Valid() && order == Listing(old(leaves), Join(tokens, "/"))
      ensures leaves == Without(old(leaves), Marked(old(leaves), tokens, minPathLength))
      ensures log == old(log) + Removals(Marked(old(leaves), tokens, minPathLength))
      ensures |tokens| < minPathLength ==> action == Abstain && resistance == 0.0 && !disagreed
      ensures |tokens| >= minPathLength ==> AllLong(order, minPathLength)
      ensures |tokens| >= minPathLength ==>
        Concludes(Walk(old(leaves), order, minPathLength), brightness, action, resistance, disagreed)
      ensures AllNamed(old(leaves)) ==> AllNamed(leaves)
    {
      hide Ledger, LongEnough, Visit, Precedes;
      var keys := Enumerate(Join(tokens, "/"));
      order := keys;
      AscendingIsUnique(order, Listing(leaves, Join(tokens, "/")));
      if |tokens| < minPathLength {
        return Abstain, 0.0, false, order;
      }
      CutIsLong(tokens, order, minPathLength);
      var t := Tally(Abstain, false, 0.0, 0, []);
      for i := 0 to |keys|
        invariant t == Walk(leaves, keys[..i], minPathLength)
      {
        assert keys[..i + 1][..i] == keys[..i];
        t := Visit(t, keys[i], leaves[keys[i]], minPathLength);
      }
      assert keys[..|keys|] == keys;
      Prune(t.prunes);
      if t.disagreed {
        return Abstain, 0.0, true, order;
      }
      if t.count == 0 {
        return Abstain, 0.0, false, order;
      }
      var average := t.total / t.count as real;
      if brightness <= average {
        return Abstain, 0.0, false, order;
      }
      return t.current, average, false, order;
    }

    method Prune(prunes: seq<string>)
      requires Valid()
      modifies this
      ensures Valid() && leaves == Without(old(leaves), prunes) && log == old(log) + Removals(prunes)
    {
      hide Ledger;
      for i := 0 to |prunes|
        invariant Valid() && leaves == Without(old(leaves), prunes[..i]) && log == old(log) + Removals(prunes[..i])
      {
        Delete(prunes[i]);
        assert prunes[..i + 1] == prunes[..i] + [prunes[i]];
      }
      assert prunes[..|prunes|] == prunes;
    }
  }

  /** What the walk's tally comes to: an action only if it is agreed and bright enough for its average. */
  ghost predicate Concludes(t: Tally, brightness: real, action: Action, resistance: real, disagreed: bool) {
    disagreed == t.disagreed &&
    if !t.disagreed && t.count > 0 && brightness > t.total / t.count as real
    then action == t.current && resistance == t.total / t.count as real
    else action == Abstain && resistance == 0.0
  }

  /**
    If Predict names an action, the stored leaves agree on it: with every leaf naming an action all of
    them name that one. Its resistance is the average of the leaves not above the threshold, and none
    above it survives.
   */
  lemma PredictionIsUnanimous(before: map<string, Decision>, after: map<string, Decision>, order: seq<string>,
                              prefix: string, minPathLength: int, brightness: real, action: Action, resistance: real)
    requires Lists(order, before, prefix) && AllLong(order, minPathLength)
    requires var t := Walk(before, order, minPathLength);
      after == Without(before, t.prunes) && Concludes(t, brightness, action, resistance, false)
    requires action != Abstain
    ensures Agreed(before, prefix, action)
    ensures AllNamed(before) ==> forall k :: k in before && prefix <= k ==> ActionAt(before, k) == action
    ensures forall k :: k in after && prefix <= k ==> after[k].resistance <= PRUNE_ABOVE
    ensures forall k :: k in before && !(prefix <= k) ==> k in after && after[k] == before[k]
    ensures var (total, count) := KeptTotal(before, order);
      count > 0 && resistance == total / count as real < brightness
  {
    hide Walk, LongEnough, NewAction, Precedes;
    StoredLeavesDecide(before, order, prefix, minPathLength, action);
    WalkPrunes(before, order, minPathLength);
    WalkAverages(before, order, minPathLength);
  }

  /** The path itself, if it may hold a leaf. */
  ghost function Seedable(path: string, minPathLength: int): set<string> {
    if path != "" && LongEnough(path, minPathLength) then {path} else {}
  }

  /** A leaf's resistance, or the seed it would start from. */
  ghost function SeededAt(leaves: map<string, Decision>, key: string): real {
    if key in leaves then leaves[key].resistance else SEED_RESISTANCE
  }

  /** How far settling `path` moves the leaf `key`. */
  ghost function Push(path: string, key: string, minPathLength: int, delta: real): real {
    if path != "" && LongEnough(path, minPathLength) && path <= key then delta else 0.0
  }

  /** Every leaf holds its seed or former resistance, moved once for each of the two paths above it. */
  ghost predicate SettledTwice(before: map<string, Decision>, after: map<string, Decision>,
                               entryPath: string, exitPath: string, minPathLength: int, delta: real) {
    forall k :: k in after ==>
      var base := SeededAt(before, k);
      after[k].resistance == base + Push(entryPath, k, minPathLength, delta) + Push(exitPath, k, minPathLength, delta)
  }

  function Moved(d: Decision, applies: bool, delta: real): Decision {
    if applies then d.(resistance := d.resistance + delta) else d
  }

  /** A settlement adds its two paths and moves every leaf once for each of them above it. */
  lemma ClosedMoves(
    leaves: map<string, Decision>, entryPath: string, exitPath: string, profitable: bool, minPathLength: int)
    requires exitPath != "" && exitPath != entryPath
    ensures var after := Closed(leaves, entryPath, exitPath, profitable, minPathLength);
      after.Keys == leaves.Keys + Seedable(entryPath, minPathLength) + Seedable(exitPath, minPathLength) &&
      SettledTwice(leaves, after, entryPath, exitPath, minPathLength, DeltaOf(profitable))
  {
    hide LongEnough, Push;
    var seeded := SeededBoth(leaves, entryPath, exitPath, minPathLength);
    assert forall k :: k in seeded ==> seeded[k].resistance == SeededAt(leaves, k);
  }

  /**
    What a close teaches: for each of its two long enough paths above a leaf, a profit lowers the leaf's
    resistance by 0.05 and anything else raises it by 0.05. A new leaf starts from 0.5.
   */
  lemma ProfitEasesLossStiffens(
    leaves: map<string, Decision>, entryPath: string, exitPath: string, profitable: bool, minPathLength: int,
    key: string)
    requires exitPath != "" && exitPath != entryPath
    requires key in Closed(leaves, entryPath, exitPath, profitable, minPathLength)
    ensures var before := if key in leaves then leaves[key].resistance else 0.5;
      var after := Closed(leaves, entryPath, exitPath, profitable, minPathLength)[key].resistance;
      var paths := PathsAbove(entryPath, exitPath, key, minPathLength);
      after == (if profitable then before - 0.05 * paths as real else before + 0.05 * paths as real) &&
      (key !in leaves ==> paths > 0)
  {
    ClosedMoves(leaves, entryPath, exitPath, profitable, minPathLength);
  }

  /** The path may hold a leaf and is a prefix of `key`. */
  ghost predicate Above(path: string, key: string, minPathLength: int) {
    path != "" && Slashes(path) + 1 >= minPathLength && path <= key
  }

  ghost function PathsAbove(entryPath: string, exitPath: string, key: string, minPathLength: int): nat {
    (if Above(entryPath, key, minPathLength) then 1 else 0) + if Above(exitPath, key, minPathLength) then 1 else 0
  }

  lemma Appended(log: seq<Event>, e: Event)
    ensures (log + [e])[..|log|] == log
  {
  }

  lemma CutIsLong(tokens: seq<string>, order: seq<string>, minPathLength: int)
    requires |tokens| >= minPathLength && forall k :: k in order ==> Join(tokens, "/") <= k
    ensures AllLong(order, minPathLength)
  {
    JoinedSlashes(tokens);
    forall i | 0 <= i < |order| ensures LongEnough(order[i], minPathLength) {
      var prefix, key := Join(tokens, "/"), order[i];
      assert key in order;
      SlashesConcat(prefix, key[|prefix|..]);
      assert key == prefix + key[|prefix|..];
    }
  }
}
