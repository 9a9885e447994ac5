/** The breathing stop: a floor that follows the mark, never under the hard loss rail. */
module StoplossModel {
  import opened Numbers

  datatype Phase = Init | Healthy | Dangerous | Critical | Protected | Triggered

  /** The stop's memory. `maxLoss` is the hard rail and `target` its mirror image. */
  datatype Stop = Stop(
    phase: Phase, initial: real, maxLoss: real, target: real,
    previous: real, current: real, peak: real, floor: real)

  function Abs(x: real): real {
    if x < 0.0 then -x else x
  }

  /** One minus a ratio clamped to [0, 1]. */
  function Nearness(room: real, span: real): (r: real)
    requires span > 0.0
    ensures 0.0 <= r <= 1.0
  {
    1.0 - MaxReal(0.0, MinReal(1.0, room / span))
  }

  function NewStop(entry: real, maxAllowedLoss: real): Stop {
    Stop(Init, entry, -maxAllowedLoss, maxAllowedLoss, entry, entry, entry, -maxAllowedLoss)
  }

  /** The floor after a mark: widened on the way up, tightened on the way down. */
  function Breathe(floor: real, maxLoss: real, target: real, previous: real, pnl: real, pace: real): real {
    var delta, span := pnl - previous, target - maxLoss;
    if delta == 0.0 || span <= 0.0 then floor
    else
      var nearFloor, nearProfit := Nearness(pnl - floor, span), Nearness(target - pnl, span);
      var move := Abs(delta) * pace;
      if delta > 0.0 then floor - move * (1.0 - nearFloor) else floor + move * MaxReal(nearFloor, nearProfit)
  }

  function Health(floor: real, target: real, initial: real, pnl: real): Phase {
    var roomToFloor, roomToProfit := pnl - floor, target - pnl;
    if roomToFloor < roomToProfit then
      if Abs(initial) > 0.0 && roomToFloor < Abs(initial) then Critical else Dangerous
    else Healthy
  }

  /** The floor a mark leaves, before a protected stop lifts it to zero. */
  function RailedFloor(s: Stop, pnl: real, pace: real): real {
    MaxReal(Breathe(s.floor, s.maxLoss, s.target, s.current, pnl, pace), s.maxLoss)
  }

  /** One mark. */
  function Step(s: Stop, pnl: real, pace: real): Stop {
    if s.phase == Triggered then s
    else
      var floor := RailedFloor(s, pnl, pace);
      var t := s.(previous := s.current, current := pnl, peak := MaxReal(s.peak, pnl), floor := floor);
      if pnl <= floor then t.(phase := Triggered)
      else if pnl >= s.target then t.(phase := Protected, floor := MaxReal(floor, 0.0))
      else t.(phase := Health(floor, s.target, s.initial, pnl))
  }

  class Stoploss {
    var state: Phase
    var initialPnLPct: real
    var maxLossPct: real
    var profitTargetPct: real
    var previousPnLPct: real
    var currentPnLPct: real
    var peakPnLPct: real
    var floorPnLPct: real

    ghost function View(): Stop
      reads this
    {
      Stop(state, initialPnLPct, maxLossPct, profitTargetPct, previousPnLPct, currentPnLPct, peakPnLPct, floorPnLPct)
    }

    constructor (pnl: real, maxAllowedLossPct: real)
      ensures View() == NewStop(pnl, maxAllowedLossPct)
    {
      state, initialPnLPct, maxLossPct, profitTargetPct := Init, pnl, -maxAllowedLossPct, maxAllowedLossPct;
      previousPnLPct, currentPnLPct, peakPnLPct, floorPnLPct := pnl, pnl, pnl, -maxAllowedLossPct;
    }

    /** Takes one mark; `pace` is how fast marks arrive against their baseline. */
    method Update(pnl: real, pace: real)
      modifies this
      ensures View() == Step(old(View()), pnl, pace)
    {
      if state == Triggered {
        return;
      }
      previousPnLPct := currentPnLPct;
      currentPnLPct := pnl;
      if pnl > peakPnLPct {
        peakPnLPct := pnl;
      }
      Move(pnl, pace);
      if floorPnLPct < maxLossPct {
        floorPnLPct := maxLossPct;
      }
      if pnl <= floorPnLPct {
        state := Triggered;
        return;
      }
      if pnl >= profitTargetPct {
        state := Protected;
        if floorPnLPct < 0.0 {
          floorPnLPct := 0.0;
        }
        return;
      }
      state := Health(floorPnLPct, profitTargetPct, initialPnLPct, pnl);
    }

    method Move(pnl: real, pace: real)
      modifies this`floorPnLPct
      ensures floorPnLPct == Breathe(old(floorPnLPct), maxLossPct, profitTargetPct, previousPnLPct, pnl, pace)
    {
      var delta := pnl - previousPnLPct;
      if delta == 0.0 {
        return;
      }
      var span := profitTargetPct - maxLossPct;
      if span <= 0.0 {
        return;
      }
      var nearFloor := Nearness(pnl - floorPnLPct, span);
      var nearProfit := Nearness(profitTargetPct - pnl, span);
      var move := Abs(delta) * pace;
      if delta > 0.0 {
        floorPnLPct := floorPnLPct - move * (1.0 - nearFloor);
        return;
      }
      floorPnLPct := floorPnLPct + move * MaxReal(nearFloor, nearProfit);
    }
  }

  // ------------------------------------------------------------- whole runs

  /** A mark and the pace it arrived at. */
  datatype Mark = Mark(pnl: real, pace: real)

  function Run(s: Stop, marks: seq<Mark>): Stop {
    if marks == [] then s
    else
      var n := |marks| - 1;
      Step(Run(s, marks[..n]), marks[n].pnl, marks[n].pace)
  }

  ghost predicate Inv(s: Stop) {
    s.target == -s.maxLoss && s.floor >= s.maxLoss && s.current <= s.peak && s.initial <= s.peak &&
    (s.phase == Protected ==> s.floor >= 0.0 && s.current >= s.target) &&
    (s.phase != Init && s.phase != Triggered ==> s.current > s.floor)
  }

  lemma StepKeepsInv(s: Stop, pnl: real, pace: real)
    requires Inv(s)
    ensures Inv(Step(s, pnl, pace)) && Step(s, pnl, pace).maxLoss == s.maxLoss
    ensures s.phase == Triggered ==> Step(s, pnl, pace) == s
  {
    hide Breathe;
  }

  /**
    Over every sequence of marks and paces: the floor stays on or above the rail, a protected stop's floor
    is at least zero, and while the stop has not triggered every mark was strictly above the rail, the
    last one strictly above the floor, and the peak is the highest of the entry and the marks.
   */
  lemma {:induction false} EveryRunIsSafe(entry: real, maxAllowedLoss: real, marks: seq<Mark>)
    ensures var s := Run(NewStop(entry, maxAllowedLoss), marks);
      Inv(s) && s.maxLoss == -maxAllowedLoss && s.floor >= -maxAllowedLoss &&
      (s.phase == Protected ==> s.floor >= 0.0) && (s.phase == Init <==> marks == []) &&
      (s.phase != Triggered ==> Survived(s, entry, marks))
  {
    hide Step;
    if marks != [] {
      var n := |marks| - 1;
      EveryRunIsSafe(entry, maxAllowedLoss, marks[..n]);
      var before := Run(NewStop(entry, maxAllowedLoss), marks[..n]);
      StepKeepsInv(before, marks[n].pnl, marks[n].pace);
      Surviving(before, marks[n].pnl, marks[n].pace);
    }
  }

  ghost predicate Survived(s: Stop, entry: real, marks: seq<Mark>) {
    (forall i :: 0 <= i < |marks| ==> s.maxLoss < marks[i].pnl <= s.peak) && entry <= s.peak &&
    (s.peak == entry || exists i :: 0 <= i < |marks| && marks[i].pnl == s.peak) &&
    (marks != [] ==> s.current == marks[|marks| - 1].pnl > s.floor)
  }

  lemma Surviving(s: Stop, pnl: real, pace: real)
    requires Inv(s)
    ensures Step(s, pnl, pace).phase != Triggered ==>
      s.phase != Triggered && Step(s, pnl, pace).current == pnl > Step(s, pnl, pace).floor &&
      pnl > s.maxLoss && Step(s, pnl, pace).peak == MaxReal(s.peak, pnl)
    ensures Step(s, pnl, pace).maxLoss == s.maxLoss
    ensures s.phase != Triggered ==> Step(s, pnl, pace).phase != Init
  {
    hide Breathe;
  }

  /** Once triggered, no mark changes anything. */
  lemma {:induction false} TriggeredIsAbsorbing(s: Stop, marks: seq<Mark>)
    requires s.phase == Triggered
    ensures Run(s, marks) == s
  {
    if marks != [] {
      TriggeredIsAbsorbing(s, marks[..|marks| - 1]);
    }
  }

  lemma ProductIsPositive(x: real, y: real)
    requires x >= 0.0 && y >= 0.0
    ensures x * y >= 0.0
  {
  }

  /** With a non-negative pace a falling mark never lowers the floor and a rising mark never raises it, zero aside. */
  lemma FloorFollowsTheMark(s: Stop, pnl: real, pace: real)
    requires pace >= 0.0 && s.floor >= s.maxLoss
    ensures pnl <= s.current ==> Step(s, pnl, pace).floor >= s.floor
    ensures pnl >= s.current ==> RailedFloor(s, pnl, pace) <= s.floor
  {
    hide Breathe;
    BreatheDirection(s.floor, s.maxLoss, s.target, s.current, pnl, pace);
  }

  lemma BreatheDirection(floor: real, maxLoss: real, target: real, previous: real, pnl: real, pace: real)
    requires pace >= 0.0
    ensures pnl <= previous ==> Breathe(floor, maxLoss, target, previous, pnl, pace) >= floor
    ensures pnl >= previous ==> Breathe(floor, maxLoss, target, previous, pnl, pace) <= floor
  {
    hide Nearness, Abs;
    var delta, span := pnl - previous, target - maxLoss;
    if delta != 0.0 && span > 0.0 {
      var nearFloor, nearProfit := Nearness(pnl - floor, span), Nearness(target - pnl, span);
      AbsIsPositive(delta);
      ProductIsPositive(Abs(delta), pace);
      var move := Abs(delta) * pace;
      if delta > 0.0 {
        ProductIsPositive(move, 1.0 - nearFloor);
      } else {
        ProductIsPositive(move, MaxReal(nearFloor, nearProfit));
      }
    }
  }

  lemma AbsIsPositive(x: real)
    ensures Abs(x) >= 0.0
  {
  }

  /** How far a rising mark pulls the floor down. */
  function Widening(s: Stop, pnl: real, pace: real): real
    requires s.target > s.maxLoss
  {
    Abs(pnl - s.current) * pace * (1.0 - Nearness(pnl - s.floor, s.target - s.maxLoss))
  }

  /**
    A live stop whose floor is at least zero gets a negative floor from a mark exactly when that mark
    rises, stays under the profit target and widens the floor by more than it stood above zero.
   */
  lemma FloorFallsBelowZeroIff(s: Stop, pnl: real, pace: real)
    requires Inv(s) && s.phase != Init && s.phase != Triggered && s.floor >= 0.0 && pace >= 0.0 && s.maxLoss < 0.0
    ensures Step(s, pnl, pace).floor < 0.0 <==>
      s.current < pnl < s.target && Widening(s, pnl, pace) > s.floor
  {
    FloorFollowsTheMark(s, pnl, pace);
    hide Nearness;
    if pnl > s.current {
      assert Breathe(s.floor, s.maxLoss, s.target, s.current, pnl, pace) == s.floor - Widening(s, pnl, pace);
    }
  }

  /** From a protected state the very next mark cannot take the floor below zero. */
  lemma ProtectedHoldsOneMark(s: Stop, pnl: real, pace: real)
    requires Inv(s) && s.phase == Protected && pace >= 0.0
    ensures Step(s, pnl, pace).floor >= 0.0
  {
    if s.maxLoss < 0.0 {
      FloorFallsBelowZeroIff(s, pnl, pace);
    } else {
      StepKeepsInv(s, pnl, pace);
    }
  }

  /** How bad a live phase is. */
  ghost function Severity(phase: Phase): nat {
    match phase
    case Critical => 2
    case Dangerous => 1
    case _ => 0
  }

  /**
    The health of a live stop: it is healthy exactly when the mark is at least as far from the floor as
    from the target, and critical exactly when it is closer to the floor and by less than the entry's own
    distance from zero. A lower mark is never healthier.
   */
  lemma HealthMeans(floor: real, target: real, initial: real, pnl: real, lower: real)
    requires lower <= pnl
    ensures Health(floor, target, initial, pnl) == Healthy <==> 2.0 * pnl >= floor + target
    ensures Health(floor, target, initial, pnl) == Critical <==>
      2.0 * pnl < floor + target && (pnl - floor < initial || pnl - floor < -initial) && initial != 0.0
    ensures Severity(Health(floor, target, initial, lower)) >= Severity(Health(floor, target, initial, pnl))
  {
  }

  /** The phase every mark leaves on a stop not yet triggered. */
  lemma PhaseMeans(s: Stop, pnl: real, pace: real)
    requires s.phase != Triggered
    ensures var t := Step(s, pnl, pace);
      (t.phase == Triggered <==> pnl <= RailedFloor(s, pnl, pace)) &&
      (t.phase == Protected <==> pnl > RailedFloor(s, pnl, pace) && pnl >= s.target) &&
      (t.phase == Healthy <==> t.floor < pnl < s.target && 2.0 * pnl >= t.floor + s.target) &&
      t.current == pnl && t.previous == s.current && t.peak >= pnl && (t.peak == pnl || t.peak == s.peak) &&
      t.initial == s.initial && t.maxLoss == s.maxLoss && t.target == s.target
  {
  }

  // ------------------------------------------- how long protection lasts

  lemma {:induction false} RunConcat(s: Stop, before: seq<Mark>, after: seq<Mark>)
    ensures Run(s, before + after) == Run(Run(s, before), after)
  {
    if after == [] {
      assert before + after == before;
    } else {
      var n := |after| - 1;
      RunConcat(s, before, after[..n]);
      assert (before + after)[..|before + after| - 1] == before + after[..n];
    }
  }

  /** The mark before mark `i`; the stop's own for the first. */
  function Before(s: Stop, marks: seq<Mark>, i: int): real
    requires 0 <= i <= |marks|
  {
    if i == 0 then s.current else marks[i - 1].pnl
  }

  ghost predicate Falls(s: Stop, marks: seq<Mark>, i: int) {
    0 <= i < |marks| && marks[i].pnl < Before(s, marks, i)
  }

  ghost predicate Rises(s: Stop, marks: seq<Mark>, i: int) {
    0 <= i < |marks| && marks[i].pnl > Before(s, marks, i)
  }

  ghost predicate Forward(marks: seq<Mark>) {
    forall i :: 0 <= i < |marks| ==> marks[i].pace >= 0.0
  }

  /** No rising mark arrives at more than `ratio` times the pace of an earlier falling one. */
  ghost predicate Paced(s: Stop, marks: seq<Mark>, ratio: real) {
    forall i, j :: 0 <= i < j < |marks| && Falls(s, marks, i) && Rises(s, marks, j) ==>
      marks[j].pace <= Scaled(ratio, marks[i].pace)
  }

  ghost function Scaled(ratio: real, pace: real): real {
    ratio * pace
  }

  /** `k` is at most one and a half times the pace of every falling mark. */
  ghost predicate Within(s: Stop, marks: seq<Mark>, k: real) {
    k >= 0.0 && forall i :: Falls(s, marks, i) ==> 2.0 * k <= 3.0 * marks[i].pace
  }

  /** The floor is high enough for marks rising to the target at pace `k`. */
  ghost predicate Holds(s: Stop, k: real) {
    2.0 * s.floor >= k * (s.target - s.current)
  }

  /** The floor is not negative and holds for every pace the falls so far allow. */
  ghost predicate Covered(t: Stop, s: Stop, marks: seq<Mark>) {
    t.floor >= 0.0 && (t.phase != Triggered ==> forall k :: Within(s, marks, k) ==> Holds(t, k))
  }

  lemma ScaleUp(k: real, m: real, x: real)
    requires k <= m && x >= 0.0
    ensures k * x <= m * x
  {
  }

  /** Above a floor of zero a falling mark tightens by at least three quarters of its fall times its pace. */
  lemma FallTightens(s: Stop, pnl: real, pace: real)
    requires Inv(s) && s.phase != Triggered && s.maxLoss < 0.0 && s.floor >= 0.0
    requires pace >= 0.0 && 0.0 <= pnl < s.current
    ensures 4.0 * (Breathe(s.floor, s.maxLoss, s.target, s.current, pnl, pace) - s.floor) >=
      3.0 * ((s.current - pnl) * pace)
  {
    hide Nearness;
    var span := s.target - s.maxLoss;
    var near := MaxReal(Nearness(pnl - s.floor, span), Nearness(s.target - pnl, span));
    NearIsThreeQuarters(pnl, s.floor, s.target);
    ProductIsPositive(s.current - pnl, pace);
    TightenBy(s.floor, (s.current - pnl) * pace, near);
  }

  lemma TightenBy(floor: real, move: real, near: real)
    requires move >= 0.0 && near >= 0.75
    ensures 4.0 * ((floor + move * near) - floor) >= 3.0 * move
  {
    ScaleUp(0.75, near, move);
  }

  lemma NearIsThreeQuarters(pnl: real, floor: real, target: real)
    requires target > 0.0 && floor >= 0.0 && pnl >= 0.0
    ensures MaxReal(Nearness(pnl - floor, target + target), Nearness(target - pnl, target + target)) >= 0.75
  {
    var span := target + target;
    var u, v := (pnl - floor) / span, (target - pnl) / span;
    assert u * span == pnl - floor && v * span == target - pnl;
    assert (u + v) * span == target - floor;
    assert u > 0.25 && v > 0.25 ==> (u + v) * span > 0.5 * span;
  }

  /** Under the target and above a floor of zero a rising mark widens by at most half its rise times its pace. */
  lemma RiseWidens(s: Stop, pnl: real, pace: real)
    requires Inv(s) && s.phase != Triggered && s.maxLoss < 0.0 && s.floor >= 0.0 && pace >= 0.0
    requires s.current < pnl < s.target
    ensures 2.0 * (s.floor - Breathe(s.floor, s.maxLoss, s.target, s.current, pnl, pace)) <= (pnl - s.current) * pace
  {
    var span := s.target - s.maxLoss;
    hide Nearness;
    var far := 1.0 - Nearness(pnl - s.floor, span);
    FarIsHalf(pnl, s.floor, s.target);
    ProductIsPositive(pnl - s.current, pace);
    var move := (pnl - s.current) * pace;
    ScaleUp(far, 0.5, move);
    assert Breathe(s.floor, s.maxLoss, s.target, s.current, pnl, pace) == s.floor - move * far;
  }

  lemma FarIsHalf(pnl: real, floor: real, target: real)
    requires target > 0.0 && floor >= 0.0 && pnl < target
    ensures 1.0 - Nearness(pnl - floor, target + target) <= 0.5
  {
    var span := target + target;
    var u := (pnl - floor) / span;
    assert u * span == pnl - floor;
    assert u > 0.5 ==> u * span > 0.5 * span;
  }

  lemma FallKeepsHold(s: Stop, pnl: real, pace: real, k: real)
    requires Inv(s) && s.phase != Triggered && s.maxLoss < 0.0 && s.floor >= 0.0 && pnl < s.current
    requires Holds(s, k) && 0.0 <= 2.0 * k <= 3.0 * pace
    ensures var t := Step(s, pnl, pace); t.floor >= 0.0 && (t.phase != Triggered ==> Holds(t, k))
  {
    hide Breathe;
    FloorFollowsTheMark(s, pnl, pace);
    if Step(s, pnl, pace).phase != Triggered {
      FallTightens(s, pnl, pace);
      HoldAfterFall(k, pace, s.floor, s.target, s.current, pnl, Step(s, pnl, pace).floor);
    }
  }

  lemma HoldAfterFall(k: real, pace: real, floor: real, target: real, current: real, pnl: real, floor': real)
    requires 0.0 <= 2.0 * k <= 3.0 * pace && floor >= 0.0 && 2.0 * floor >= k * (target - current) && pnl < current
    requires 4.0 * (floor' - floor) >= 3.0 * ((current - pnl) * pace)
    ensures 2.0 * floor' >= k * (target - pnl)
  {
    var d := current - pnl;
    ScaleUp(2.0 * k, 3.0 * pace, d);
    assert k * (target - pnl) == k * (target - current) + k * d;
  }

  lemma RiseKeepsHold(s: Stop, pnl: real, pace: real, k: real, m: real)
    requires Inv(s) && s.phase != Triggered && s.phase != Init && s.maxLoss < 0.0 && s.floor >= 0.0 && pnl > s.current
    requires Holds(s, m) && 0.0 <= pace <= m && 0.0 <= k <= m
    ensures var t := Step(s, pnl, pace); t.floor >= 0.0 && Holds(t, k)
  {
    hide Breathe;
    FloorFollowsTheMark(s, pnl, pace);
    var t := Step(s, pnl, pace);
    if pnl < s.target {
      RiseWidens(s, pnl, pace);
      HoldAfterRise(k, m, pace, s.floor, s.target, s.current, pnl, t.floor);
    } else {
      ProductIsPositive(k, pnl - s.target);
      assert k * (s.target - pnl) == -(k * (pnl - s.target));
    }
  }

  lemma HoldAfterRise(k: real, m: real, pace: real, floor: real, target: real, current: real, pnl: real, floor': real)
    requires 0.0 <= pace <= m && 0.0 <= k <= m && 2.0 * floor >= m * (target - current) && current < pnl < target
    requires 2.0 * (floor - floor') <= (pnl - current) * pace
    ensures 2.0 * floor' >= k * (target - pnl) >= 0.0
  {
    ScaleUp(pace, m, pnl - current);
    ScaleUp(k, m, target - pnl);
    ProductIsPositive(k, target - pnl);
    assert m * (target - current) == m * (target - pnl) + m * (pnl - current);
  }

  /** One more mark keeps the floor covered. */
  lemma MarkKeepsCover(t: Stop, s: Stop, marks: seq<Mark>)
    requires marks != [] && Forward(marks) && Paced(s, marks, 1.5)
    requires Inv(t) && t.phase != Init && t.maxLoss < 0.0 && Covered(t, s, marks[..|marks| - 1])
    requires t.phase != Triggered ==> t.current == Before(s, marks, |marks| - 1)
    ensures Covered(Step(t, marks[|marks| - 1].pnl, marks[|marks| - 1].pace), s, marks)
  {
    hide Step, Holds, Inv;
    var n := |marks| - 1;
    var m := marks[n];
    var t' := Step(t, m.pnl, m.pace);
    EarlierFalls(s, marks);
    if t.phase == Triggered {
      StepWhenTriggered(t, m.pnl, m.pace);
    } else if m.pnl < t.current {
      assert Falls(s, marks, n);
      ZeroHolds(s, marks[..n], t);
      FallKeepsHold(t, m.pnl, m.pace, 0.0);
      forall k | t'.phase != Triggered && Within(s, marks, k) ensures Holds(t', k) {
        assert Within(s, marks[..n], k);
        FallKeepsHold(t, m.pnl, m.pace, k);
      }
    } else if m.pnl > t.current {
      assert Rises(s, marks, n);
      assert Within(s, marks[..n], m.pace);
      ZeroHolds(s, marks[..n], t);
      RiseKeepsHold(t, m.pnl, m.pace, 0.0, m.pace);
      forall k | t'.phase != Triggered && Within(s, marks, k) ensures Holds(t', k) {
        assert Within(s, marks[..n], k);
        RiseKeepsHold(t, m.pnl, m.pace, k, MaxReal(k, m.pace));
      }
    } else {
      StepInPlace(t, m.pace);
      forall k | t'.phase != Triggered && Within(s, marks, k) ensures Holds(t', k) {
        assert Within(s, marks[..n], k);
      }
    }
  }

  /** A pace the marks allow, the earlier marks allow too. */
  lemma EarlierFalls(s: Stop, marks: seq<Mark>)
    requires marks != []
    ensures forall i :: 0 <= i < |marks| - 1 ==> (Falls(s, marks[..|marks| - 1], i) <==> Falls(s, marks, i))
    ensures forall i :: Falls(s, marks[..|marks| - 1], i) ==> marks[..|marks| - 1][i] == marks[i]
    ensures forall k :: Within(s, marks, k) ==> Within(s, marks[..|marks| - 1], k)
  {
  }

  lemma ZeroHolds(s: Stop, marks: seq<Mark>, t: Stop)
    requires Forward(marks) && t.floor >= 0.0
    ensures Holds(t, 0.0)
  {
  }

  lemma StepWhenTriggered(t: Stop, pnl: real, pace: real)
    requires t.phase == Triggered
    ensures Step(t, pnl, pace) == t
  {
  }

  /** A repeated mark leaves the floor where it is, or lifts it to zero. */
  lemma StepInPlace(t: Stop, pace: real)
    requires Inv(t) && t.phase != Triggered && t.floor >= 0.0
    ensures var t' := Step(t, t.current, pace);
      t'.floor == t.floor && t'.current == t.current && t'.target == t.target &&
      forall k :: Holds(t, k) ==> Holds(t', k)
  {
  }

  /**
    Protection lasts as long as no rising mark arrives at more than one and a half times the pace of an
    earlier falling one: over all such marks the floor of a stop once protected never goes below zero.
   */
  lemma {:induction false} ProtectionLasts(s: Stop, marks: seq<Mark>)
    requires Inv(s) && s.phase == Protected && Forward(marks) && Paced(s, marks, 1.5)
    ensures var t := Run(s, marks);
      Inv(t) && t.phase != Init && t.maxLoss == s.maxLoss && t.floor >= 0.0 &&
      (s.maxLoss < 0.0 ==> Covered(t, s, marks)) && (t.phase != Triggered ==> t.current == Before(s, marks, |marks|))
  {
    hide Step, Inv, Covered, Holds;
    if marks == [] {
      CoveredAtFirst(s);
    } else {
      var n := |marks| - 1;
      PacedPrefix(s, marks, 1.5);
      ProtectionLasts(s, marks[..n]);
      var t := Run(s, marks[..n]);
      StepKeepsInv(t, marks[n].pnl, marks[n].pace);
      Surviving(t, marks[n].pnl, marks[n].pace);
      if t.phase == Triggered {
        StepWhenTriggered(t, marks[n].pnl, marks[n].pace);
      }
      if s.maxLoss < 0.0 {
        MarkKeepsCover(t, s, marks);
      }
      FloorOfCovered(Step(t, marks[n].pnl, marks[n].pace), s, marks);
    }
  }

  lemma CoveredAtFirst(s: Stop)
    requires Inv(s) && s.phase == Protected
    ensures s.floor >= 0.0 && Covered(s, s, [])
  {
    forall k | Within(s, [], k) ensures Holds(s, k) {
      ProductIsPositive(k, s.current - s.target);
      assert k * (s.target - s.current) == -(k * (s.current - s.target));
    }
  }

  lemma FloorOfCovered(t: Stop, s: Stop, marks: seq<Mark>)
    requires Inv(t) && t.maxLoss == s.maxLoss && (s.maxLoss < 0.0 ==> Covered(t, s, marks))
    ensures t.floor >= 0.0
  {
  }

  lemma PacedPrefix(s: Stop, marks: seq<Mark>, ratio: real)
    requires marks != [] && Paced(s, marks, ratio) && Forward(marks)
    ensures Paced(s, marks[..|marks| - 1], ratio) && Forward(marks[..|marks| - 1])
  {
    hide Scaled;
    var early := marks[..|marks| - 1];
    forall i, j | 0 <= i < j < |early| && Falls(s, early, i) && Rises(s, early, j)
      ensures early[j].pace <= Scaled(ratio, early[i].pace)
    {
      assert Falls(s, marks, i) && Rises(s, marks, j);
    }
  }

  /** With any constant pace protection is never lost: only a pace that changes between marks can cost it. */
  lemma ConstantPaceKeepsProtection(s: Stop, marks: seq<Mark>, pace: real)
    requires Inv(s) && s.phase == Protected && pace >= 0.0
    requires forall i :: 0 <= i < |marks| ==> marks[i].pace == pace
    ensures Run(s, marks).floor >= 0.0
  {
    assert pace <= Scaled(1.5, pace);
    ProtectionLasts(s, marks);
  }

  /** Whatever the entry, the loss rail and the run: from a mark that protects on, the floor is never below zero. */
  ghost predicate Guarantees(ratio: real) {
    forall entry: real, loss: real, before: seq<Mark>, after: seq<Mark> ::
      var s := Run(NewStop(entry, loss), before);
      s.phase == Protected && Forward(after) && Paced(s, after, ratio) ==>
        Run(NewStop(entry, loss), before + after).floor >= 0.0
  }

  /** One and a half is exactly how much faster than its falls a mark may rise without costing the protection. */
  lemma ProtectionRatioIsExact(ratio: real)
    ensures Guarantees(ratio) <==> ratio <= 1.5
  {
    if ratio <= 1.5 {
      forall entry: real, loss: real, before: seq<Mark>, after: seq<Mark> |
        var s := Run(NewStop(entry, loss), before); s.phase == Protected && Forward(after) && Paced(s, after, ratio)
        ensures Run(NewStop(entry, loss), before + after).floor >= 0.0
      {
        var s := Run(NewStop(entry, loss), before);
        EveryRunIsSafe(entry, loss, before);
        PacedMore(s, after, ratio);
        ProtectionLasts(s, after);
        RunConcat(NewStop(entry, loss), before, after);
      }
    } else {
      var t := (ratio - 1.5) / (8.0 * ratio);
      var c := 8.0 * t / 3.0;
      var before, after := [Mark(1.0, 1.0)], [Mark(0.5, c), Mark(1.0 - t, ratio * c)];
      SmallStep(ratio, t);
      FirstProtects();
      LostAtHigherRatio(ratio, t, c);
      RunConcat(NewStop(1.0, 1.0), before, after);
      var s := Run(NewStop(1.0, 1.0), before);
      assert Falls(s, after, 0) && !Falls(s, after, 1) && !Rises(s, after, 0);
      ProductIsPositive(ratio, c);
      assert Paced(s, after, ratio);
      assert Forward(after);
    }
  }

  lemma PacedMore(s: Stop, marks: seq<Mark>, ratio: real)
    requires ratio <= 1.5 && Forward(marks) && Paced(s, marks, ratio)
    ensures Paced(s, marks, 1.5)
  {
    hide Scaled;
    forall i, j | 0 <= i < j < |marks| && Falls(s, marks, i) && Rises(s, marks, j)
      ensures marks[j].pace <= Scaled(1.5, marks[i].pace)
    {
      assert marks[j].pace <= Scaled(ratio, marks[i].pace);
      ScaledUp(ratio, 1.5, marks[i].pace);
    }
  }

  lemma ScaledUp(k: real, m: real, x: real)
    requires k <= m && x >= 0.0
    ensures Scaled(k, x) <= Scaled(m, x)
  {
    ScaleUp(k, m, x);
  }

  lemma SmallStep(ratio: real, t: real)
    requires ratio > 1.5 && t == (ratio - 1.5) / (8.0 * ratio)
    ensures 0.0 < t < 0.125 && Scaled(ratio, 1.0 - 4.0 * t) > 1.5
  {
    assert t * (8.0 * ratio) == ratio - 1.5;
    assert t > 0.0 by {
      if t <= 0.0 {
        ScaleUp(t, 0.0, 8.0 * ratio);
      }
    }
    assert t < 0.125 by {
      if t >= 0.125 {
        ScaleUp(0.125, t, 8.0 * ratio);
      }
    }
    assert ratio * (1.0 - 4.0 * t) == ratio - 0.5 * (t * (8.0 * ratio));
  }

  /** A stop entered at its target is protected by the next mark there, with its floor at zero. */
  lemma FirstProtects()
    ensures var s := Run(NewStop(1.0, 1.0), [Mark(1.0, 1.0)]);
      s == Stop(Protected, 1.0, -1.0, 1.0, 1.0, 1.0, 1.0, 0.0)
  {
    assert [Mark(1.0, 1.0)][..0] == [];
  }

  lemma LostAtHigherRatio(ratio: real, t: real, c: real)
    requires ratio > 1.5 && 0.0 < t < 0.125 && Scaled(ratio, 1.0 - 4.0 * t) > 1.5 && 3.0 * c == 8.0 * t
    ensures var s := Stop(Protected, 1.0, -1.0, 1.0, 1.0, 1.0, 1.0, 0.0);
      Run(s, [Mark(0.5, c), Mark(1.0 - t, ratio * c)]).floor < 0.0
  {
    var s, a, b := Stop(Protected, 1.0, -1.0, 1.0, 1.0, 1.0, 1.0, 0.0), Mark(0.5, c), Mark(1.0 - t, ratio * c);
    assert [a, b][..1] == [a] && [a][..0] == [];
    assert Run(s, [a]) == Step(s, a.pnl, a.pace);
    FallToHalf(s, t, c);
    var u := Step(s, 0.5, c);
    RiseNearTarget(u, ratio, t, c);
  }

  lemma FallToHalf(s: Stop, t: real, c: real)
    requires s == Stop(Protected, 1.0, -1.0, 1.0, 1.0, 1.0, 1.0, 0.0) && 0.0 < t < 0.125 && 3.0 * c == 8.0 * t
    ensures var u := Step(s, 0.5, c);
      u.phase != Triggered && u.floor == t && u.current == 0.5 && u.target == 1.0 && u.maxLoss == -1.0
  {
    assert Nearness(0.5, 2.0) == 0.75;
    assert Breathe(0.0, -1.0, 1.0, 1.0, 0.5, c) == 0.5 * c * 0.75;
  }

  lemma RiseNearTarget(u: Stop, ratio: real, t: real, c: real)
    requires u.phase != Triggered && u.floor == t && u.current == 0.5 && u.target == 1.0 && u.maxLoss == -1.0
    requires ratio > 1.5 && 0.0 < t < 0.125 && Scaled(ratio, 1.0 - 4.0 * t) > 1.5 && 3.0 * c == 8.0 * t
    ensures Step(u, 1.0 - t, ratio * c).floor < 0.0
  {
    hide Nearness;
    var pnl, pace := 1.0 - t, ratio * c;
    NearAt(pnl - t);
    var drop := Abs(pnl - 0.5) * pace * (1.0 - Nearness(pnl - t, 2.0));
    assert Breathe(t, -1.0, 1.0, 0.5, pnl, pace) == t - drop;
    DropExceeds(ratio, t, c);
    assert drop == (0.5 - t) * (ratio * c) * ((1.0 - 2.0 * t) / 2.0);
  }

  lemma NearAt(room: real)
    requires 0.0 <= room <= 2.0
    ensures 1.0 - Nearness(room, 2.0) == room / 2.0
  {
  }

  lemma DropExceeds(ratio: real, t: real, c: real)
    requires ratio > 1.5 && 0.0 < t < 0.125 && Scaled(ratio, 1.0 - 4.0 * t) > 1.5 && 3.0 * c == 8.0 * t
    ensures (0.5 - t) * (ratio * c) * ((1.0 - 2.0 * t) / 2.0) > t
  {
    var q := (1.0 - 2.0 * t) * (1.0 - 2.0 * t);
    assert q == 1.0 - 4.0 * t + 4.0 * (t * t);
    assert t * t > 0.0;
    StillAbove(ratio, 1.0 - 4.0 * t, q, t);
    Rearranged(ratio, t, c, q);
  }

  lemma StillAbove(ratio: real, low: real, q: real, t: real)
    requires ratio > 0.0 && low <= q && Scaled(ratio, low) > 1.5 && t > 0.0
    ensures Scaled(ratio, q) * t * (2.0 / 3.0) > t
  {
    assert Scaled(ratio, q) == Scaled(ratio, low) + ratio * (q - low);
    ProductIsPositive(ratio, q - low);
    hide Scaled;
    assert (Scaled(ratio, q) - 1.5) * t > 0.0;
  }

  lemma Rearranged(ratio: real, t: real, c: real, q: real)
    requires q == (1.0 - 2.0 * t) * (1.0 - 2.0 * t) && 3.0 * c == 8.0 * t
    ensures (0.5 - t) * (ratio * c) * ((1.0 - 2.0 * t) / 2.0) == Scaled(ratio, q) * t * (2.0 / 3.0)
  {
    var w := 1.0 - 2.0 * t;
    assert 0.5 - t == w / 2.0;
    assert (w / 2.0) * (ratio * c) * (w / 2.0) == (ratio * (w * w)) * c / 4.0;
  }

  /** Three ordinary marks: protected at the target, a slow fall, and a fast rise that takes the floor below zero. */
  lemma ProtectionCanBeLost()
    ensures var s := Run(NewStop(-1.6, 2.5), [Mark(2.5, 1.0)]);
      s.phase == Protected && s.floor == 0.0
    ensures var s := Run(NewStop(-1.6, 2.5), [Mark(2.5, 1.0), Mark(1.0, 0.5), Mark(2.4, 3.0)]);
      s.phase != Triggered && s.floor == -0.912
  {
    var a, b, c := Mark(2.5, 1.0), Mark(1.0, 0.5), Mark(2.4, 3.0);
    var s0 := NewStop(-1.6, 2.5);
    assert [a][..0] == [] && [a, b][..1] == [a] && [a, b, c][..2] == [a, b];
    assert Run(s0, []) == s0;
    var s1 := Step(s0, 2.5, 1.0);
    assert Nearness(5.0, 5.0) == 0.0;
    assert s1.floor == 0.0 && s1.phase == Protected && s1.current == 2.5;
    var s2 := Step(s1, 1.0, 0.5);
    assert Nearness(1.0, 5.0) == 0.8 && Nearness(1.5, 5.0) == 0.7;
    assert s2.floor == 0.6 && s2.phase != Triggered && s2.current == 1.0;
    assert Nearness(1.8, 5.0) == 0.64;
    assert Breathe(0.6, -2.5, 2.5, 1.0, 2.4, 3.0) == -0.912;
  }
}
