/** Nonce issue by many callers at once, as interleaved load and compare-and-swap steps. */
module Nonce {
  import opened Numbers

  /** Where a caller of Next is. `begun` is how many nonces had been issued when its call began. */
  datatype Caller =
    | Calling(begun: nat)
    | Loaded(begun: nat, last: int, seenAt: nat)   // it loaded `last` when `seenAt` nonces had been issued

  /** A nonce with the point at which its call began. */
  datatype Ticket = Ticket(value: int, begun: nat)

  datatype State = State(highWater: int, callers: map<int, Caller>, issued: seq<Ticket>)

  /** One atomic step of the caller `id`; `now` is what its clock shows, forwards or backwards. */
  datatype Step =
    | Begin(id: int)
    | Load(id: int)
    | Swap(id: int, now: int)

  /** The generator's state after seeding from the persisted high-water and the clock. */
  function Seeded(persisted: int, now: int): State {
    var seed := if now <= persisted then persisted + 1 else now;
    State(seed - 1, map[], [])
  }

  predicate Enabled(s: State, step: Step) {
    match step
    case Begin(id) => id !in s.callers
    case Load(id) => id in s.callers && s.callers[id].Calling?
    case Swap(id, _) => id in s.callers && s.callers[id].Loaded?
  }

  /** A caller whose swap succeeds issues the nonce and is done; one whose swap fails tries again. */
  function Next(s: State, step: Step): State
    requires Enabled(s, step)
  {
    match step
    case Begin(id) => s.(callers := s.callers[id := Calling(|s.issued|)])
    case Load(id) => s.(callers := s.callers[id := Loaded(s.callers[id].begun, s.highWater, |s.issued|)])
    case Swap(id, now) =>
      var c := s.callers[id];
      if s.highWater == c.last then
        var next := MaxInt(now, c.last + 1);
        State(next, s.callers - {id}, s.issued + [Ticket(next, c.begun)])
      else
        s.(callers := s.callers[id := Calling(c.begun)])
  }

  ghost predicate Increasing(issued: seq<Ticket>) {
    forall i, j :: 0 <= i < j < |issued| ==> issued[i].value < issued[j].value
  }

  ghost predicate CallerOk(s: State, c: Caller) {
    c.begun <= |s.issued| &&
    (c.Loaded? ==> c.seenAt <= |s.issued| && c.last <= s.highWater && (c.last < s.highWater ==> c.seenAt < |s.issued|))
  }

  /** What every step keeps. */
  ghost predicate Inv(s: State, persisted: int, now: int) {
    s.highWater >= persisted && s.highWater >= now - 1 && Increasing(s.issued) &&
    (forall i :: 0 <= i < |s.issued| ==> persisted < s.issued[i].value <= s.highWater && s.issued[i].begun <= i) &&
    (forall i :: 0 <= i < |s.issued| ==> now <= s.issued[i].value) &&
    (forall id :: id in s.callers ==> CallerOk(s, s.callers[id]))
  }

  lemma StepKeepsInv(s: State, step: Step, persisted: int, now: int)
    requires Inv(s, persisted, now) && Enabled(s, step)
    ensures Inv(Next(s, step), persisted, now)
    ensures Next(s, step).highWater >= s.highWater && s.issued <= Next(s, step).issued
  {
    var s' := Next(s, step);
    forall id | id in s'.callers ensures CallerOk(s', s'.callers[id]) {
      if id in s.callers {
        assert CallerOk(s, s.callers[id]);
      }
    }
  }

  /** A run: every state follows from the one before it by one enabled step. */
  ghost predicate Run(states: seq<State>, steps: seq<Step>, persisted: int, now: int) {
    |states| == |steps| + 1 && states[0] == Seeded(persisted, now) &&
    forall i :: 0 <= i < |steps| ==> Enabled(states[i], steps[i]) && states[i + 1] == Next(states[i], steps[i])
  }

  lemma {:induction false} RunKeepsInv(states: seq<State>, steps: seq<Step>, persisted: int, now: int, n: int)
    requires Run(states, steps, persisted, now) && 0 <= n < |states|
    ensures Inv(states[n], persisted, now)
  {
    if n > 0 {
      RunKeepsInv(states, steps, persisted, now, n - 1);
      StepKeepsInv(states[n - 1], steps[n - 1], persisted, now);
    }
  }

  /**
    In every run, whatever the interleaving and the clocks: nonces are issued in strictly increasing
    order, each exceeds the persisted high-water and every nonce issued before its call began, and none is
    behind the clock the generator was seeded with.
   */
  lemma NoncesIncrease(states: seq<State>, steps: seq<Step>, persisted: int, now: int, n: int)
    requires Run(states, steps, persisted, now) && 0 <= n < |states|
    ensures Increasing(states[n].issued)
    ensures forall i :: 0 <= i < |states[n].issued| ==>
      states[n].issued[i].value > persisted && states[n].issued[i].value >= now
    ensures forall i, j :: 0 <= i < |states[n].issued| && 0 <= j < states[n].issued[i].begun ==>
      j < i && states[n].issued[j].value < states[n].issued[i].value
  {
    RunKeepsInv(states, steps, persisted, now, n);
  }

  /** A swap fails only when another call has issued a nonce since this caller loaded, so some call always succeeds. */
  lemma FailureMeansProgress(states: seq<State>, steps: seq<Step>, persisted: int, now: int, n: int)
    requires Run(states, steps, persisted, now) && 0 <= n < |steps| && steps[n].Swap?
    ensures var s, c := states[n], states[n].callers[steps[n].id];
      if |states[n + 1].issued| == |s.issued| then c.seenAt < |s.issued|
      else states[n + 1].issued == s.issued + [Ticket(states[n + 1].highWater, c.begun)] &&
           states[n + 1].highWater == MaxInt(steps[n].now, s.highWater + 1)
  {
    RunKeepsInv(states, steps, persisted, now, n);
  }

  /** The first nonce is the caller's clock, or the seeding clock, or one past the persisted high-water, if later. */
  lemma FirstNonce(persisted: int, now: int, id: int, clock: int)
    ensures var s := Seeded(persisted, now);
      var loaded := Next(Next(s, Begin(id)), Load(id));
      Next(loaded, Swap(id, clock)).issued == [Ticket(MaxInt(clock, MaxInt(now, persisted + 1)), 0)]
  {
  }
}
