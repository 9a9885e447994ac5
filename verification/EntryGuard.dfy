/** The entry guard's cap on how far under water an entry may open. */
module EntryGuard {
  import opened Numbers
  import opened Text
  import opened Pricing

  /** Relative spread plus both taker fee legs, as a fraction; the spread and fee are in percent. */
  function Friction(spreadPct: Option<real>, fee: real): Option<real> {
    if spreadPct.None? || spreadPct.value <= 0.0 || fee < 0.0 then None
    else
      var hurdle := spreadPct.value / 100.0 + Rate(fee) * 2.0;
      if hurdle <= 0.0 then None else Some(hurdle)
  }

  function OpenDragBudgetPct(spreadPct: Option<real>, fee: real): Option<real> {
    var friction := Friction(spreadPct, fee);
    if friction.None? then None else Some(friction.value * 3.0 * 100.0)
  }

  /** The tighter of the configured maximum and the friction budget, but never under two taker fees. */
  function OpenDragCapPct(maxDragPct: real, budget: Option<real>, fee: real): real {
    var tight := if budget.Some? && 0.0 < budget.value < maxDragPct then budget.value else maxDragPct;
    if fee > 0.0 && tight < 2.0 * fee then 2.0 * fee else tight
  }

  /** The gate denies an entry whose close-now percentage is under minus the cap. */
  predicate DeniedByDrag(closeNowPct: real, cap: real) {
    closeNowPct < -cap
  }

  /** The budget is three times the spread and both fees, in percent, whenever there is a spread. */
  lemma BudgetIsThreefold(spreadPct: Option<real>, fee: real)
    ensures OpenDragBudgetPct(spreadPct, fee) ==
      if spreadPct.Some? && spreadPct.value > 0.0 && fee >= 0.0 then Some(3.0 * (spreadPct.value + 2.0 * fee)) else None
  {
  }

  /** The friction budget always clears two fees, so the floor acts exactly when the configured maximum is too low. */
  lemma FloorActsOnlyOnConfiguration(maxDragPct: real, spreadPct: Option<real>, fee: real)
    requires fee > 0.0
    ensures var budget := OpenDragBudgetPct(spreadPct, fee);
      var cap := OpenDragCapPct(maxDragPct, budget, fee);
      cap >= 2.0 * fee && (budget.Some? ==> budget.value > 2.0 * fee) &&
      (cap == 2.0 * fee <==> maxDragPct <= 2.0 * fee) && (maxDragPct >= 2.0 * fee ==> cap <= maxDragPct)
  {
  }

  /** The cap is the tighter of the maximum and a positive budget, lifted to two fees when there is a fee. */
  lemma CapIsTheTighter(maxDragPct: real, budget: Option<real>, fee: real)
    ensures var cap := OpenDragCapPct(maxDragPct, budget, fee);
      var tight := if budget.Some? && budget.value > 0.0 then MinReal(maxDragPct, budget.value) else maxDragPct;
      cap == if fee > 0.0 then MaxReal(tight, 2.0 * fee) else tight
  {
  }

  /** With no spread cost at all, the two fees alone never trip the gate. */
  lemma FeesAloneAreAllowed(gross: real, maxDragPct: real, budget: Option<real>, fee: real)
    requires gross > 0.0 && 0.0 < fee
    ensures Times(gross, 1.0 + Rate(fee)) > 0.0
    ensures !DeniedByDrag(RoundTripPct(gross, gross, fee), OpenDragCapPct(maxDragPct, budget, fee))
  {
    RateIsPositive(fee);
    var r, cost := Rate(fee), Times(gross, 1.0 + Rate(fee));
    PositiveProduct(gross, 1.0 + r);
    var net := Times(gross, 1.0 - r);
    assert net - cost == -2.0 * r * gross;
    assert gross <= cost;
    assert net - cost >= -2.0 * r * cost by {
      TimesMonoRight(2.0 * r, gross, cost);
    }
    DivMono(-2.0 * r * cost, net - cost, cost);
    CancelLeft(cost, -2.0 * r);
    assert (cost * (-2.0 * r)) / cost == -2.0 * r;
    assert -2.0 * r * cost == cost * (-2.0 * r);
  }

  /** The gate lets an entry through exactly when the exit recovers all but the cap of its cost. */
  lemma GateIsRecovery(entryGross: real, exitGross: real, fee: real, cap: real)
    requires entryGross > 0.0 && 0.0 <= fee
    ensures var cost := Times(entryGross, 1.0 + Rate(fee));
      cost > 0.0 &&
      (!DeniedByDrag(RoundTripPct(entryGross, exitGross, fee), cap) <==>
        Times(exitGross, 1.0 - Rate(fee)) >= Times(cost, 1.0 - cap / 100.0))
  {
    RateIsPositive(fee);
    var cost, net := Times(entryGross, 1.0 + Rate(fee)), Times(exitGross, 1.0 - Rate(fee));
    PositiveProduct(entryGross, 1.0 + Rate(fee));
    var t := (net - cost) / cost;
    assert t * cost == net - cost;
    var c := -(cap / 100.0);
    assert Times(cost, 1.0 - cap / 100.0) == cost + c * cost;
    if t >= c {
      TimesMono(c, t, cost);
    } else {
      StrictProduct(t, c, cost);
    }
  }

  lemma StrictProduct(x: real, y: real, p: real)
    requires x < y && p > 0.0
    ensures x * p < y * p
  {
    assert (y - x) * p > 0.0;
  }
}
