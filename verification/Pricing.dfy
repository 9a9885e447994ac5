/** Walking an order book, and sizing a buy so that it fits the budget after fees. */
module Pricing {
  import opened Numbers
  import opened Text

  // ----------------------------------------------------------------- levels

  /** One price level as the venue reports it; a field may be missing. */
  datatype Level = Level(price: Option<real>, quantity: Option<real>)

  /** The two sides of a book, best level first. */
  datatype Book = Book(bids: seq<Level>, asks: seq<Level>)

  /** A level that can be traded against. */
  datatype Lot = Lot(price: real, size: real)

  predicate Usable(level: Level) {
    level.price.Some? && level.quantity.Some? && level.price.value > 0.0 && level.quantity.value > 0.0
  }

  function LotOf(level: Level): Lot
    requires Usable(level)
  {
    Lot(level.price.value, level.quantity.value)
  }

  /** The tradable levels of a side, in order. */
  function Lots(levels: seq<Level>): seq<Lot> {
    if levels == [] then []
    else if Usable(levels[0]) then [LotOf(levels[0])] + Lots(levels[1..])
    else Lots(levels[1..])
  }

  /** Prices never fall from one level to a later one. */
  ghost predicate Ascending(levels: seq<Level>) {
    forall i, j :: 0 <= i < j < |levels| && levels[i].price.Some? && levels[j].price.Some? ==>
      levels[i].price.value <= levels[j].price.value
  }

  ghost predicate Descending(levels: seq<Level>) {
    forall i, j :: 0 <= i < j < |levels| && levels[i].price.Some? && levels[j].price.Some? ==>
      levels[j].price.value <= levels[i].price.value
  }

  ghost predicate SortedLots(lots: seq<Lot>) {
    forall i, j :: 0 <= i < j < |lots| ==> lots[i].price <= lots[j].price
  }

  ghost predicate Positive(lots: seq<Lot>) {
    forall i :: 0 <= i < |lots| ==> lots[i].size > 0.0
  }

  ghost predicate PricedAtLeast(lots: seq<Lot>, p: real) {
    forall i :: 0 <= i < |lots| ==> p <= lots[i].price
  }

  // ------------------------------------------------------------ allocations

  /** The value of `x` units at price `p`. */
  function Times(p: real, x: real): real {
    p * x
  }

  ghost function Depth(lots: seq<Lot>): real {
    if lots == [] then 0.0 else lots[0].size + Depth(lots[1..])
  }

  ghost function Total(a: seq<real>): real {
    if a == [] then 0.0 else a[0] + Total(a[1..])
  }

  /** What taking `a[i]` from each level costs; levels beyond `a` are left alone. */
  ghost function CostOf(lots: seq<Lot>, a: seq<real>): real
    requires |a| <= |lots|
  {
    if a == [] then 0.0 else Times(lots[0].price, a[0]) + CostOf(lots[1..], a[1..])
  }

  /** A way to take `q` in all, never more than a level holds. */
  ghost predicate Feasible(lots: seq<Lot>, a: seq<real>, q: real) {
    |a| <= |lots| && Total(a) == q && forall i :: 0 <= i < |a| ==> 0.0 <= a[i] <= lots[i].size
  }

  /** The cost of filling `q` level by level, best price first. */
  ghost function WalkCost(lots: seq<Lot>, q: real): real {
    if lots == [] || q <= 0.0 then 0.0
    else
      var take := MinReal(lots[0].size, q);
      Times(lots[0].price, take) + WalkCost(lots[1..], q - take)
  }

  /** How much of `q` the levels can supply. */
  ghost function Supply(lots: seq<Lot>, q: real): real {
    if lots == [] || q <= 0.0 then 0.0
    else
      var take := MinReal(lots[0].size, q);
      take + Supply(lots[1..], q - take)
  }

  lemma TimesMono(p: real, q: real, x: real)
    requires p <= q && 0.0 <= x
    ensures Times(p, x) <= Times(q, x)
  {
  }

  lemma TimesNeg(p: real, x: real)
    ensures Times(-p, x) == -Times(p, x)
  {
  }

  lemma TimesAdd(p: real, x: real, y: real)
    ensures Times(p, x + y) == Times(p, x) + Times(p, y)
  {
  }

  lemma {:induction false} DepthIsPositive(lots: seq<Lot>)
    requires Positive(lots)
    ensures Depth(lots) >= 0.0
  {
    if lots != [] {
      DepthIsPositive(lots[1..]);
    }
  }

  lemma {:induction false} SupplyIsMin(lots: seq<Lot>, q: real)
    requires Positive(lots) && q >= 0.0
    ensures Supply(lots, q) == MinReal(q, Depth(lots))
  {
    DepthIsPositive(lots);
    if lots != [] && q > 0.0 {
      DepthIsPositive(lots[1..]);
      SupplyIsMin(lots[1..], q - MinReal(lots[0].size, q));
    }
  }

  /** Every extra unit costs at least the best price. */
  lemma {:induction false} MarginalCost(lots: seq<Lot>, p: real, v: real, u: real)
    requires Positive(lots) && PricedAtLeast(lots, p) && 0.0 <= v <= u <= Depth(lots)
    ensures WalkCost(lots, u) - WalkCost(lots, v) >= Times(p, u - v)
  {
    hide Times;
    if lots == [] || u == v {
      TimesAdd(p, 0.0, 0.0);
    } else {
      var tu, tv := MinReal(lots[0].size, u), if v <= 0.0 then 0.0 else MinReal(lots[0].size, v);
      DepthIsPositive(lots[1..]);
      MarginalCost(lots[1..], p, v - tv, u - tu);
      TimesAdd(lots[0].price, tv, tu - tv);
      TimesAdd(lots[0].price, 0.0, 0.0);
      TimesMono(p, lots[0].price, tu - tv);
      TimesAdd(p, tu - tv, (u - tu) - (v - tv));
    }
  }

  lemma {:induction false} FeasibleWithinDepth(lots: seq<Lot>, a: seq<real>, q: real)
    requires Positive(lots) && Feasible(lots, a, q)
    ensures 0.0 <= q <= Depth(lots)
  {
    DepthIsPositive(lots);
    if a != [] {
      FeasibleWithinDepth(lots[1..], a[1..], q - a[0]);
    }
  }

  /** On sorted prices no feasible allocation of the same quantity costs less than the greedy walk. */
  lemma {:induction false} GreedyIsCheapest(lots: seq<Lot>, a: seq<real>, q: real)
    requires Positive(lots) && SortedLots(lots) && Feasible(lots, a, q)
    ensures WalkCost(lots, q) <= CostOf(lots, a)
  {
    hide Times;
    FeasibleWithinDepth(lots, a, q);
    if a != [] {
      var rest, take := lots[1..], MinReal(lots[0].size, q);
      FeasibleWithinDepth(rest, a[1..], q - a[0]);
      GreedyIsCheapest(rest, a[1..], q - a[0]);
      if q > 0.0 {
        MarginalCost(rest, lots[0].price, q - take, q - a[0]);
        TimesAdd(lots[0].price, a[0], take - a[0]);
      } else {
        TimesAdd(lots[0].price, 0.0, 0.0);
      }
    }
  }

  /** The same levels with negated prices: selling dear is buying cheap. */
  ghost function Mirrored(lots: seq<Lot>): (m: seq<Lot>)
    ensures |m| == |lots| && forall i :: 0 <= i < |lots| ==> m[i] == Lot(-lots[i].price, lots[i].size)
  {
    seq(|lots|, i requires 0 <= i < |lots| => Lot(-lots[i].price, lots[i].size))
  }

  lemma {:induction false} MirrorCosts(lots: seq<Lot>, a: seq<real>, q: real)
    requires |a| <= |lots|
    ensures CostOf(Mirrored(lots), a) == -CostOf(lots, a) && WalkCost(Mirrored(lots), q) == -WalkCost(lots, q)
    decreases |lots|
  {
    hide Times;
    if lots != [] {
      assert Mirrored(lots)[1..] == Mirrored(lots[1..]);
      TimesNeg(lots[0].price, if a == [] then 0.0 else a[0]);
      TimesNeg(lots[0].price, MinReal(lots[0].size, q));
      var take := MinReal(lots[0].size, q);
      MirrorCosts(lots[1..], if a == [] then [] else a[1..], q - take);
    }
  }

  /** On falling prices no feasible allocation of the same quantity earns more than the greedy walk. */
  lemma GreedyEarnsMost(lots: seq<Lot>, a: seq<real>, q: real)
    requires Positive(lots) && Feasible(lots, a, q)
    requires forall i, j :: 0 <= i < j < |lots| ==> lots[j].price <= lots[i].price
    ensures WalkCost(lots, q) >= CostOf(lots, a)
  {
    GreedyIsCheapest(Mirrored(lots), a, q);
    MirrorCosts(lots, a, q);
  }

  lemma {:induction false} Snoc(lots: seq<Lot>, a: seq<real>, x: real)
    requires |a| < |lots|
    ensures Total(a + [x]) == Total(a) + x
    ensures CostOf(lots, a + [x]) == CostOf(lots, a) + Times(lots[|a|].price, x)
  {
    if a == [] {
      assert [x][1..] == [];
    } else {
      Snoc(lots[1..], a[1..], x);
      assert (a + [x])[1..] == a[1..] + [x];
    }
  }

  lemma {:induction false} LotsArePositive(levels: seq<Level>)
    ensures Positive(Lots(levels))
  {
    if levels != [] {
      LotsArePositive(levels[1..]);
    }
  }

  lemma {:induction false} LotsFrom(levels: seq<Level>, k: int)
    requires 0 <= k < |Lots(levels)|
    ensures exists i :: 0 <= i < |levels| && Usable(levels[i]) && LotOf(levels[i]) == Lots(levels)[k]
  {
    if Usable(levels[0]) && k == 0 {
      assert LotOf(levels[0]) == Lots(levels)[0];
    } else {
      var k' := if Usable(levels[0]) then k - 1 else k;
      LotsFrom(levels[1..], k');
      var i :| 0 <= i < |levels[1..]| && Usable(levels[1..][i]) && LotOf(levels[1..][i]) == Lots(levels[1..])[k'];
      assert levels[i + 1] == levels[1..][i];
    }
  }

  /** The best ask bounds every tradable ask from below. */
  lemma BestAskBounds(levels: seq<Level>)
    requires levels != [] && Ascending(levels) && levels[0].price.Some?
    ensures PricedAtLeast(Lots(levels), levels[0].price.value)
  {
    forall k | 0 <= k < |Lots(levels)| ensures levels[0].price.value <= Lots(levels)[k].price {
      LotsFrom(levels, k);
    }
  }

  lemma {:induction false} LotsAreSorted(levels: seq<Level>)
    requires Ascending(levels)
    ensures SortedLots(Lots(levels))
  {
    if levels != [] {
      LotsAreSorted(levels[1..]);
      if Usable(levels[0]) {
        BestAskBounds(levels);
      }
    }
  }

  // ------------------------------------------------------------------- walk

  datatype Side = BUY | SELL

  datatype Fill = Fill(filled: real, gross: real)

  function LevelsOf(book: Book, side: Side): seq<Level> {
    if side == BUY then book.asks else book.bids
  }

  /** Decimal division that does not round. */
  ghost predicate Exact(div: (real, real) -> real) {
    forall x, y :: y > 0.0 ==> div(x, y) == x / y
  }

  /** What the walk has done after some levels: it took `a`, and `need` is still wanted from the rest. */
  ghost predicate Walked(lots: seq<Lot>, a: seq<real>, fill: Fill, maxQty: real, need: real) {
    Feasible(lots, a, fill.filled) && fill.gross == CostOf(lots, a) && need == maxQty - fill.filled && need >= 0.0
  }

  /** The walk so far, continued greedily over the rest, is the greedy walk from the start. */
  ghost predicate Greedy(lots: seq<Lot>, a: seq<real>, fill: Fill, maxQty: real, need: real) {
    |a| <= |lots| &&
    fill.filled + Supply(lots[|a|..], need) == Supply(lots, maxQty) &&
    fill.gross + WalkCost(lots[|a|..], need) == WalkCost(lots, maxQty)
  }

  lemma TakeOne(lots: seq<Lot>, a: seq<real>, fill: Fill, maxQty: real, need: real, take: real)
    requires Walked(lots, a, fill, maxQty, need) && |a| < |lots| && 0.0 <= take <= MinReal(lots[|a|].size, need)
    ensures var next := Fill(fill.filled + take, fill.gross + Times(lots[|a|].price, take));
      Walked(lots, a + [take], next, maxQty, need - take) &&
      (Greedy(lots, a, fill, maxQty, need) && need > 0.0 && take == MinReal(lots[|a|].size, need) ==>
        Greedy(lots, a + [take], next, maxQty, need - take))
  {
    hide Times;
    Snoc(lots, a, take);
    assert lots[|a|..][1..] == lots[|a| + 1..];
  }

  lemma WalkStart(lots: seq<Lot>, maxQty: real)
    requires maxQty > 0.0
    ensures Walked(lots, [], Fill(0.0, 0.0), maxQty, maxQty) && Greedy(lots, [], Fill(0.0, 0.0), maxQty, maxQty)
  {
    assert lots[0..] == lots;
  }

  lemma NextLot(levels: seq<Level>, i: int)
    requires 0 <= i < |levels|
    ensures Lots(levels[i..]) ==
      if Usable(levels[i]) then [LotOf(levels[i])] + Lots(levels[i + 1..]) else Lots(levels[i + 1..])
  {
    assert levels[i..][1..] == levels[i + 1..];
  }

  lemma TakeWithinCash(div: (real, real) -> real, cash: real, px: real, take: real)
    requires px > 0.0
    ensures Exact(div) && take <= div(cash, px) ==> Times(px, take) <= cash
  {
    if Exact(div) && take <= div(cash, px) {
      assert div(cash, px) == cash / px;
      TimesMonoRight(px, take, cash / px);
      DivTimes(cash, px);
    }
  }

  /** Exact division of positive cash buys a positive amount, worth exactly the cash. */
  lemma TakeIsPositive(div: (real, real) -> real, cash: real, px: real)
    requires px > 0.0
    ensures Exact(div) && cash > 0.0 ==> div(cash, px) > 0.0 && Times(px, div(cash, px)) == cash
  {
    if Exact(div) && cash > 0.0 {
      ExactAt(div, cash, px);
      DivTimes(cash, px);
      if cash / px <= 0.0 {
        TimesMonoRight(px, cash / px, 0.0);
      }
    }
  }

  lemma TimesMonoRight(p: real, x: real, y: real)
    requires 0.0 <= p && x <= y
    ensures Times(p, x) <= Times(p, y)
  {
    assert 0.0 <= p * (y - x);
  }

  lemma DivTimes(x: real, p: real)
    requires p > 0.0
    ensures Times(p, x / p) == x
  {
  }

  /** A finished uncapped walk filled what the side can supply, at the greedy cost. */
  lemma WalkEnd(levels: seq<Level>, i: int, lots: seq<Lot>, a: seq<real>, f: Fill, maxQty: real, need: real)
    requires 0 <= i <= |levels| && (i == |levels| || need <= 0.0) && maxQty > 0.0
    requires lots == Lots(levels) && |a| <= |lots| && lots[|a|..] == Lots(levels[i..])
    requires Walked(lots, a, f, maxQty, need) && Greedy(lots, a, f, maxQty, need)
    ensures f == Fill(MinReal(maxQty, Depth(lots)), WalkCost(lots, maxQty))
  {
    hide Times;
    LotsArePositive(levels);
    SupplyIsMin(lots, maxQty);
  }

  // --------------------------------------------------------- the capped walk

  /** Every level taken in full. */
  ghost predicate AllFull(lots: seq<Lot>, a: seq<real>) {
    |a| <= |lots| && forall i :: 0 <= i < |a| ==> a[i] == lots[i].size
  }

  /** Every level but the last taken in full. */
  ghost predicate FullButLast(lots: seq<Lot>, a: seq<real>) {
    |a| <= |lots| && (forall i :: 0 <= i < |a| - 1 ==> a[i] == lots[i].size) &&
    (a != [] ==> 0.0 <= a[|a| - 1] <= lots[|a| - 1].size)
  }

  /** Filling level by level is the walk of what it fills. */
  lemma {:induction false} FullIsWalk(lots: seq<Lot>, a: seq<real>)
    requires FullButLast(lots, a) && Positive(lots)
    ensures 0.0 <= Total(a) <= Depth(lots) && CostOf(lots, a) == WalkCost(lots, Total(a))
  {
    hide Times;
    if a == [] {
      DepthIsPositive(lots);
    } else if |a| == 1 {
      assert a[1..] == [];
      DepthIsPositive(lots[1..]);
      TimesNothing(lots[0].price);
    } else {
      FullIsWalk(lots[1..], a[1..]);
    }
  }

  lemma TimesNothing(p: real)
    ensures Times(p, 0.0) == 0.0
  {
  }

  ghost predicate Priced(lots: seq<Lot>) {
    forall i :: 0 <= i < |lots| ==> lots[i].price > 0.0
  }

  lemma {:induction false} LotsArePriced(levels: seq<Level>)
    ensures Priced(Lots(levels))
  {
    if levels != [] {
      LotsArePriced(levels[1..]);
    }
  }

  /** Walking further costs more. */
  lemma {:induction false} WalkGrows(lots: seq<Lot>, x: real, y: real)
    requires Positive(lots) && Priced(lots) && 0.0 <= x < y <= Depth(lots)
    ensures WalkCost(lots, x) < WalkCost(lots, y)
  {
    hide Times;
    var size, p := lots[0].size, lots[0].price;
    var take, take' := MinReal(size, x), MinReal(size, y);
    TimesNothing(p);
    DepthIsPositive(lots[1..]);
    if x < size {
      TimesStrict(p, take, take');
      WalkIsPositive(lots[1..], y - take');
    } else {
      WalkGrows(lots[1..], x - size, y - size);
    }
  }

  lemma TimesStrict(p: real, x: real, y: real)
    requires p > 0.0 && x < y
    ensures Times(p, x) < Times(p, y)
  {
    assert p * (y - x) > 0.0;
  }

  lemma {:induction false} WalkIsPositive(lots: seq<Lot>, q: real)
    requires Positive(lots) && Priced(lots)
    ensures WalkCost(lots, q) >= 0.0
  {
    if lots != [] && q > 0.0 {
      WalkIsPositive(lots[1..], q - MinReal(lots[0].size, q));
    }
  }

  /** `x` is the most of `q` that the side holds and the cash pays for. */
  ghost predicate Most(lots: seq<Lot>, q: real, cash: real, x: real) {
    0.0 <= x <= MinReal(q, Depth(lots)) && WalkCost(lots, x) <= cash &&
    forall y :: x < y <= MinReal(q, Depth(lots)) ==> WalkCost(lots, y) > cash
  }

  lemma MostIsUnique(lots: seq<Lot>, q: real, cash: real, x: real, y: real)
    requires Most(lots, q, cash, x) && Most(lots, q, cash, y)
    ensures x == y
  {
  }

  /** With cash, something wanted and something offered, the most is something. */
  lemma MostIsPositive(lots: seq<Lot>, q: real, cash: real, x: real)
    requires Positive(lots) && Priced(lots) && lots != [] && q > 0.0 && cash > 0.0 && Most(lots, q, cash, x)
    ensures x > 0.0 && WalkCost(lots, x) > 0.0
  {
    hide Times;
    var size, p := lots[0].size, lots[0].price;
    var y := MinReal(MinReal(size, q), cash / p);
    DepthIsPositive(lots[1..]);
    DivTimes(cash, p);
    if cash / p <= 0.0 {
      TimesMonoRight(p, cash / p, 0.0);
      TimesNothing(p);
    }
    assert 0.0 < y <= MinReal(q, Depth(lots));
    assert WalkCost(lots, y) <= cash by {
      TimesMonoRight(p, y, cash / p);
    }
    WalkGrows(lots, 0.0, x);
  }

  /** A walk that spent all the cash, or filled all there was to fill, filled the most. */
  lemma WalkedMost(lots: seq<Lot>, a: seq<real>, f: Fill, q: real, cash: real)
    requires Positive(lots) && Priced(lots) && FullButLast(lots, a) && q > 0.0
    requires f == Fill(Total(a), CostOf(lots, a)) && f.filled <= q && f.gross <= cash
    requires f.gross == cash || f.filled == MinReal(q, Depth(lots))
    ensures Most(lots, q, cash, f.filled) && f.gross == WalkCost(lots, f.filled)
  {
    hide Times, WalkCost, CostOf, Total, Depth;
    FullIsWalk(lots, a);
    forall y | f.filled < y <= MinReal(q, Depth(lots)) ensures WalkCost(lots, y) > cash {
      WalkGrows(lots, f.filled, y);
    }
  }

  lemma NothingTaken(lots: seq<Lot>)
    ensures AllFull(lots, []) && FullButLast(lots, [])
  {
  }

  lemma FillsOne(lots: seq<Lot>, a: seq<real>, take: real)
    requires |a| < |lots| && 0.0 <= take <= lots[|a|].size
    ensures AllFull(lots, a) ==> FullButLast(lots, a + [take])
    ensures AllFull(lots, a) && take == lots[|a|].size ==> AllFull(lots, a + [take])
  {
  }

  lemma WalkedGives(lots: seq<Lot>, a: seq<real>, f: Fill, maxQty: real, need: real)
    requires Walked(lots, a, f, maxQty, need)
    ensures Feasible(lots, a, f.filled) && f == Fill(Total(a), CostOf(lots, a)) && f.filled <= maxQty
  {
  }

  /** Fills `maxQty` from one side of the book; `maxGross`, if given, also caps the quote spent. */
  method Consume(book: Book, maxQty: real, maxGross: Option<real>, side: Side, div: (real, real) -> real)
    returns (fill: Option<Fill>, ok: bool, ghost a: seq<real>)
    ensures fill.None? <==> maxQty <= 0.0
    ensures fill.None? ==> !ok
    ensures fill.Some? ==> var lots := Lots(LevelsOf(book, side));
      Feasible(lots, a, fill.value.filled) && fill.value.gross == CostOf(lots, a) && fill.value.filled <= maxQty
    ensures fill.Some? && maxGross.None? ==> var lots := Lots(LevelsOf(book, side));
      fill.value == Fill(MinReal(maxQty, Depth(lots)), WalkCost(lots, maxQty)) && (ok <==> maxQty <= Depth(lots))
    ensures fill.Some? && maxGross.Some? && Exact(div) && maxGross.value >= 0.0 ==> fill.value.gross <= maxGross.value
    ensures fill.Some? && maxGross.Some? && Exact(div) && maxGross.value > 0.0 ==>
      var lots := Lots(LevelsOf(book, side));
      fill.value.gross == maxGross.value || fill.value == Fill(MinReal(maxQty, Depth(lots)), WalkCost(lots, maxQty))
    ensures fill.Some? && maxGross.Some? && Exact(div) && maxGross.value > 0.0 ==>
      var lots := Lots(LevelsOf(book, side));
      Most(lots, maxQty, maxGross.value, fill.value.filled) && fill.value.gross == WalkCost(lots, fill.value.filled)
  {
    hide Times, WalkCost, Supply, CostOf, Total, Lots, Depth, Exact, Most, AllFull, FullButLast, Walked, Greedy;
    a := [];
    if maxQty <= 0.0 {
      return None, false, [];
    }
    ghost var lots := Lots(LevelsOf(book, side));
    var need, capped := maxQty, maxGross.Some?;
    var cash := if capped then maxGross.value else 0.0;
    var levels := LevelsOf(book, side);
    var f := Fill(0.0, 0.0);
    WalkStart(lots, maxQty);
    NothingTaken(lots);
    ghost var exact := capped && Exact(div) && maxGross.value > 0.0;
    var i := 0;
    while i < |levels| && need > 0.0 && (!capped || cash > 0.0)
      invariant 0 <= i <= |levels| && |a| <= |lots| && lots[|a|..] == Lots(levels[i..])
      invariant Walked(lots, a, f, maxQty, need) && (!capped ==> Greedy(lots, a, f, maxQty, need))
      invariant capped ==> cash == maxGross.value - f.gross
      invariant capped && Exact(div) && maxGross.value >= 0.0 ==> cash >= 0.0
      invariant exact && cash > 0.0 ==> Greedy(lots, a, f, maxQty, need)
      invariant exact ==> FullButLast(lots, a) && (cash > 0.0 && need > 0.0 ==> AllFull(lots, a))
      decreases |levels| - i
    {
      var level := levels[i];
      NextLot(levels, i);
      i := i + 1;
      if !Usable(level) {
        continue;
      }
      var px := level.price.value;
      var take := MinReal(level.quantity.value, need);
      if capped {
        take := MinReal(take, div(cash, px));
      }
      TakeIsPositive(div, cash, px);
      if take <= 0.0 {
        break;
      }
      TakeOne(lots, a, f, maxQty, need, take);
      FillsOne(lots, a, take);
      TakeWithinCash(div, cash, px, take);
      assert lots[|a|..][1..] == lots[|a| + 1..];
      a := a + [take];
      f := Fill(f.filled + take, f.gross + Times(px, take));
      need := need - take;
      if capped {
        cash := cash - Times(px, take);
      }
    }
    if !capped || (exact && cash > 0.0) {
      WalkEnd(levels, i, lots, a, f, maxQty, need);
    }
    WalkedGives(lots, a, f, maxQty, need);
    if exact {
      LotsArePositive(levels);
      LotsArePriced(levels);
      WalkedMost(lots, a, f, maxQty, maxGross.value);
    }
    ok := capped || !(f.filled < maxQty);
    fill := Some(f);
  }

  // ----------------------------------------------------------------- sizing

  /** The taker fee as a fraction; `fee` is in percent. */
  function Rate(fee: real): real {
    fee / 100.0
  }

  /** An amount with the fee added on a buy, or taken off on a sale. */
  function AfterFee(amount: real, fee: real, side: Side): Option<real> {
    if amount <= 0.0 then None
    else Some(Times(amount, 1.0 + if side == BUY then Rate(fee) else -Rate(fee)))
  }

  /** The fee is a percentage of the amount: on top of a buy, off a sale. */
  lemma FeeIsPercent(amount: real, fee: real)
    requires amount > 0.0
    ensures AfterFee(amount, fee, BUY).Some? && AfterFee(amount, fee, SELL).Some?
    ensures 100.0 * (AfterFee(amount, fee, BUY).value - amount) == amount * fee
    ensures 100.0 * (amount - AfterFee(amount, fee, SELL).value) == amount * fee
  {
  }

  /** Formatting a size for the venue fails or never enlarges it. */
  ghost predicate Shrinks(format: real -> Option<real>) {
    forall x :: format(x).Some? ==> format(x).value <= x
  }

  /** A fill that some feasible allocation of the asks gives. */
  ghost predicate Taken(asks: seq<Level>, fill: Fill, a: seq<real>) {
    Feasible(Lots(asks), a, fill.filled) && fill.gross == CostOf(Lots(asks), a)
  }

  /** The first ask is priced and positive and no later ask is cheaper. */
  ghost predicate GoodAsks(asks: seq<Level>) {
    Ascending(asks) && asks != [] && asks[0].price.Some? && asks[0].price.value > 0.0
  }

  /**
    One trim of an over-budget fill brings the fee-inclusive cost within the budget, because every unit
    given up costs at least the best ask. A division error of `eps` costs at most `eps` units at the ask.
   */
  lemma TrimFits(asks: seq<Level>, fill: Fill, a: seq<real>, fee: real, budget: real, cut: real, eps: real, next: real)
    requires GoodAsks(asks) && Taken(asks, fill, a) && fee >= 0.0 && eps >= 0.0
    requires Times(fill.gross, 1.0 + Rate(fee)) >= budget
    requires cut >= (Times(fill.gross, 1.0 + Rate(fee)) - budget) / asks[0].price.value - eps
    requires 0.0 <= next <= fill.filled - cut && next <= fill.filled
    ensures next <= Depth(Lots(asks))
    ensures Times(WalkCost(Lots(asks), next), 1.0 + Rate(fee)) <=
            budget + Times(Times(asks[0].price.value, eps), 1.0 + Rate(fee))
  {
    hide Times, Rate, Lots, WalkCost, CostOf, Depth;
    var lots, ask, total := Lots(asks), asks[0].price.value, Times(fill.gross, 1.0 + Rate(fee));
    LotsArePositive(asks);
    LotsAreSorted(asks);
    BestAskBounds(asks);
    FeasibleWithinDepth(lots, a, fill.filled);
    GreedyIsCheapest(lots, a, fill.filled);
    MarginalCost(lots, ask, next, fill.filled);
    RateIsPositive(fee);
    TrimArithmetic(ask, fill.gross, WalkCost(lots, next), fill.filled - next, Rate(fee), budget, eps);
  }

  lemma RateIsPositive(fee: real)
    requires fee >= 0.0
    ensures Rate(fee) >= 0.0
  {
  }

  lemma TrimArithmetic(ask: real, gross: real, gross': real, given: real, r: real, budget: real, eps: real)
    requires ask > 0.0 && r >= 0.0 && Times(gross, 1.0 + r) >= budget
    requires given >= (Times(gross, 1.0 + r) - budget) / ask - eps && gross' <= gross - Times(ask, given)
    ensures Times(gross', 1.0 + r) <= budget + Times(Times(ask, eps), 1.0 + r)
  {
    var over := Times(gross, 1.0 + r) - budget;
    assert Times(ask, given) >= over - Times(ask, eps) by {
      TimesMonoRight(ask, over / ask - eps, given);
      TimesAdd(ask, over / ask - eps, eps);
      DivTimes(over, ask);
    }
    var kept := gross - over + Times(ask, eps);
    assert gross' <= kept;
    assert Times(gross', 1.0 + r) <= Times(kept, 1.0 + r) by {
      TimesMono(gross', kept, 1.0 + r);
    }
    assert kept * (1.0 + r) == gross * (1.0 + r) - over * (1.0 + r) + Times(ask, eps) * (1.0 + r);
    assert over * (1.0 + r) >= over by {
      assert over * r >= 0.0;
      assert over * (1.0 + r) == over + over * r;
    }
  }

  /** The fee-inclusive cost of a fill is known and within the budget. */
  ghost predicate Affordable(fill: Fill, fee: real, budget: real) {
    var total := AfterFee(fill.gross, fee, BUY);
    total.Some? && total.value <= budget
  }

  /** The size first tried: the cap as the venue would format it, or the cap itself. */
  function Tried(format: real -> Option<real>, touchCap: real): real {
    if format(touchCap).Some? then format(touchCap).value else touchCap
  }

  /** The fill of `x` costs no more than the budget with the fee on top. */
  ghost predicate FitsAt(book: Book, fee: real, budget: real, x: real) {
    Times(WalkCost(Lots(book.asks), x), 1.0 + Rate(fee)) <= budget
  }

  /** A fill that is a walk of its own size and costs something. */
  ghost predicate WalkedFill(book: Book, fill: Fill) {
    fill.gross > 0.0 && fill.gross == WalkCost(Lots(book.asks), fill.filled)
  }

  ghost predicate PricedAsk(book: Book) {
    book.asks != [] && book.asks[0].price.Some? && book.asks[0].price.value > 0.0
  }

  /** One trim of a fill of `x` leaves something: it gives up less than `x`, and the rest formats to something. */
  ghost predicate TrimsAt(
    book: Book, fee: real, budget: real, step: Option<real>, format: real -> Option<real>, x: real)
  {
    PricedAsk(book) &&
    var over := (Times(WalkCost(Lots(book.asks), x), 1.0 + Rate(fee)) - budget) / book.asks[0].price.value;
    var cut := if step.Some? && step.value > 0.0 && over < step.value then step.value else over;
    cut < x && Tried(format, x - cut) > 0.0
  }

  /** Division is exact and the gross budget is what Allocate sets. */
  ghost predicate Funded(div: (real, real) -> real, fee: real, budget: real, grossBudget: real) {
    Exact(div) && fee >= 0.0 && budget > 0.0 && grossBudget == div(budget, 1.0 + Rate(fee))
  }

  /** The fill of the most that the cap and the gross budget allow. */
  ghost predicate LiftsMost(book: Book, q: real, grossBudget: real, fill: Fill) {
    Most(Lots(book.asks), q, grossBudget, fill.filled) && fill.gross == WalkCost(Lots(book.asks), fill.filled)
  }

  lemma MostOfNothing(q: real, cash: real, x: real)
    requires Most([], q, cash, x)
    ensures x <= 0.0
  {
  }

  lemma GrossBudgetIsPositive(div: (real, real) -> real, fee: real, budget: real)
    requires Exact(div) && fee >= 0.0 && budget > 0.0
    ensures div(budget, 1.0 + Rate(fee)) > 0.0
  {
    RateIsPositive(fee);
    TakeIsPositive(div, budget, 1.0 + Rate(fee));
  }

  /**
    Lifts asks under the touch cap and the gross budget, then trims until the fee-inclusive cost fits.
    Whatever the division rounds to, a fill it returns is affordable and under the cap. On sorted asks,
    exact division needs at most one trim, and none under the gross budget Allocate sets; a division
    off by at most `eps` needs at most two when the lot increment covers the error.
   */
  method SizeBuy(book: Book, fee: real, budget: real, grossBudget: real, touchCap: real,
                 step: Option<real>, format: real -> Option<real>, div: (real, real) -> real, ghost eps: real)
    returns (fill: Option<Fill>, ghost trims: nat)
    requires Shrinks(format)
    ensures fill.Some? ==> 0.0 < fill.value.filled <= touchCap && Affordable(fill.value, fee, budget)
    ensures fill.Some? ==> exists a :: Taken(book.asks, fill.value, a)
    ensures fill.Some? && format(touchCap).Some? ==> fill.value.filled <= format(touchCap).value
    ensures Exact(div) && Ascending(book.asks) && fee >= 0.0 ==> trims <= 1
    ensures Exact(div) && fee >= 0.0 && budget >= 0.0 && grossBudget == div(budget, 1.0 + Rate(fee)) ==> trims == 0
    ensures Off(div, eps) && Ascending(book.asks) && fee >= 0.0 && Covers(step, eps, fee) ==> trims <= 2
    ensures Funded(div, fee, budget, grossBudget) ==>
      (fill.Some? <==> touchCap > 0.0 && Tried(format, touchCap) > 0.0 && Lots(book.asks) != [])
    ensures Funded(div, fee, budget, grossBudget) && fill.Some? ==>
      LiftsMost(book, Tried(format, touchCap), grossBudget, fill.value)
    ensures Exact(div) && Ascending(book.asks) && fee >= 0.0 && grossBudget > 0.0 ==>
      forall x :: Most(Lots(book.asks), Tried(format, touchCap), grossBudget, x) ==>
        (fill.Some? <==>
          touchCap > 0.0 && Tried(format, touchCap) > 0.0 && Lots(book.asks) != [] &&
          (FitsAt(book, fee, budget, x) || TrimsAt(book, fee, budget, step, format, x)))
  {
    hide Times, Lots, WalkCost, CostOf, Feasible, Exact, Rate, Ascending, Off, Most, LiftsMost, Funded, FitsAt, TrimsAt,
      Affordable, Covers;
    trims := 0;
    if touchCap <= 0.0 {
      return None, trims;
    }
    var sized := format(touchCap);
    var qty := if sized.Some? then sized.value else touchCap;
    var f, _, a := Consume(book, qty, Some(grossBudget), BUY, div);
    ghost var lifts := Funded(div, fee, budget, grossBudget);
    ghost var precise := Exact(div) && Ascending(book.asks) && fee >= 0.0 && grossBudget > 0.0;
    if lifts && f.Some? {
      FirstFill(book, qty, div, fee, budget, grossBudget, f.value);
    }
    if precise && f.Some? {
      FirstMost(book, qty, grossBudget, f.value);
    }
    if f.None? || f.value.filled <= 0.0 {
      return None, trims;
    }
    if Exact(div) && fee >= 0.0 && budget >= 0.0 {
      GrossBudgetFits(div, fee, budget, f.value.gross);
    }
    if lifts {
      FundedMeans(div, fee, budget, grossBudget);
    }
    fill, trims := TrimToBudget(book, f.value, a, fee, budget, step, format, div, eps);
  }

  /** Trims a fill until its fee-inclusive cost fits the budget. */
  method TrimToBudget(book: Book, first: Fill, ghost a0: seq<real>, fee: real, budget: real, step: Option<real>,
                      format: real -> Option<real>, div: (real, real) -> real, ghost eps: real)
    returns (fill: Option<Fill>, ghost trims: nat)
    requires Shrinks(format) && Taken(book.asks, first, a0) && first.filled > 0.0
    ensures fill.Some? ==> 0.0 < fill.value.filled <= first.filled && Affordable(fill.value, fee, budget)
    ensures fill.Some? ==> exists a :: Taken(book.asks, fill.value, a)
    ensures Times(first.gross, 1.0 + Rate(fee)) <= budget ==>
      trims == 0 && fill == if first.gross > 0.0 then Some(first) else None
    ensures Exact(div) && Ascending(book.asks) && fee >= 0.0 ==> trims <= 1
    ensures Off(div, eps) && Ascending(book.asks) && fee >= 0.0 && Covers(step, eps, fee) ==> trims <= 2
    ensures Exact(div) && Ascending(book.asks) && fee >= 0.0 && WalkedFill(book, first) ==>
      (fill.Some? <==>
        FitsAt(book, fee, budget, first.filled) || TrimsAt(book, fee, budget, step, format, first.filled))
  {
    hide Times, Lots, WalkCost, CostOf, Feasible, AfterFee, Exact, Rate, Ascending, Off, NearlyFits, TrimsAt, Covers;
    trims := 0;
    var f: Option<Fill>, k := Some(first), 0;
    ghost var a := a0;
    ghost var sorted := Ascending(book.asks) && fee >= 0.0;
    ghost var tight, loose := sorted && Exact(div), sorted && Off(div, eps) && Covers(step, eps, fee);
    ghost var precise := tight && WalkedFill(book, first);
    while k < 8
      invariant 0 <= k <= 8 && trims == k && f.Some? && 0.0 < f.value.filled <= first.filled
      invariant Taken(book.asks, f.value, a) && (k == 0 ==> f.value == first)
      invariant k >= 1 ==> Times(first.gross, 1.0 + Rate(fee)) > budget
      invariant precise && k >= 1 ==> f.value.gross > 0.0 && TrimsAt(book, fee, budget, step, format, first.filled)
      invariant tight && k >= 1 ==> k == 1 && Times(f.value.gross, 1.0 + Rate(fee)) <= budget
      invariant loose && k == 1 ==> NearlyFits(book.asks, f.value, fee, budget, eps)
      invariant loose && k >= 2 ==> k == 2 && Times(f.value.gross, 1.0 + Rate(fee)) <= budget
    {
      var total := AfterFee(f.value.gross, fee, BUY);
      TotalIs(f.value.gross, fee);
      if total.None? {
        return None, trims;
      }
      if total.value <= budget {
        return f, trims;
      }
      f, a := Retake(book, f.value, a, total.value, fee, budget, step, format, div, eps, k);
      if f.None? {
        return None, trims;
      }
      k := k + 1;
      trims := trims + 1;
    }
    return None, trims;
  }

  /** One trim: the excess in units at the best ask, at least one increment, is given up and the rest filled anew. */
  method Retake(book: Book, fill: Fill, ghost a: seq<real>, total: real, fee: real, budget: real, step: Option<real>,
                format: real -> Option<real>, div: (real, real) -> real, ghost eps: real, ghost k: int)
    returns (next: Option<Fill>, ghost a': seq<real>)
    requires Shrinks(format) && Taken(book.asks, fill, a) && fill.filled > 0.0
    requires total == Times(fill.gross, 1.0 + Rate(fee)) > budget
    ensures next.Some? ==> 0.0 < next.value.filled < fill.filled && Taken(book.asks, next.value, a')
    ensures next.Some? && Exact(div) && Ascending(book.asks) && fee >= 0.0 ==>
      Times(next.value.gross, 1.0 + Rate(fee)) <= budget
    ensures next.Some? && Off(div, eps) && Ascending(book.asks) && fee >= 0.0 && Covers(step, eps, fee) ==>
      (k == 0 ==> NearlyFits(book.asks, next.value, fee, budget, eps)) &&
      (k == 1 && NearlyFits(book.asks, fill, fee, budget, eps) ==>
        Times(next.value.gross, 1.0 + Rate(fee)) <= budget)
    ensures Exact(div) && fee >= 0.0 && WalkedFill(book, fill) ==>
      (next.Some? <==> TrimsAt(book, fee, budget, step, format, fill.filled)) &&
      (next.Some? ==> next.value.gross > 0.0)
  {
    hide Times, Lots, WalkCost, CostOf, Depth, Feasible, Exact, Rate, Ascending, Off, NearlyFits, FitsAt, TrimsAt;
    a' := a;
    if Exact(div) && fee >= 0.0 && WalkedFill(book, fill) {
      FirstTrim(book, fee, budget, step, format, div, fill);
    }
    if book.asks == [] || book.asks[0].price.None? || book.asks[0].price.value <= 0.0 {
      return None, a';
    }
    var size, over, cut := TrimTo(fill.filled, total - budget, book.asks[0].price.value, step, format, div);
    if size.None? {
      return None, a';
    }
    var ok;
    next, ok, a' := Consume(book, size.value, None, BUY, div);
    RefillIsComplete(book.asks, fill, a, size.value);
    if !ok || next.None? || next.value.filled <= 0.0 {
      return None, a';
    }
    ghost var sorted := Ascending(book.asks) && fee >= 0.0;
    if sorted && Exact(div) {
      ExactAt(div, total - budget, book.asks[0].price.value);
      TrimFits(book.asks, fill, a, fee, budget, cut, 0.0, size.value);
      TimesZero(book.asks[0].price.value, 1.0 + Rate(fee));
    }
    if sorted && Off(div, eps) && Covers(step, eps, fee) {
      if k == 0 || (k == 1 && NearlyFits(book.asks, fill, fee, budget, eps)) {
        LooseTrim(book.asks, fill, a, fee, budget, over, cut, step, eps, size.value, div, k);
      }
    }
  }

  /** The first fill is the most there is, and it is something exactly when there is something to lift. */
  lemma FirstMost(book: Book, q: real, grossBudget: real, f: Fill)
    requires q > 0.0 && grossBudget > 0.0
    requires Most(Lots(book.asks), q, grossBudget, f.filled) && f.gross == WalkCost(Lots(book.asks), f.filled)
    ensures f.filled > 0.0 <==> Lots(book.asks) != []
    ensures f.filled > 0.0 ==> f.gross > 0.0
    ensures forall x :: Most(Lots(book.asks), q, grossBudget, x) ==> x == f.filled
  {
    hide Times, Lots, WalkCost, Depth, Most;
    LotsArePositive(book.asks);
    LotsArePriced(book.asks);
    if Lots(book.asks) != [] {
      MostIsPositive(Lots(book.asks), q, grossBudget, f.filled);
    } else {
      MostOfNothing(q, grossBudget, f.filled);
    }
    forall x | Most(Lots(book.asks), q, grossBudget, x) ensures x == f.filled {
      MostIsUnique(Lots(book.asks), q, grossBudget, x, f.filled);
    }
  }

  /** What the first look at the fee-inclusive cost decides. */
  lemma FirstTrim(book: Book, fee: real, budget: real, step: Option<real>, format: real -> Option<real>,
                  div: (real, real) -> real, first: Fill)
    requires Exact(div) && fee >= 0.0 && WalkedFill(book, first)
    ensures FitsAt(book, fee, budget, first.filled) <==> Times(first.gross, 1.0 + Rate(fee)) <= budget
    ensures TrimsAt(book, fee, budget, step, format, first.filled) ==> PricedAsk(book)
    ensures !FitsAt(book, fee, budget, first.filled) && PricedAsk(book) ==>
      var over := div(Times(first.gross, 1.0 + Rate(fee)) - budget, book.asks[0].price.value);
      var cut := if step.Some? && step.value > 0.0 && over < step.value then step.value else over;
      0.0 < cut &&
      (TrimsAt(book, fee, budget, step, format, first.filled) <==>
        cut < first.filled && Tried(format, first.filled - cut) > 0.0)
  {
    hide Times, Lots, WalkCost, Exact, Rate, Tried;
    if PricedAsk(book) {
      var ask := book.asks[0].price.value;
      ExactAt(div, Times(first.gross, 1.0 + Rate(fee)) - budget, ask);
      if !FitsAt(book, fee, budget, first.filled) {
        PositiveRatio(Times(first.gross, 1.0 + Rate(fee)) - budget, ask);
      }
    }
  }

  lemma PositiveRatio(x: real, p: real)
    requires x > 0.0 && p > 0.0
    ensures x / p > 0.0
  {
  }

  /** A smaller fill of the same asks is complete and costs something. */
  lemma RefillIsComplete(asks: seq<Level>, fill: Fill, a: seq<real>, next: real)
    requires Taken(asks, fill, a) && next <= fill.filled
    ensures next <= Depth(Lots(asks)) && (next > 0.0 ==> WalkCost(Lots(asks), next) > 0.0)
  {
    hide Times, Lots, WalkCost, Depth, CostOf, Feasible;
    LotsArePositive(asks);
    LotsArePriced(asks);
    FeasibleWithinDepth(Lots(asks), a, fill.filled);
    if next > 0.0 {
      WalkGrows(Lots(asks), 0.0, next);
      WalkIsPositive(Lots(asks), 0.0);
    }
  }

  lemma FundedMeans(div: (real, real) -> real, fee: real, budget: real, grossBudget: real)
    requires Funded(div, fee, budget, grossBudget)
    ensures Exact(div) && fee >= 0.0 && budget >= 0.0 && grossBudget == div(budget, 1.0 + Rate(fee))
  {
  }

  /** Under the gross budget the capped walk fills something exactly when there is something to lift. */
  lemma FirstFill(book: Book, q: real, div: (real, real) -> real, fee: real, budget: real, grossBudget: real, f: Fill)
    requires Funded(div, fee, budget, grossBudget) && q > 0.0
    requires Exact(div) && grossBudget > 0.0 ==>
      Most(Lots(book.asks), q, grossBudget, f.filled) && f.gross == WalkCost(Lots(book.asks), f.filled)
    ensures LiftsMost(book, q, grossBudget, f) && (f.filled > 0.0 <==> Lots(book.asks) != [])
    ensures f.filled > 0.0 ==> f.gross > 0.0
  {
    hide Times, Lots, WalkCost, Depth, Most, Exact, Rate;
    GrossBudgetIsPositive(div, fee, budget);
    FirstMost(book, q, grossBudget, f);
  }

  /** Division that is off by at most `eps`. */
  ghost predicate Off(div: (real, real) -> real, eps: real) {
    eps >= 0.0 && forall x, y :: y > 0.0 ==> x / y - eps <= div(x, y) <= x / y + eps
  }

  /** The lot increment is set and at least `eps` with the fee on top. */
  ghost predicate Covers(step: Option<real>, eps: real, fee: real) {
    step.Some? && step.value > 0.0 && step.value >= Times(eps, 1.0 + Rate(fee))
  }

  /** The cost exceeds the budget by no more than `eps` units at the best ask, fee included. */
  ghost predicate NearlyFits(asks: seq<Level>, fill: Fill, fee: real, budget: real, eps: real) {
    asks != [] && asks[0].price.Some? &&
    Times(fill.gross, 1.0 + Rate(fee)) <= budget + Times(Times(asks[0].price.value, eps), 1.0 + Rate(fee))
  }

  /** With rounded division the first trim nearly fits, and the second, at least one increment, fits. */
  lemma LooseTrim(asks: seq<Level>, fill: Fill, a: seq<real>, fee: real, budget: real, over: real, cut: real,
                  step: Option<real>, eps: real, next: real, div: (real, real) -> real, k: int)
    requires GoodAsks(asks) && Taken(asks, fill, a) && fee >= 0.0 && Off(div, eps) && Covers(step, eps, fee)
    requires Times(fill.gross, 1.0 + Rate(fee)) >= budget
    requires over == div(Times(fill.gross, 1.0 + Rate(fee)) - budget, asks[0].price.value)
    requires cut == if over < step.value then step.value else over
    requires 0.0 <= next <= fill.filled - cut && 0 <= k <= 1 && (k == 1 ==> NearlyFits(asks, fill, fee, budget, eps))
    ensures next <= Depth(Lots(asks))
    ensures k == 0 ==> NearlyFits(asks, Fill(next, WalkCost(Lots(asks), next)), fee, budget, eps)
    ensures k == 1 ==> Times(WalkCost(Lots(asks), next), 1.0 + Rate(fee)) <= budget
  {
    var ask := asks[0].price.value;
    var total := Times(fill.gross, 1.0 + Rate(fee));
    if k == 0 {
      TrimFits(asks, fill, a, fee, budget, cut, eps, next);
    } else {
      OverByEps(ask, eps, 1.0 + Rate(fee), total - budget);
      TrimFits(asks, fill, a, fee, budget, cut, 0.0, next);
      TimesZero(ask, 1.0 + Rate(fee));
    }
  }

  lemma OverByEps(ask: real, eps: real, q: real, over: real)
    requires ask > 0.0 && over <= Times(Times(ask, eps), q)
    ensures over / ask <= Times(eps, q)
  {
    assert Times(Times(ask, eps), q) == ask * (eps * q);
    assert over / ask <= (ask * (eps * q)) / ask by {
      DivMono(over, ask * (eps * q), ask);
    }
    CancelLeft(ask, eps * q);
  }

  lemma DivMono(x: real, y: real, p: real)
    requires p > 0.0 && x <= y
    ensures x / p <= y / p
  {
  }

  lemma CancelLeft(p: real, x: real)
    requires p > 0.0
    ensures (p * x) / p == x
  {
  }

  lemma GrossBudgetFits(div: (real, real) -> real, fee: real, budget: real, gross: real)
    requires Exact(div) && fee >= 0.0 && budget >= 0.0
    ensures div(budget, 1.0 + Rate(fee)) >= 0.0
    ensures gross <= div(budget, 1.0 + Rate(fee)) ==> Times(gross, 1.0 + Rate(fee)) <= budget
  {
    RateIsPositive(fee);
    var q := 1.0 + Rate(fee);
    ExactAt(div, budget, q);
    DivTimes(budget, q);
    if gross <= div(budget, q) {
      TimesMono(gross, div(budget, q), q);
    }
  }

  /** The size to try next: the excess in units at the best ask, at least one increment, given up. */
  method TrimTo(filled: real, excess: real, ask: real, step: Option<real>,
                format: real -> Option<real>, div: (real, real) -> real)
    returns (next: Option<real>, ghost over: real, ghost cut: real)
    requires Shrinks(format)
    ensures over == div(excess, ask)
    ensures cut == if step.Some? && step.value > 0.0 && over < step.value then step.value else over
    ensures next.Some? ==> next.value <= filled - cut && next.value < filled && 0.0 < cut < filled
    ensures next == if 0.0 < cut < filled then Some(Tried(format, filled - cut)) else None
  {
    var raw := div(excess, ask);
    var c := if step.Some? && step.value > 0.0 && raw < step.value then step.value else raw;
    over, cut := raw, c;
    if c <= 0.0 || filled <= c {
      return None, over, cut;
    }
    var resized := format(filled - c);
    var size := if resized.Some? then resized.value else filled - c;
    if size >= filled {
      return None, over, cut;
    }
    return Some(size), over, cut;
  }

  lemma TotalIs(gross: real, fee: real)
    ensures AfterFee(gross, fee, BUY) == if gross > 0.0 then Some(Times(gross, 1.0 + Rate(fee))) else None
  {
  }

  lemma ExactAt(div: (real, real) -> real, x: real, y: real)
    requires Exact(div) && y > 0.0
    ensures div(x, y) == x / y
  {
  }

  lemma TimesZero(p: real, q: real)
    ensures Times(Times(p, 0.0), q) == 0.0
  {
  }

  /** Both touches are priced and the bid is below the ask. */
  predicate BookReady(book: Book) {
    book.bids != [] && book.asks != [] && book.bids[0].price.Some? && book.asks[0].price.Some? &&
    book.bids[0].price.value < book.asks[0].price.value
  }

  /** What the venue and the desk demand of a size. */
  datatype Limits = Limits(
    qtyMin: Option<real>, costMin: Option<real>, step: Option<real>, maxFraction: real, touchDivisor: real)

  /**
    `x` is what the desk buys: the most asks under the formatted touch cap that the allowed fraction of
    the cash pays for after the fee, if it is something and meets both venue minimums.
   */
  ghost predicate DeskLot(book: Book, cash: Option<real>, limits: Limits, fee: real,
                          format: real -> Option<real>, div: (real, real) -> real, x: real) {
    cash.Some? && limits.qtyMin.Some? && limits.costMin.Some? && Times(cash.value, limits.maxFraction) > 0.0 &&
    BookReady(book) && book.bids[0].quantity.Some? && book.bids[0].quantity.value > 0.0 &&
    var touchCap := div(book.bids[0].quantity.value, limits.touchDivisor);
    var grossBudget := div(Times(cash.value, limits.maxFraction), 1.0 + Rate(fee));
    touchCap > 0.0 && Tried(format, touchCap) > 0.0 && Lots(book.asks) != [] &&
    Most(Lots(book.asks), Tried(format, touchCap), grossBudget, x) &&
    x >= limits.qtyMin.value && WalkCost(Lots(book.asks), x) >= limits.costMin.value
  }

  /**
    Sizes a venue-legal long from the wallet's cash. Every quantity it returns costs, fees included, at
    most the allowed fraction of the cash, is within the touch cap, and meets both venue minimums.
   */
  method Allocate(book: Book, cash: Option<real>, limits: Limits, fee: real,
                  format: real -> Option<real>, div: (real, real) -> real)
    returns (quantity: Option<real>, ghost fill: Fill)
    requires Shrinks(format)
    ensures quantity.Some? ==>
      cash.Some? && limits.qtyMin.Some? && limits.costMin.Some? && BookReady(book) && book.bids[0].quantity.Some?
    ensures quantity.Some? ==> quantity.value == fill.filled && (exists a :: Taken(book.asks, fill, a))
    ensures quantity.Some? ==> Affordable(fill, fee, Times(cash.value, limits.maxFraction))
    ensures quantity.Some? ==> 0.0 < quantity.value <= div(book.bids[0].quantity.value, limits.touchDivisor)
    ensures quantity.Some? ==> quantity.value >= limits.qtyMin.value
    ensures quantity.Some? ==> Times(div(fill.gross, fill.filled), fill.filled) >= limits.costMin.value
    ensures quantity.Some? && Exact(div) ==> fill.gross >= limits.costMin.value
    ensures Exact(div) && fee >= 0.0 ==>
      forall x :: quantity == Some(x) <==> DeskLot(book, cash, limits, fee, format, div, x)
  {
    hide Times, Lots, CostOf, Feasible, AfterFee, Exact, Affordable, WalkCost, Depth, Most, Rate;
    fill := Fill(0.0, 0.0);
    if cash.None? || limits.qtyMin.None? || limits.costMin.None? {
      return None, fill;
    }
    var budget := Times(cash.value, limits.maxFraction);
    if budget <= 0.0 {
      return None, fill;
    }
    var grossBudget := div(budget, 1.0 + Rate(fee));
    if !BookReady(book) {
      return None, fill;
    }
    var touchBid := book.bids[0].quantity;
    if touchBid.None? || touchBid.value <= 0.0 {
      return None, fill;
    }
    var touchCap := div(touchBid.value, limits.touchDivisor);
    var sized, _ := SizeBuy(book, fee, budget, grossBudget, touchCap, limits.step, format, div, 0.0);
    if sized.None? {
      return None, fill;
    }
    var f := sized.value;
    ExactCost(div, f);
    if Exact(div) && fee >= 0.0 {
      forall x, y | Most(Lots(book.asks), Tried(format, touchCap), grossBudget, x) &&
                    Most(Lots(book.asks), Tried(format, touchCap), grossBudget, y)
        ensures x == y
      {
        MostIsUnique(Lots(book.asks), Tried(format, touchCap), grossBudget, x, y);
      }
    }
    var cost := Times(div(f.gross, f.filled), f.filled);
    if f.filled < limits.qtyMin.value || cost < limits.costMin.value {
      return None, fill;
    }
    return Some(f.filled), f;
  }

  lemma ExactCost(div: (real, real) -> real, f: Fill)
    requires f.filled > 0.0
    ensures Exact(div) ==> Times(div(f.gross, f.filled), f.filled) == f.gross
  {
    if Exact(div) {
      ExactAt(div, f.gross, f.filled);
      DivTimes(f.gross, f.filled);
    }
  }

  // ------------------------------------------------------------- round trip

  /** A complete buy of `quantity` against the asks: its average price and its fee. */
  datatype EntryFill = EntryFill(entryPrice: real, entryFee: real)

  /** The side is deep enough for `quantity`, which then costs something. */
  ghost predicate Fillable(levels: seq<Level>, quantity: real) {
    quantity <= Depth(Lots(levels)) && WalkCost(Lots(levels), quantity) > 0.0
  }

  method EntryCost(book: Book, quantity: real, fee: real) returns (r: Option<EntryFill>)
    ensures r.Some? <==> quantity > 0.0 && BookReady(book) && Fillable(book.asks, quantity)
    ensures r.Some? ==>
      Times(r.value.entryPrice, quantity) == WalkCost(Lots(book.asks), quantity) &&
      Some(Times(r.value.entryPrice, quantity) + r.value.entryFee) ==
        AfterFee(WalkCost(Lots(book.asks), quantity), fee, BUY)
  {
    hide Lots, WalkCost, CostOf, Depth, Feasible;
    if quantity <= 0.0 || !BookReady(book) {
      return None;
    }
    var div := (x: real, y: real) => if y == 0.0 then 0.0 else x / y;
    var fill, ok, _ := Consume(book, quantity, None, BUY, div);
    if !ok {
      return None;
    }
    var total := AfterFee(fill.value.gross, fee, BUY);
    if total.None? {
      return None;
    }
    DivTimes(fill.value.gross, fill.value.filled);
    return Some(EntryFill(fill.value.gross / fill.value.filled, total.value - fill.value.gross));
  }

  /** The average price of selling `quantity` into the bids. */
  method ExitVwap(book: Book, quantity: real) returns (vwap: Option<real>)
    ensures vwap.Some? <==> quantity > 0.0 && BookReady(book) && quantity <= Depth(Lots(book.bids))
    ensures vwap.Some? ==> Times(vwap.value, quantity) == WalkCost(Lots(book.bids), quantity)
  {
    hide Lots, WalkCost, CostOf, Depth, Feasible;
    if quantity <= 0.0 || !BookReady(book) {
      return None;
    }
    var div := (x: real, y: real) => if y == 0.0 then 0.0 else x / y;
    var fill, ok, _ := Consume(book, quantity, None, SELL, div);
    if !ok {
      return None;
    }
    DivTimes(fill.value.gross, fill.value.filled);
    return Some(fill.value.gross / fill.value.filled);
  }

  /** The fee-net profit of a round trip as a percentage of its fee-inclusive entry cost. */
  function RoundTripPct(entryGross: real, exitGross: real, fee: real): real
    requires Times(entryGross, 1.0 + Rate(fee)) != 0.0
  {
    var cost := Times(entryGross, 1.0 + Rate(fee));
    (Times(exitGross, 1.0 - Rate(fee)) - cost) / cost * 100.0
  }

  /** The fee-net percentage of opening `quantity` at the asks and closing it at once into the bids. */
  method EntryCloseNow(book: Book, quantity: real, fee: real) returns (pct: Option<real>)
    requires 0.0 <= fee
    ensures pct.Some? <==>
      quantity > 0.0 && BookReady(book) && Fillable(book.asks, quantity) && Fillable(book.bids, quantity)
    ensures pct.Some? ==> Times(WalkCost(Lots(book.asks), quantity), 1.0 + Rate(fee)) > 0.0
    ensures pct.Some? ==>
      pct.value == RoundTripPct(WalkCost(Lots(book.asks), quantity), WalkCost(Lots(book.bids), quantity), fee)
  {
    hide Times, Rate, Lots, WalkCost, CostOf, Depth, Feasible;
    var entry := EntryCost(book, quantity, fee);
    if entry.Some? {
      PositiveFactor(entry.value.entryPrice, quantity);
      RateIsPositive(fee);
      PositiveProduct(Times(entry.value.entryPrice, quantity), 1.0 + Rate(fee));
    }
    if entry.None? || entry.value.entryPrice <= 0.0 {
      return None;
    }
    var div := (x: real, y: real) => if y == 0.0 then 0.0 else x / y;
    var exit, ok, _ := Consume(book, quantity, None, SELL, div);
    if !ok {
      return None;
    }
    var entryCost := Times(entry.value.entryPrice, quantity);
    var cost := AfterFee(entryCost, fee, BUY);
    var netExit := AfterFee(exit.value.gross, fee, SELL);
    if cost.None? || netExit.None? || cost.value <= 0.0 {
      return None;
    }
    return Some((netExit.value - cost.value) / cost.value * 100.0);
  }

  lemma PositiveFactor(p: real, x: real)
    requires Times(p, x) > 0.0 && x > 0.0
    ensures p > 0.0
  {
    if p <= 0.0 {
      TimesMono(p, 0.0, x);
    }
  }

  lemma PositiveProduct(p: real, x: real)
    requires p > 0.0 && x > 0.0
    ensures Times(p, x) > 0.0
  {
  }

  /** The greedy cost of `q` units is at least `q` times any price no level undercuts. */
  lemma WalkAtLeast(lots: seq<Lot>, p: real, q: real)
    requires Positive(lots) && PricedAtLeast(lots, p) && 0.0 <= q <= Depth(lots)
    ensures WalkCost(lots, q) >= Times(p, q)
  {
    hide Times;
    MarginalCost(lots, p, 0.0, q);
  }

  lemma WalkAtMost(lots: seq<Lot>, p: real, q: real)
    requires Positive(lots) && 0.0 <= q <= Depth(lots) && forall i :: 0 <= i < |lots| ==> lots[i].price <= p
    ensures WalkCost(lots, q) <= Times(p, q)
  {
    hide Times, WalkCost, Depth, CostOf;
    TimesNeg(p, q);
    MirrorDepth(lots);
    WalkAtLeast(Mirrored(lots), -p, q);
    MirrorCosts(lots, [], q);
  }

  lemma {:induction false} MirrorDepth(lots: seq<Lot>)
    ensures Depth(Mirrored(lots)) == Depth(lots)
  {
    if lots != [] {
      assert Mirrored(lots)[1..] == Mirrored(lots[1..]);
      MirrorDepth(lots[1..]);
    }
  }

  /** The best bid bounds every tradable bid from above. */
  lemma BestBidBounds(levels: seq<Level>)
    requires levels != [] && Descending(levels) && levels[0].price.Some?
    ensures forall k :: 0 <= k < |Lots(levels)| ==> Lots(levels)[k].price <= levels[0].price.value
  {
    forall k | 0 <= k < |Lots(levels)| ensures Lots(levels)[k].price <= levels[0].price.value {
      LotsFrom(levels, k);
    }
  }

  /**
    Opening and closing at once on an uncrossed sorted book loses: the percentage is at most what the
    touch alone would give after both fees, and that is strictly negative.
   */
  lemma CloseNowLoses(book: Book, q: real, fee: real)
    requires BookReady(book) && Ascending(book.asks) && Descending(book.bids) && 0.0 <= fee <= 100.0
    requires 0.0 < q <= Depth(Lots(book.asks)) && q <= Depth(Lots(book.bids))
    ensures var bid, ask, r := book.bids[0].price.value, book.asks[0].price.value, Rate(fee);
      var entry, exit := WalkCost(Lots(book.asks), q), WalkCost(Lots(book.bids), q);
      Times(entry, 1.0 + r) > 0.0 && Times(ask, 1.0 + r) > 0.0 &&
      RoundTripPct(entry, exit, fee) <= (Times(bid, 1.0 - r) / Times(ask, 1.0 + r) - 1.0) * 100.0 < 0.0
  {
    hide Lots, WalkCost, Depth, Times;
    var bid, ask, r := book.bids[0].price.value, book.asks[0].price.value, Rate(fee);
    LotsArePositive(book.asks);
    LotsArePositive(book.bids);
    BestAskBounds(book.asks);
    BestBidBounds(book.bids);
    DeepMeansPositiveBid(book.bids);
    WalkAtLeast(Lots(book.asks), ask, q);
    WalkAtMost(Lots(book.bids), bid, q);
    RatioBound(bid, ask, q, WalkCost(Lots(book.asks), q), WalkCost(Lots(book.bids), q), r);
  }

  /** The percentage at the touch after both fees. */
  ghost function TouchPct(book: Book, fee: real): real
    requires BookReady(book)
  {
    var entry := Times(book.asks[0].price.value, 1.0 + Rate(fee));
    if entry == 0.0 then 0.0 else (Times(book.bids[0].price.value, 1.0 - Rate(fee)) / entry - 1.0) * 100.0
  }

  /**
    What the desk's own lot would lose if it were opened and closed at once. The lot respects the wallet,
    the touch cap and the venue; on a sorted book the answer is negative and no better than the touch's.
   */
  method EntryCloseNowPct(book: Book, cash: Option<real>, limits: Limits, fee: real,
                          format: real -> Option<real>, div: (real, real) -> real)
    returns (pct: Option<real>, quantity: real)
    requires Shrinks(format) && 0.0 <= fee
    ensures pct.Some? ==>
      cash.Some? && limits.qtyMin.Some? && BookReady(book) && book.bids[0].quantity.Some? &&
      0.0 < quantity <= div(book.bids[0].quantity.value, limits.touchDivisor) && quantity >= limits.qtyMin.value
    ensures pct.Some? ==> Fillable(book.asks, quantity) && Fillable(book.bids, quantity)
    ensures pct.Some? ==> Times(WalkCost(Lots(book.asks), quantity), 1.0 + Rate(fee)) > 0.0
    ensures pct.Some? ==>
      pct.value == RoundTripPct(WalkCost(Lots(book.asks), quantity), WalkCost(Lots(book.bids), quantity), fee)
    ensures pct.Some? && Ascending(book.asks) && Descending(book.bids) && fee <= 100.0 ==>
      pct.value <= TouchPct(book, fee) < 0.0
    ensures Exact(div) && pct.Some? ==> DeskLot(book, cash, limits, fee, format, div, quantity)
    ensures Exact(div) ==>
      (pct.Some? <==> exists x :: DeskLot(book, cash, limits, fee, format, div, x) && Fillable(book.bids, x))
  {
    hide Times, Rate, Lots, WalkCost, CostOf, Depth, Feasible, AfterFee, Exact, Affordable, RoundTripPct, Ascending,
      Descending, DeskLot;
    var sized, _ := Allocate(book, cash, limits, fee, format, div);
    if sized.None? {
      return None, 0.0;
    }
    quantity := sized.value;
    pct := EntryCloseNow(book, quantity, fee);
    if Exact(div) {
      DeskLotFills(book, cash, limits, fee, format, div, quantity);
    }
    if pct.Some? && Ascending(book.asks) && Descending(book.bids) && fee <= 100.0 {
      CloseNowLoses(book, quantity, fee);
    }
  }

  /** The asks can fill the desk's lot. */
  lemma DeskLotFills(book: Book, cash: Option<real>, limits: Limits, fee: real,
                     format: real -> Option<real>, div: (real, real) -> real, x: real)
    requires Exact(div) && fee >= 0.0 && DeskLot(book, cash, limits, fee, format, div, x)
    ensures x > 0.0 && BookReady(book) && Fillable(book.asks, x)
  {
    hide Times, Lots, Exact, Depth, WalkCost, Rate;
    LotsArePositive(book.asks);
    LotsArePriced(book.asks);
    var touchCap := div(book.bids[0].quantity.value, limits.touchDivisor);
    var budget := Times(cash.value, limits.maxFraction);
    GrossBudgetIsPositive(div, fee, budget);
    MostIsPositive(Lots(book.asks), Tried(format, touchCap), div(budget, 1.0 + Rate(fee)), x);
  }

  lemma DeepMeansPositiveBid(levels: seq<Level>)
    requires levels != [] && Descending(levels) && levels[0].price.Some? && Depth(Lots(levels)) > 0.0
    ensures levels[0].price.value > 0.0
  {
    LotsFrom(levels, 0);
    BestBidBounds(levels);
  }

  lemma RatioBound(bid: real, ask: real, q: real, entry: real, exit: real, r: real)
    requires 0.0 < bid < ask && q > 0.0 && 0.0 <= r <= 1.0
    requires entry >= Times(ask, q) && exit <= Times(bid, q)
    ensures Times(entry, 1.0 + r) > 0.0 && Times(ask, 1.0 + r) > 0.0
    ensures (Times(exit, 1.0 - r) - Times(entry, 1.0 + r)) / Times(entry, 1.0 + r) <=
            Times(bid, 1.0 - r) / Times(ask, 1.0 + r) - 1.0 < 0.0
  {
    hide Times;
    var cost, net := Times(entry, 1.0 + r), Times(exit, 1.0 - r);
    var a, b := Times(ask, 1.0 + r), Times(bid, 1.0 - r);
    FeeGap(bid, ask, r);
    TimesMono(Times(ask, q), entry, 1.0 + r);
    TimesMono(exit, Times(bid, q), 1.0 - r);
    TimesSwap(ask, q, 1.0 + r);
    TimesSwap(bid, q, 1.0 - r);
    assert a * q > 0.0;
    CrossDivide(net, cost, b, a, q);
    MinusOne(net, cost);
  }

  lemma MinusOne(x: real, y: real)
    requires y > 0.0
    ensures (x - y) / y == x / y - 1.0
  {
    var t := x / y;
    assert t * y == x;
    assert (t - 1.0) * y == x - y;
    QuotientIs(x - y, y, t - 1.0);
  }

  lemma QuotientIs(x: real, y: real, t: real)
    requires y > 0.0 && t * y == x
    ensures x / y == t
  {
    var u := x / y;
    assert u * y == x;
    assert (u - t) * y == 0.0;
  }

  lemma TimesSwap(p: real, x: real, y: real)
    ensures Times(Times(p, x), y) == Times(p, y) * x
  {
  }

  /** Fees never close the spread. */
  lemma FeeGap(bid: real, ask: real, r: real)
    requires 0.0 < bid < ask && 0.0 <= r <= 1.0
    ensures 0.0 <= Times(bid, 1.0 - r) < Times(ask, 1.0 + r)
  {
    assert bid * (1.0 - r) == bid - bid * r;
    assert ask * (1.0 + r) == ask + ask * r;
    assert ask * r >= 0.0 && bid * r >= 0.0;
  }

  lemma CrossDivide(net: real, cost: real, b: real, a: real, q: real)
    requires a > 0.0 && q > 0.0 && b >= 0.0 && cost >= a * q && net <= b * q && cost > 0.0
    ensures net / cost <= b / a
    ensures b < a ==> b / a < 1.0
  {
    var t := b / a;
    assert b == t * a && t >= 0.0;
    assert net <= t * (a * q);
    assert t * (a * q) <= t * cost by {
      TimesMonoRight(t, a * q, cost);
    }
    DivMono(net, t * cost, cost);
    assert (t * cost) / cost == t by {
      CancelLeft(cost, t);
    }
  }

  lemma {:induction false} LotsAreFalling(levels: seq<Level>)
    requires Descending(levels)
    ensures forall i, j :: 0 <= i < j < |Lots(levels)| ==> Lots(levels)[j].price <= Lots(levels)[i].price
  {
    if levels != [] {
      LotsAreFalling(levels[1..]);
      if Usable(levels[0]) {
        BestBidBounds(levels);
      }
    }
  }

  /** On sorted asks the uncapped walk's cost is the least any feasible buy of that quantity costs. */
  lemma WalkBuysCheapest(book: Book, q: real, a: seq<real>)
    requires Ascending(book.asks) && Feasible(Lots(book.asks), a, q)
    ensures WalkCost(Lots(LevelsOf(book, BUY)), q) <= CostOf(Lots(book.asks), a)
  {
    LotsArePositive(book.asks);
    LotsAreSorted(book.asks);
    GreedyIsCheapest(Lots(book.asks), a, q);
  }

  /** On sorted bids the uncapped walk's proceeds are the most any feasible sale of that quantity earns. */
  lemma WalkSellsDearest(book: Book, q: real, a: seq<real>)
    requires Descending(book.bids) && Feasible(Lots(book.bids), a, q)
    ensures WalkCost(Lots(LevelsOf(book, SELL)), q) >= CostOf(Lots(book.bids), a)
  {
    LotsArePositive(book.bids);
    LotsAreFalling(book.bids);
    GreedyEarnsMost(Lots(book.bids), a, q);
  }
}
