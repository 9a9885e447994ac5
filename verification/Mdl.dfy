/** The segmenter: it cuts the symbol stream where two halves describe it better than one whole. */
module MdlModel {
  import opened Entropy
  import opened Numbers
  import opened Text

  ghost predicate Tallies(counts: map<int, int>, m: multiset<int>) {
    (forall x :: x in counts <==> x in m) && (forall x :: x in counts ==> counts[x] == m[x])
  }

  lemma TallyAdd(counts: map<int, int>, m: multiset<int>, id: int)
    requires Tallies(counts, m)
    ensures id in counts ==> Tallies(counts[id := counts[id] + 1], m + multiset{id}) && counts[id] > 0
    ensures id in counts ==> |counts[id := counts[id] + 1]| == |counts|
    ensures id !in counts ==> Tallies(counts[id := 1], m + multiset{id}) && |counts[id := 1]| == |counts| + 1
  {
    if id in counts {
      assert counts[id := counts[id] + 1].Keys == counts.Keys;
    } else {
      assert counts[id := 1].Keys == counts.Keys + {id};
    }
  }

  lemma TallyRemove(counts: map<int, int>, m: multiset<int>, id: int)
    requires Tallies(counts, m)
    ensures id !in counts ==> m - multiset{id} == m
    ensures id in counts ==> counts[id] > 0 && |m - multiset{id}| == |m| - 1
    ensures id in counts && counts[id] == 1 ==>
      Tallies(counts - {id}, m - multiset{id}) && |counts - {id}| == |counts| - 1
    ensures id in counts && counts[id] > 1 ==>
      Tallies(counts[id := counts[id] - 1], m - multiset{id}) && |counts[id := counts[id] - 1]| == |counts|
  {
    if id in counts {
      assert m == (m - multiset{id}) + multiset{id};
      assert counts[id := counts[id] - 1].Keys == counts.Keys == (counts - {id}).Keys + {id};
    }
  }

  class Histogram {
    var counts: map<int, int>
    var total: int
    var distinct: int
    ghost var items: multiset<int>

    ghost predicate Valid()
      reads this
    {
      Tallies(counts, items) && total == |items| && distinct == |counts|
    }

    constructor ()
      ensures Valid() && items == multiset{}
    {
      counts, total, distinct, items := map[], 0, 0, multiset{};
    }

    constructor From(state: HistogramState, ghost m: multiset<int>)
      requires Tallies(state.counts, m) && state.total == |m| && state.distinct == |state.counts|
      ensures Valid() && items == m && counts == state.counts && total == state.total && distinct == state.distinct
    {
      counts, total, distinct, items := state.counts, state.total, state.distinct, m;
    }

    method Add(id: int)
      requires Valid()
      modifies this
      ensures Valid() && items == old(items) + multiset{id}
    {
      hide Tallies;
      TallyAdd(counts, items, id);
      var seen := if id in counts then counts[id] else 0;
      if seen == 0 {
        distinct := distinct + 1;
      }
      counts := counts[id := seen + 1];
      total := total + 1;
      items := items + multiset{id};
    }

    method Remove(id: int)
      requires Valid()
      modifies this
      ensures Valid() && items == old(items) - multiset{id}
    {
      hide Tallies;
      TallyRemove(counts, items, id);
      var seen := if id in counts then counts[id] else 0;
      if seen <= 0 {
        return;
      }
      total := total - 1;
      if seen == 1 {
        counts := counts - {id};
        distinct := distinct - 1;
      } else {
        counts := counts[id := seen - 1];
      }
      items := items - multiset{id};
    }

    /** What the symbols counted cost under their own frequencies. */
    method CostUnder(log: real -> real) returns (cost: real)
      requires Valid()
      ensures cost == Cost(counts, total, log)
    {
      hide Sum, Valid, Bits;
      NoCost(log);
      cost := 0.0;
      if total == 0 {
        EmptyCost(this, log);
        return;
      }
      ghost var terms := Terms(counts, total, log);
      var pending := counts.Keys;
      assert counts.Keys - pending == {};
      while pending != {}
        invariant pending <= counts.Keys && cost == Sum(counts.Keys - pending, terms)
        decreases |pending|
      {
        var id := Choose(pending);
        SumPick(counts.Keys - (pending - {id}), terms, id);
        assert counts.Keys - (pending - {id}) - {id} == counts.Keys - pending;
        pending := pending - {id};
        var count := counts[id];
        if count == 0 {
          continue;
        }
        cost := cost + Bits(count, count, total, log);
      }
      assert counts.Keys - pending == counts.Keys;
    }

    method Clone() returns (out: Histogram)
      requires Valid()
      ensures fresh(out) && out.Valid() && out.items == items
      ensures out.counts == counts && out.total == total && out.distinct == distinct
    {
      out := new Histogram();
      out.counts, out.total, out.distinct, out.items := counts, total, distinct, items;
    }
  }

  /** A histogram that holds a stretch of the stream has exactly that stretch's counts, total and distinct. */
  lemma HistogramIsExact(h: Histogram, s: seq<int>)
    requires h.Valid() && h.items == multiset(s)
    ensures h.counts == CountsOf(s) && h.total == |s| && h.distinct == |CountsOf(s)|
  {
    var counts := CountsOf(s);
    forall x | x in counts ensures x in h.counts && h.counts[x] == counts[x] {
      assert x in multiset(s);
    }
    forall x | x in h.counts ensures x in counts {
      assert x in multiset(s);
    }
    assert h.counts.Keys == counts.Keys;
    assert h.counts == counts;
  }

  lemma EmptyCost(h: Histogram, log: real -> real)
    requires h.total == 0
    ensures Cost(h.counts, h.total, log) == 0.0
  {
    hide Sum;
    var none: set<int> := {};
    forall y | y in h.counts.Keys - none ensures Terms(h.counts, h.total, log)(y) == 0.0 {
    }
    SumSupport(none, h.counts.Keys, Terms(h.counts, h.total, log));
    NoCost(log);
  }

  lemma NoCost(log: real -> real)
    ensures forall n: int :: Bits(0, 0, n, log) == 0.0
    ensures forall f: int -> real :: Sum({}, f) == 0.0
  {
  }

  method Choose<T>(xs: set<T>) returns (x: T)
    requires xs != {}
    ensures x in xs
  {
    x :| x in xs;
  }

  lemma DistinctIsSet(s: seq<int>)
    ensures |CountsOf(s)| == |set x | x in s|
  {
    assert CountsOf(s).Keys == set x | x in s;
  }

  lemma ProductAtLeastSum(a: real, b: real)
    requires a >= 2.0 && b >= 2.0
    ensures a * b >= a + b > 0.0
  {
    assert (a - 1.0) * (b - 1.0) >= 1.0;
  }

  /** A histogram as it is saved. */
  datatype HistogramState = HistogramState(counts: map<int, int>, total: int, distinct: int)

  datatype MdlState = MdlState(
    stream: seq<int>, offset: int, vocab: map<string, int>, nextID: int, dist: HistogramState, lastGain: real)

  class Mdl {
    const log: real -> real
    const minSegmentSymbols: int
    var stream: seq<int>
    var offset: int
    var dist: Histogram
    var vocab: map<string, int>
    var nextID: int
    var lastGain: real
    ghost var seen: seq<string>   // the symbols ingested, in order

    ghost predicate Valid()
      reads this, dist
    {
      0 <= offset <= |stream| && dist.Valid() && dist.items == multiset(stream[offset..]) &&
      InternedAs(vocab, nextID, stream, seen)
    }

    constructor (log: real -> real, minSegmentSymbols: int)
      ensures Valid() && fresh(dist) && stream == [] && offset == 0 && nextID == 1
      ensures this.log == log && this.minSegmentSymbols == minSegmentSymbols
      ensures vocab == map[] && lastGain == 0.0 && seen == []
    {
      this.log, this.minSegmentSymbols := log, minSegmentSymbols;
      stream, offset, vocab, nextID, lastGain, seen := [], 0, map[], 1, 0.0, [];
      dist := new Histogram();
    }

    // ------------------------------------------------------ direct definition

    /** Half a logarithm for each free parameter. */
    function Penalty(distinct: int, n: int): real {
      0.5 * MaxInt(distinct - 1, 1) as real * log(n as real)
    }

    /** The penalised gain of splitting `seg` before position `k`, computed from scratch on both halves. */
    ghost function Gain(seg: seq<int>, k: int): real
      requires 0 <= k <= |seg|
    {
      var l, r := seg[..k], seg[k..];
      (CostOf(seg, log) - (CostOf(l, log) + CostOf(r, log))) -
      ((Penalty(|CountsOf(l)|, k) + Penalty(|CountsOf(r)|, |seg| - k)) - Penalty(|CountsOf(seg)|, |seg|))
    }

    /** A split leaving at least the minimum segment on each side. */
    ghost predicate Splits(n: int, k: int)
    {
      MaxInt(minSegmentSymbols, 2) <= k <= n - MaxInt(minSegmentSymbols, 2)
    }

    /** `k` is the first split of `seg` that maximises the gain, and the gain there is positive. */
    ghost predicate BestSplit(seg: seq<int>, k: int)
    {
      Splits(|seg|, k) && Gain(seg, k) > 0.0 &&
      (forall j :: Splits(|seg|, j) ==> Gain(seg, j) <= Gain(seg, k)) &&
      (forall j :: Splits(|seg|, j) && j < k ==> Gain(seg, j) < Gain(seg, k))
    }

    // ------------------------------------------------------ what a gain means

    /** The free parameters of a stretch: one fewer than its symbols, and at least one. */
    ghost function Free(s: seq<int>): int {
      MaxInt(|set x | x in s| - 1, 1)
    }

    /** The two-part description of a stretch: its symbols, and half a logarithm for each free parameter. */
    ghost function Description(s: seq<int>): real {
      CostOf(s, log) + Parameters(s)
    }

    ghost function Parameters(s: seq<int>): real {
      0.5 * Free(s) as real * log(|s| as real)
    }

    /** The gain of a split is what it takes off the description. */
    lemma GainIsDescription(seg: seq<int>, k: int)
      requires 0 <= k <= |seg|
      ensures Gain(seg, k) == Description(seg) - Description(seg[..k]) - Description(seg[k..])
    {
      hide CostOf, CountsOf;
      DistinctIsSet(seg);
      DistinctIsSet(seg[..k]);
      DistinctIsSet(seg[k..]);
    }

    /** A stretch of one repeated symbol is never worth splitting. */
    lemma RepeatsNeverPay(x: int, n: nat, k: int)
      requires Logarithm(log) && 2 <= k <= n - 2
      ensures Gain(Repeat(x, n), k) <= 0.0
    {
      hide CostOf, Logarithm, Gain, Description;
      var s := Repeat(x, n);
      assert s[..k] == Repeat(x, k) && s[k..] == Repeat(x, n - k);
      GainIsDescription(s, k);
      RepeatDescription(x, n);
      RepeatDescription(x, k);
      RepeatDescription(x, n - k);
      var a, b := k as real, (n - k) as real;
      LogTimes(log, a, b);
      ProductAtLeastSum(a, b);
      LogGrows(log, n as real, a * b);
    }

    lemma RepeatDescription(x: int, n: nat)
      requires Logarithm(log) && n > 0
      ensures Description(Repeat(x, n)) == 0.5 * log(n as real)
    {
      hide CostOf, Logarithm, Repeat;
      RepeatsAreFree(x, n, log);
      OneSymbol(x, n);
    }

    lemma OneSymbol(x: int, n: nat)
      requires n > 0
      ensures Free(Repeat(x, n)) == 1 && |Repeat(x, n)| == n
    {
      assert Repeat(x, n)[0] == x;
      assert (set y | y in Repeat(x, n)) == {x};
    }

    /** A stretch of one symbol followed by a stretch of another is always worth splitting at the change. */
    lemma ChangeAlwaysPays(x: int, k: nat, y: int, m: nat)
      requires Logarithm(log) && x != y && k > 0 && m > 0
      ensures Gain(Repeat(x, k) + Repeat(y, m), k) > 0.0
    {
      hide CostOf, Logarithm, Gain, Description, Worth;
      var s := Repeat(x, k) + Repeat(y, m);
      assert s[..k] == Repeat(x, k) && s[k..] == Repeat(y, m);
      GainIsDescription(s, k);
      RepeatDescription(x, k);
      RepeatDescription(y, m);
      ChangeDescription(x, k, y, m);
      WorthIsEnough(k, m, log);
    }

    lemma ChangeDescription(x: int, k: nat, y: int, m: nat)
      requires Logarithm(log) && x != y && k > 0 && m > 0
      ensures Description(Repeat(x, k) + Repeat(y, m)) >= 2.0 * Worth(k, m) + 0.5 * log((k + m) as real)
    {
      hide CostOf, Logarithm, Bits, Worth, Repeat;
      ChangeCost(x, k, y, m, log);
      ChangeIsWorth(k, m, log);
      TwoSymbols(x, k, y, m);
    }

    lemma TwoSymbols(x: int, k: nat, y: int, m: nat)
      requires x != y && k > 0 && m > 0
      ensures Free(Repeat(x, k) + Repeat(y, m)) == 1 && |Repeat(x, k) + Repeat(y, m)| == k + m
    {
      var s := Repeat(x, k) + Repeat(y, m);
      assert s[0] == x && s[k] == y;
      assert (set z | z in s) == {x, y};
    }

    /** Splitting never makes the symbols themselves longer: a gain is lost only to the penalties. */
    lemma GainIsBoundedBelow(seg: seq<int>, k: int)
      requires Logarithm(log) && 0 < k < |seg|
      ensures Gain(seg, k) >= Parameters(seg) - Parameters(seg[..k]) - Parameters(seg[k..])
    {
      hide CostOf, Logarithm, Gain, Parameters;
      GainIsDescription(seg, k);
      SplittingNeverLengthens(seg[..k], seg[k..], log);
      assert seg[..k] + seg[k..] == seg;
    }

    /** A segment that holds one symbol only is not cut. */
    lemma RepeatsAreNotCut(s: seq<int>, from: int, x: int)
      requires Logarithm(log) && 0 <= from <= |s| && forall i :: from <= i < |s| ==> s[i] == x
      ensures NextStart(s, from) == from
    {
      hide Gain, Logarithm;
      assert s[from..] == Repeat(x, |s| - from);
      forall k | Splits(|s| - from, k) ensures Gain(s[from..], k) <= 0.0 {
        RepeatsNeverPay(x, |s| - from, k);
      }
    }

    /** A segment of one symbol and then another, each at least the minimum long, is cut. */
    lemma ChangeIsCut(s: seq<int>, from: int, x: int, k: nat, y: int, m: nat)
      requires Logarithm(log) && 0 <= from <= |s| && s[from..] == Repeat(x, k) + Repeat(y, m) && x != y
      requires k >= 2 && m >= 2 && k >= minSegmentSymbols && m >= minSegmentSymbols
      ensures NextStart(s, from) > from
    {
      hide Gain, Logarithm, NextStart;
      ChangeAlwaysPays(x, k, y, m);
      assert Splits(|s| - from, k);
      var best := BestExists(s[from..], |s| - from);
      CutIsNext(s, from);
    }

    /** Where some split pays, some split is best. */
    lemma BestExists(seg: seq<int>, n: int) returns (best: int)
      requires n == |seg| && exists k :: Splits(n, k) && Gain(seg, k) > 0.0
      ensures BestSplit(seg, best) && best > 0
    {
      hide Gain;
      var g: real;
      best, g := 0, 0.0;
      LeadingStart(seg);
      for i := 1 to n
        invariant Leading(seg, i, best, g)
      {
        LeadingStep(seg, i, best, g);
        if Splits(n, i) && Gain(seg, i) > g {
          best, g := i, Gain(seg, i);
        }
      }
      LeadingWins(seg, best, g);
    }

    /** Where the open segment of `s` starts once its last symbol is in, given where it started before. */
    ghost function NextStart(s: seq<int>, from: int): (to: int)
      requires 0 <= from <= |s|
      ensures from <= to <= |s|
    {
      if k :| BestSplit(s[from..], k) then from + k else from
    }

    /** Where the open segment of `s` starts, given that it started at `from` after the first `n` symbols. */
    ghost function StartFrom(s: seq<int>, n: int, from: int): (to: int)
      requires 0 <= from <= n <= |s|
      ensures from <= to <= |s|
      decreases |s|
    {
      if |s| == n then from else NextStart(s, StartFrom(s[..|s| - 1], n, from))
    }

    /** Where the open segment of a whole stream starts. */
    ghost function StartOf(s: seq<int>): (to: int)
      ensures 0 <= to <= |s|
    {
      StartFrom(s, 0, 0)
    }

    /** Cutting a stream in two stages gives what cutting it in one does. */
    lemma {:induction false} StartFromStages(s: seq<int>, m: int, n: int, from: int)
      requires 0 <= from <= m <= n <= |s|
      ensures StartFrom(s, n, StartFrom(s[..n], m, from)) == StartFrom(s, m, from)
      decreases |s|
    {
      if n == |s| {
        assert s[..n] == s;
      } else {
        assert s[..|s| - 1][..n] == s[..n];
        StartFromStages(s[..|s| - 1], m, n, from);
      }
    }

    /** There is at most one best split. */
    lemma BestIsUnique(seg: seq<int>, j: int, k: int)
      requires BestSplit(seg, j) && BestSplit(seg, k)
      ensures j == k
    {
      hide Gain;
    }

    /** A stream of one symbol is never cut, however long. */
    lemma {:induction false} RepeatsStayWhole(x: int, n: nat)
      requires Logarithm(log)
      ensures StartOf(Repeat(x, n)) == 0
    {
      hide Logarithm, NextStart;
      if n > 0 {
        RepeatsStayWhole(x, n - 1);
        assert Repeat(x, n)[..n - 1] == Repeat(x, n - 1);
        RepeatsAreNotCut(Repeat(x, n), 0, x);
      }
    }

    /** No stretch under twice the minimum segment is ever cut. */
    lemma {:induction false} ShortStreamsAreWhole(s: seq<int>)
      requires |s| < 2 * MaxInt(minSegmentSymbols, 2)
      ensures StartOf(s) == 0
    {
      hide Gain;
      if s != [] {
        ShortStreamsAreWhole(s[..|s| - 1]);
      }
    }

    // ------------------------------------------------------------ the sweep

    /** One pass over the segment, moving one symbol at a time from the right histogram to the left. */
    method DetectBoundary(seg: seq<int>, d: Histogram) returns (ok: bool, k: int, g: real)
      requires d.Valid() && d.items == multiset(seg)
      ensures ok <==> exists j :: Splits(|seg|, j) && Gain(seg, j) > 0.0
      ensures ok ==> BestSplit(seg, k) && g == Gain(seg, k)
      ensures !ok ==> k == 0 && g == 0.0
    {
      hide Gain, Histogram.Valid, Leading;
      var n := |seg|;
      var minSeg := MaxInt(minSegmentSymbols, 2);
      if n < 2 * minSeg {
        return false, 0, 0.0;
      }
      k, g := 0, 0.0;
      var left := new Histogram();
      var right := d.Clone();
      LeadingStart(seg);
      assert seg[..0] == [] && seg[0..] == seg;
      for i := 1 to n
        invariant fresh(left) && fresh(right) && left != right && left.Valid() && right.Valid()
        invariant left.items == multiset(seg[..i - 1]) && right.items == multiset(seg[i - 1..])
        invariant Leading(seg, i, k, g)
      {
        Shift(seg, i, left, right);
        LeadingStep(seg, i, k, g);
        if i < minSeg || n - i < minSeg {
          continue;
        }
        var penalizedGain := SplitGain(seg, i, d, left, right);
        if penalizedGain > g {
          g, k := penalizedGain, i;
        }
      }
      LeadingWins(seg, k, g);
      ok := g > 0.0;
    }

    /** Moves the symbol before position `i` from the right histogram to the left one. */
    method Shift(seg: seq<int>, i: int, left: Histogram, right: Histogram)
      requires 1 <= i <= |seg| && left != right && left.Valid() && right.Valid()
      requires left.items == multiset(seg[..i - 1]) && right.items == multiset(seg[i - 1..])
      modifies left, right
      ensures left.Valid() && right.Valid() && left.items == multiset(seg[..i]) && right.items == multiset(seg[i..])
    {
      hide Histogram.Valid;
      assert seg[..i] == seg[..i - 1] + [seg[i - 1]];
      assert seg[i - 1..] == [seg[i - 1]] + seg[i..];
      left.Add(seg[i - 1]);
      right.Remove(seg[i - 1]);
    }

    /** Of the splits before position `i`, `k` is the first with the largest positive gain `g`; 0 if none pays. */
    ghost predicate Leading(seg: seq<int>, i: int, k: int, g: real)
    {
      (if g > 0.0 then k < i && Splits(|seg|, k) && g == Gain(seg, k) else k == 0 && g == 0.0) &&
      (forall j :: Splits(|seg|, j) && j < i ==> Gain(seg, j) <= g) &&
      (forall j :: Splits(|seg|, j) && j < k ==> Gain(seg, j) < g)
    }

    lemma LeadingStart(seg: seq<int>)
      ensures Leading(seg, 1, 0, 0.0)
    {
    }

    lemma LeadingStep(seg: seq<int>, i: int, k: int, g: real)
      requires Leading(seg, i, k, g) && 1 <= i <= |seg|
      ensures !Splits(|seg|, i) || Gain(seg, i) <= g ==> Leading(seg, i + 1, k, g)
      ensures Splits(|seg|, i) && Gain(seg, i) > g ==> Leading(seg, i + 1, i, Gain(seg, i))
    {
      hide Gain;
    }

    lemma LeadingWins(seg: seq<int>, k: int, g: real)
      requires Leading(seg, |seg|, k, g)
      ensures g > 0.0 <==> exists j :: Splits(|seg|, j) && Gain(seg, j) > 0.0
      ensures if g > 0.0 then BestSplit(seg, k) && g == Gain(seg, k) else k == 0 && g == 0.0
    {
      hide Gain;
    }

    /** The penalised gain of one split, from the histograms of the whole and of the two halves. */
    method SplitGain(seg: seq<int>, i: int, d: Histogram, left: Histogram, right: Histogram) returns (gain: real)
      requires 0 <= i <= |seg| && d.Valid() && left.Valid() && right.Valid()
      requires d.items == multiset(seg) && left.items == multiset(seg[..i]) && right.items == multiset(seg[i..])
      ensures gain == Gain(seg, i)
    {
      HistogramIsExact(d, seg);
      HistogramIsExact(left, seg[..i]);
      HistogramIsExact(right, seg[i..]);
      hide CountsOf, Histogram.Valid, Cost, Penalty;
      var n := |seg|;
      var penaltyFull := Penalty(d.distinct, n);
      var penaltyLeft := Penalty(left.distinct, i);
      var penaltyRight := Penalty(right.distinct, n - i);
      var costFull := d.CostUnder(log);
      var costLeft := left.CostUnder(log);
      var costRight := right.CostUnder(log);
      var baseGain := costFull - (costLeft + costRight);
      var penaltyDiff := (penaltyLeft + penaltyRight) - penaltyFull;
      gain := baseGain - penaltyDiff;
    }

    method Intern(symbol: string) returns (id: int)
      requires InternedAs(vocab, nextID, stream, seen)
      modifies this`vocab, this`nextID
      ensures InternedAs(vocab, nextID, stream, seen) && symbol in vocab && vocab[symbol] == id
      ensures forall s :: s in old(vocab) ==> s in vocab && vocab[s] == old(vocab)[s]
    {
      if symbol in vocab {
        return vocab[symbol];
      }
      id := nextID;
      nextID := nextID + 1;
      vocab := vocab[symbol := id];
    }

    /** Ingests one symbol and commits the best cut of the open segment, if any split pays. */
    method Analyze(symbol: string) returns (cut: bool, gain: real)
      requires Valid()
      modifies this, dist
      ensures Valid() && (dist == old(dist) || fresh(dist))
      ensures symbol == "" ==> !cut && unchanged(this)
      ensures symbol != "" ==> seen == old(seen) + [symbol] && |stream| == |old(stream)| + 1 && old(stream) <= stream
      ensures symbol != "" ==> CutIsBest(stream, old(offset), offset, cut) && offset == NextStart(stream, old(offset))
      ensures cut ==> symbol != "" && lastGain == gain == Gain(stream[old(offset)..], offset - old(offset))
      ensures !cut ==> lastGain == old(lastGain) && gain == 0.0
      ensures offset >= old(offset) && (cut <==> offset > old(offset))
    {
      hide Gain, Histogram.Valid, InternedAs, NextStart;
      if symbol == "" {
        return false, 0.0;
      }
      Extend(symbol);
      CutIsNext(stream, offset);
      var seg := stream[offset..];
      if |seg| < 2 * minSegmentSymbols {
        return false, 0.0;
      }
      var ok, k, g := DetectBoundary(seg, dist);
      if !ok || g <= 0.0 || k <= 0 || k >= |seg| {
        return false, 0.0;
      }
      Advance(k);
      lastGain := g;
      return true, g;
    }

    /** A cut is made exactly when some split of the open segment pays, and it is the best one. */
    ghost predicate CutIsBest(stream: seq<int>, from: int, to: int, cut: bool)
    {
      0 <= from <= |stream| &&
      (cut <==> exists j :: Splits(|stream| - from, j) && Gain(stream[from..], j) > 0.0) &&
      (if cut then BestSplit(stream[from..], to - from) else to == from)
    }

    /** What the best cut comes to, whichever way the sweep ends. */
    lemma CutIsNext(stream: seq<int>, from: int)
      requires 0 <= from <= |stream|
      ensures forall k :: BestSplit(stream[from..], k) ==> NextStart(stream, from) == from + k
      ensures (forall j :: Splits(|stream| - from, j) ==> Gain(stream[from..], j) <= 0.0) ==>
        NextStart(stream, from) == from
    {
      hide Gain;
      forall j, k | BestSplit(stream[from..], j) && BestSplit(stream[from..], k) ensures j == k {
        BestIsUnique(stream[from..], j, k);
      }
    }

    /** Adds one symbol to the stream and to the open segment's histogram. */
    method Extend(symbol: string)
      requires Valid() && symbol != ""
      modifies this`stream, this`vocab, this`nextID, this`seen, dist
      ensures Valid() && |stream| == |old(stream)| + 1 && old(stream) <= stream && seen == old(seen) + [symbol]
    {
      hide Histogram.Valid, InternedAs;
      var id := Intern(symbol);
      InternedGrow(vocab, nextID, stream, seen, symbol);
      assert (stream + [id])[offset..] == stream[offset..] + [id];
      stream := stream + [id];
      seen := seen + [symbol];
      dist.Add(id);
    }

    /** Moves the open segment's start forward and recounts it. */
    method Advance(k: int)
      requires 0 <= k && 0 <= offset && offset + k <= |stream|
      modifies this`offset, this`dist
      ensures offset == old(offset) + k && fresh(dist) && dist.Valid() && dist.items == multiset(stream[offset..])
    {
      offset := offset + k;
      dist := new Histogram();
      var rest := stream[offset..];
      for i := 0 to |rest|
        invariant fresh(dist) && dist.Valid() && dist.items == multiset(rest[..i]) && offset == old(offset) + k
      {
        assert rest[..i + 1] == rest[..i] + [rest[i]];
        dist.Add(rest[i]);
      }
      assert rest[..|rest|] == rest;
    }

    // ------------------------------------------------------- save and restore

    ghost function Saved(): MdlState
      reads this, dist
    {
      MdlState(stream, offset, vocab, nextID, HistogramState(dist.counts, dist.total, dist.distinct), lastGain)
    }

    method State() returns (state: MdlState)
      ensures state == Saved()
    {
      var saved := HistogramState(dist.counts, dist.total, dist.distinct);
      state := MdlState(stream, offset, vocab, nextID, saved, lastGain);
    }

    /** Overwrites the segmenter's memory. A state saved by a sound segmenter makes this one sound. */
    method Restore(state: MdlState, ghost symbols: seq<string>)
      requires StateOk(state, symbols)
      modifies this
      ensures Valid() && fresh(dist) && Saved() == state && seen == symbols
    {
      hide Tallies, Histogram.Valid;
      stream, offset, vocab := state.stream, state.offset, state.vocab;
      nextID := if state.nextID == 0 then 1 else state.nextID;
      dist := new Histogram.From(state.dist, multiset(state.stream[state.offset..]));
      lastGain := state.lastGain;
      seen := symbols;
    }

    lemma SavedIsOk()
      requires Valid()
      ensures StateOk(Saved(), seen)
    {
    }
  }

  /** What a sound segmenter saves. */
  ghost predicate StateOk(state: MdlState, seen: seq<string>) {
    0 <= state.offset <= |state.stream| &&
    Tallies(state.dist.counts, multiset(state.stream[state.offset..])) &&
    state.dist.total == |state.stream| - state.offset && state.dist.distinct == |state.dist.counts| &&
    InternedAs(state.vocab, state.nextID, state.stream, seen)
  }

  /** Interning never confuses two symbols, and the stream spells the symbols ingested. */
  ghost predicate InternedAs(vocab: map<string, int>, nextID: int, stream: seq<int>, seen: seq<string>) {
    1 <= nextID && |seen| == |stream| &&
    (forall s :: s in vocab ==> 1 <= vocab[s] < nextID) &&
    (forall s, t :: s in vocab && t in vocab && vocab[s] == vocab[t] ==> s == t) &&
    (forall i :: 0 <= i < |seen| ==> seen[i] in vocab && vocab[seen[i]] == stream[i])
  }

  lemma InternedGrow(vocab: map<string, int>, nextID: int, stream: seq<int>, seen: seq<string>, symbol: string)
    requires InternedAs(vocab, nextID, stream, seen) && symbol in vocab
    ensures InternedAs(vocab, nextID, stream + [vocab[symbol]], seen + [symbol])
  {
  }

  /**
    Any run of a new segmenter: the stream spells the symbols fed and its open segment starts where
    cutting the whole stream symbol by symbol at the best split puts it.
   */
  method RunMdl(symbols: seq<string>, log: real -> real, minSegmentSymbols: int) returns (m: Mdl)
    ensures m.log == log && m.minSegmentSymbols == minSegmentSymbols
    ensures m.Valid() && m.seen == NonEmpty(symbols) && m.offset == m.StartOf(m.stream)
  {
    hide Mdl.Valid, Mdl.NextStart, Mdl.CutIsBest, Mdl.Gain;
    m := new Mdl(log, minSegmentSymbols);
    for i := 0 to |symbols|
      invariant m.Valid() && fresh(m) && fresh(m.dist) && m.seen == NonEmpty(symbols[..i])
      invariant m.offset == m.StartOf(m.stream)
    {
      assert symbols[..i + 1][..i] == symbols[..i];
      ghost var before := m.stream;
      var _, _ := m.Analyze(symbols[i]);
      if symbols[i] != "" {
        assert m.stream[..|m.stream| - 1] == before;
      }
    }
    assert symbols[..|symbols|] == symbols;
  }
}
