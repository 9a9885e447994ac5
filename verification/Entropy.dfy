/** Code lengths: what a stretch of symbols costs under its own frequencies, for any logarithm. */
module Entropy {

  // ------------------------------------------------------------- finite sums

  ghost function Sum<T>(xs: set<T>, f: T -> real): real {
    if x :| x in xs then f(x) + Sum(xs - {x}, f) else 0.0
  }

  /** The order in which a sum is taken does not matter. */
  lemma {:induction false} SumPick<T>(xs: set<T>, f: T -> real, x: T)
    requires x in xs
    ensures Sum(xs, f) == f(x) + Sum(xs - {x}, f)
  {
    var y :| y in xs && Sum(xs, f) == f(y) + Sum(xs - {y}, f);
    if y != x {
      SumPick(xs - {y}, f, x);
      SumPick(xs - {x}, f, y);
      assert xs - {y} - {x} == xs - {x} - {y};
    }
  }

  lemma {:induction false} SumAdd<T>(xs: set<T>, f: T -> real, g: T -> real, h: T -> real)
    requires forall x :: x in xs ==> h(x) == f(x) + g(x)
    ensures Sum(xs, h) == Sum(xs, f) + Sum(xs, g)
  {
    if x :| x in xs {
      SumAdd(xs - {x}, f, g, h);
      SumPick(xs, f, x);
      SumPick(xs, g, x);
      SumPick(xs, h, x);
    }
  }

  lemma {:induction false} SumAtMost<T>(xs: set<T>, f: T -> real, g: T -> real)
    requires forall x :: x in xs ==> f(x) <= g(x)
    ensures Sum(xs, f) <= Sum(xs, g)
  {
    if x :| x in xs {
      SumAtMost(xs - {x}, f, g);
      SumPick(xs, f, x);
      SumPick(xs, g, x);
    }
  }

  /** Terms that are zero can be left out. */
  lemma {:induction false} SumSupport<T>(xs: set<T>, ys: set<T>, f: T -> real)
    requires xs <= ys && forall y :: y in ys - xs ==> f(y) == 0.0
    ensures Sum(ys, f) == Sum(xs, f)
    decreases ys
  {
    if y :| y in ys - xs {
      SumSupport(xs, ys - {y}, f);
      SumPick(ys, f, y);
    } else {
      forall y | y in ys ensures y in xs {
        assert y !in ys - xs;
      }
      assert xs == ys;
    }
  }

  // ------------------------------------------------------------- code length

  /** The laws of the natural logarithm that are used. */
  ghost predicate Logarithm(log: real -> real) {
    (forall x, y :: x > 0.0 && y > 0.0 ==> log(Product(x, y)) == log(x) + log(y)) &&
    (forall x :: x > 0.0 ==> log(x) <= x - 1.0)
  }

  ghost function Product(x: real, y: real): real {
    x * y
  }

  /** `count` symbols at a frequency of `part` out of `n`. */
  function Bits(count: int, part: int, n: int, log: real -> real): real {
    if n == 0 then 0.0 else -(count as real) * log(part as real / n as real)
  }

  /** The terms of a histogram's cost, symbol by symbol. */
  ghost function Terms(counts: map<int, int>, total: int, log: real -> real): int -> real {
    x => if x in counts then Bits(counts[x], counts[x], total, log) else 0.0
  }

  /** What a histogram's symbols cost under its own frequencies. */
  ghost function Cost(counts: map<int, int>, total: int, log: real -> real): real {
    Sum(counts.Keys, Terms(counts, total, log))
  }

  /** The histogram of a stretch of the stream, from scratch. */
  ghost function CountsOf(s: seq<int>): map<int, int> {
    map x | x in multiset(s) :: multiset(s)[x]
  }

  ghost function CostOf(s: seq<int>, log: real -> real): real {
    Cost(CountsOf(s), |s|, log)
  }

  // --------------------------------------------------------------- log laws

  lemma LogOne(log: real -> real)
    requires Logarithm(log)
    ensures log(1.0) == 0.0
  {
    assert Product(1.0, 1.0) == 1.0;
    assert log(Product(1.0, 1.0)) == log(1.0) + log(1.0);
  }

  lemma LogTimes(log: real -> real, x: real, y: real)
    requires Logarithm(log) && x > 0.0 && y > 0.0
    ensures x * y > 0.0 && log(x * y) == log(x) + log(y)
  {
    assert Product(x, y) == x * y;
  }

  lemma LogRatio(log: real -> real, x: real, y: real)
    requires Logarithm(log) && x > 0.0 && y > 0.0
    ensures x / y > 0.0 && log(x / y) == log(x) - log(y)
  {
    assert Product(x / y, y) == x;
    assert x / y > 0.0;
  }

  lemma LogGrows(log: real -> real, x: real, y: real)
    requires Logarithm(log) && 0.0 < x <= y
    ensures log(x) <= log(y)
  {
    LogRatio(log, x, y);
    AtMostOne(x / y, x, y);
  }

  lemma AtMostOne(q: real, x: real, y: real)
    requires q * y == x && 0.0 < x <= y
    ensures q <= 1.0
  {
    if q > 1.0 {
      assert (q - 1.0) * y > 0.0;
    }
  }

  // ------------------------------------------------- splitting never lengthens

  /** The number of `x` in a multiset, as a real. */
  ghost function Mass(m: multiset<int>): int -> real {
    x => m[x] as real
  }

  /** The terms of coding `m` by the frequencies of `base`, whose size is `n`. */
  ghost function Cross(m: multiset<int>, base: multiset<int>, n: int, log: real -> real): int -> real {
    x => Bits(m[x], base[x], n, log)
  }

  ghost function Support(m: multiset<int>): set<int> {
    set x | x in m
  }

  lemma {:induction false} MassIsSize(s: seq<int>)
    ensures Sum(Support(multiset(s)), Mass(multiset(s))) == |s| as real
  {
    if s == [] {
      assert Support(multiset(s)) == {};
    } else {
      var n := |s| - 1;
      var front, last := s[..n], s[n];
      MassIsSize(front);
      var m, m' := multiset(front), multiset(s);
      assert s == front + [last];
      assert m' == m + multiset{last};
      var xs := Support(m');
      assert xs == Support(m) + {last};
      SumPick(xs, Mass(m'), last);
      SumSupport(Support(m), xs, Mass(m));
      SumPick(xs, Mass(m), last);
      SumSame(xs - {last}, Mass(m), Mass(m'));
    }
  }

  lemma SumSame<T>(xs: set<T>, f: T -> real, g: T -> real)
    requires forall x :: x in xs ==> f(x) == g(x)
    ensures Sum(xs, f) == Sum(xs, g)
  {
    SumAtMost(xs, f, g);
    SumAtMost(xs, g, f);
  }

  /** The cost of a stretch, summed over any symbols that include its own. */
  lemma CostOver(s: seq<int>, xs: set<int>, log: real -> real)
    requires Support(multiset(s)) <= xs
    ensures CostOf(s, log) == Sum(xs, Cross(multiset(s), multiset(s), |s|, log))
  {
    var m := multiset(s);
    assert CountsOf(s).Keys == Support(m);
    SumSame(Support(m), Terms(CountsOf(s), |s|, log), Cross(m, m, |s|, log));
    forall y | y in xs - Support(m) ensures Cross(m, m, |s|, log)(y) == 0.0 {
      NothingIsFree(|s|, log);
    }
    SumSupport(Support(m), xs, Cross(m, m, |s|, log));
  }

  lemma NothingIsFree(n: int, log: real -> real)
    ensures forall part :: Bits(0, part, n, log) == 0.0
  {
  }

  /** Gibbs: no symbol is coded better by other frequencies, up to a term that cancels over all symbols. */
  lemma GibbsTerm(c: int, k: int, part: int, n: int, log: real -> real)
    requires Logarithm(log) && 0 <= c <= part && c <= k && 0 < k <= n
    ensures Bits(c, c, k, log) + c as real <= Bits(c, part, n, log) + Share(k, n, part)
  {
    if c == 0 {
      NothingIsFree(k, log);
      NothingIsFree(n, log);
      ShareIsPositive(k, n, part);
    } else {
      GibbsReal(c as real, k as real, part as real, n as real, log);
    }
  }

  /** The part of `part` that falls to `k` out of `n`. */
  ghost function Share(k: int, n: int, part: int): real {
    if n == 0 then 0.0 else (k as real / n as real) * part as real
  }

  lemma ShareIsPositive(k: int, n: int, part: int)
    requires 0 <= k && 0 < n && 0 <= part
    ensures Share(k, n, part) >= 0.0
  {
    assert k as real / n as real >= 0.0;
  }

  lemma GibbsReal(c: real, k: real, p: real, n: real, log: real -> real)
    requires Logarithm(log) && c > 0.0 && k > 0.0 && p > 0.0 && n > 0.0
    ensures -c * log(c / k) + c <= -c * log(p / n) + (k / n) * p
  {
    hide Logarithm;
    LogRatio(log, c, k);
    LogRatio(log, p, n);
    LogBound(log, p / n, c / k);
    RatioOfRatios(c, k, p, n);
    Collect(c, log(p / n), log(c / k), (p / n) / (c / k), (k / n) * p);
  }

  lemma Collect(c: real, a: real, b: real, t: real, g: real)
    requires c >= 0.0 && a - b <= t - 1.0 && c * t == g
    ensures -c * b + c <= -c * a + g
  {
    var d := (t - 1.0) - (a - b);
    ScaleBy(c, 0.0, d);
    assert c * d == c * t - c - c * a + c * b;
  }

  lemma LogBound(log: real -> real, x: real, y: real)
    requires Logarithm(log) && x > 0.0 && y > 0.0
    ensures log(x) - log(y) <= x / y - 1.0
  {
    LogRatio(log, x, y);
  }

  lemma ScaleBy(c: real, x: real, y: real)
    requires c >= 0.0 && x <= y
    ensures c * x <= c * y
  {
  }

  lemma RatioOfRatios(c: real, k: real, p: real, n: real)
    requires c > 0.0 && k > 0.0 && n > 0.0
    ensures c / k > 0.0 && c * ((p / n) / (c / k)) == (k / n) * p
  {
    var own, other := c / k, p / n;
    assert own * k == c && other * n == p;
    var t := other / own;
    assert t * own == other;
    assert c * t == k * (t * own);
    assert (k / n) * p == k * other by {
      assert (k / n) * n == k;
      assert (k / n) * (other * n) == ((k / n) * n) * other;
    }
  }

  /** A part of a stretch costs no more under its own frequencies than under those of the whole. */
  lemma OwnIsCheapest(l: seq<int>, s: seq<int>, log: real -> real)
    requires Logarithm(log) && l != [] && multiset(l) <= multiset(s)
    ensures CostOf(l, log) <= Sum(Support(multiset(s)), Cross(multiset(l), multiset(s), |s|, log))
  {
    hide Bits, Logarithm, CostOf, Sum, Share, Support;
    var m, base, k, n := multiset(l), multiset(s), |l|, |s|;
    SizesOf(l, s);
    var xs := Support(base);
    var own, cross, mass := Cross(m, m, k, log), Cross(m, base, n, log), Mass(m);
    var share := (x: int) => Share(k, n, base[x]);
    var left, right := (x: int) => own(x) + mass(x), (x: int) => cross(x) + share(x);
    forall x | x in xs ensures left(x) <= right(x) {
      GibbsTerm(m[x], k, base[x], n, log);
    }
    SumAtMost(xs, left, right);
    SumAdd(xs, own, mass, left);
    SumAdd(xs, cross, share, right);
    CostOver(l, xs, log);
    MassOver(l, xs);
    SharesSum(s, k);
    SumSame(xs, share, SharesOf(base, k, n));
  }

  ghost function SharesOf(base: multiset<int>, k: int, n: int): int -> real {
    x => Share(k, n, base[x])
  }

  lemma MassOver(s: seq<int>, xs: set<int>)
    requires Support(multiset(s)) <= xs
    ensures Sum(xs, Mass(multiset(s))) == |s| as real
  {
    MassIsSize(s);
    SumSupport(Support(multiset(s)), xs, Mass(multiset(s)));
  }

  /** The shares of all symbols add up to the part they are shares of. */
  lemma SharesSum(s: seq<int>, k: int)
    requires s != []
    ensures Sum(Support(multiset(s)), SharesOf(multiset(s), k, |s|)) == k as real
  {
    hide Sum;
    var base, n := multiset(s), |s|;
    MassIsSize(s);
    forall x | x in Support(base) ensures SharesOf(base, k, n)(x) == (k as real / n as real) * Mass(base)(x) {
    }
    SumScaled(Support(base), Mass(base), k as real / n as real, SharesOf(base, k, n));
    assert (k as real / n as real) * n as real == k as real;
  }

  lemma SizesOf(l: seq<int>, s: seq<int>)
    requires multiset(l) <= multiset(s)
    ensures |l| <= |s| && Support(multiset(l)) <= Support(multiset(s))
    ensures forall x :: multiset(l)[x] <= |l|
  {
    assert multiset(s) == multiset(l) + (multiset(s) - multiset(l));
    assert |multiset(s)| == |s| && |multiset(l)| == |l|;
    forall x ensures multiset(l)[x] <= |l| {
      var only := multiset{}[x := multiset(l)[x]];
      assert only <= multiset(l) && |only| == multiset(l)[x];
      assert multiset(l) == only + (multiset(l) - only);
    }
  }

  lemma {:induction false} SumScaled<T>(xs: set<T>, f: T -> real, c: real, g: T -> real)
    requires forall x :: x in xs ==> g(x) == c * f(x)
    ensures Sum(xs, g) == c * Sum(xs, f)
  {
    if x :| x in xs {
      SumScaled(xs - {x}, f, c, g);
      SumPick(xs, f, x);
      SumPick(xs, g, x);
    }
  }

  /** Coding two stretches apart never costs more than coding them as one. */
  lemma SplittingNeverLengthens(l: seq<int>, r: seq<int>, log: real -> real)
    requires Logarithm(log) && l != [] && r != []
    ensures CostOf(l, log) + CostOf(r, log) <= CostOf(l + r, log)
  {
    hide Bits, Logarithm, CostOf, Sum, Support;
    var s := l + r;
    assert multiset(s) == multiset(l) + multiset(r);
    OwnIsCheapest(l, s, log);
    OwnIsCheapest(r, s, log);
    CostOver(s, Support(multiset(s)), log);
    CrossAdd(multiset(l), multiset(r), Support(multiset(s)), |s|, log);
  }

  lemma CrossAdd(a: multiset<int>, b: multiset<int>, xs: set<int>, n: int, log: real -> real)
    ensures Sum(xs, Cross(a, a + b, n, log)) + Sum(xs, Cross(b, a + b, n, log)) == Sum(xs, Cross(a + b, a + b, n, log))
  {
    hide Bits, Sum;
    var f, g, h := Cross(a, a + b, n, log), Cross(b, a + b, n, log), Cross(a + b, a + b, n, log);
    forall x | x in xs ensures h(x) == f(x) + g(x) {
      BitsAdd(a[x], b[x], (a + b)[x], n, log);
    }
    SumAdd(xs, f, g, h);
  }

  lemma BitsAdd(a: int, b: int, part: int, n: int, log: real -> real)
    ensures Bits(a + b, part, n, log) == Bits(a, part, n, log) + Bits(b, part, n, log)
  {
  }

  // --------------------------------------------------- stretches of one symbol

  function Repeat(x: int, n: nat): seq<int> {
    seq(n, _ => x)
  }

  /** One symbol repeated costs nothing. */
  lemma RepeatsAreFree(x: int, n: nat, log: real -> real)
    requires Logarithm(log)
    ensures CostOf(Repeat(x, n), log) == 0.0
  {
    hide Bits, Sum, Logarithm;
    var s := Repeat(x, n);
    RepeatCounts(x, n);
    var f := Cross(multiset(s), multiset(s), n, log);
    assert Support(multiset(s)) <= {x};
    CostOver(s, {x}, log);
    SumOne(x, f);
    AllOfIt(n, log);
  }

  lemma AllOfIt(n: nat, log: real -> real)
    requires Logarithm(log)
    ensures Bits(n, n, n, log) == 0.0
  {
    LogOne(log);
    if n > 0 {
      assert n as real / n as real == 1.0;
    }
  }

  lemma SumOne<T>(x: T, f: T -> real)
    ensures Sum({x}, f) == f(x)
  {
    SumPick({x}, f, x);
    assert {x} - {x} == {};
  }

  lemma {:induction false} RepeatCounts(x: int, n: nat)
    ensures multiset(Repeat(x, n)) == multiset{}[x := n] && |Repeat(x, n)| == n
  {
    if n > 0 {
      RepeatCounts(x, n - 1);
      assert Repeat(x, n) == Repeat(x, n - 1) + [x];
    }
  }

  lemma ChangeCounts(x: int, k: nat, y: int, m: nat)
    requires x != y && k > 0 && m > 0
    ensures var s := Repeat(x, k) + Repeat(y, m);
      |s| == k + m && multiset(s)[x] == k && multiset(s)[y] == m && Support(multiset(s)) == {x, y}
  {
    hide Repeat;
    RepeatCounts(x, k);
    RepeatCounts(y, m);
    var s := Repeat(x, k) + Repeat(y, m);
    assert multiset(s) == multiset{}[x := k] + multiset{}[y := m];
  }

  /** What two different symbols cost, each in a stretch of its own. */
  lemma ChangeCost(x: int, k: nat, y: int, m: nat, log: real -> real)
    requires x != y && k > 0 && m > 0
    ensures CostOf(Repeat(x, k) + Repeat(y, m), log) == Bits(k, k, k + m, log) + Bits(m, m, k + m, log)
  {
    hide Bits, Sum, CostOf, Repeat, Support;
    var s := Repeat(x, k) + Repeat(y, m);
    ChangeCounts(x, k, y, m);
    CostOver(s, {x, y}, log);
    var f := Cross(multiset(s), multiset(s), k + m, log);
    SumPick({x, y}, f, x);
    assert {x, y} - {x} == {y};
    SumOne(y, f);
  }

  /** The product of two lengths over their sum. */
  ghost function Worth(k: nat, m: nat): real {
    if k + m == 0 then 0.0 else k as real * m as real / (k + m) as real
  }

  /** What two parameters instead of one cost more is less than twice the worth. */
  lemma WorthIsEnough(k: nat, m: nat, log: real -> real)
    requires Logarithm(log) && k > 0 && m > 0
    ensures Worth(k, m) > 0.0 && log(k as real) + log(m as real) - log((k + m) as real) <= Worth(k, m) - 1.0
  {
    hide Logarithm;
    var a, b, n := k as real, m as real, (k + m) as real;
    WorthReal(a, b, n, log);
    assert Worth(k, m) == a * b / n;
  }

  lemma WorthReal(a: real, b: real, n: real, log: real -> real)
    requires Logarithm(log) && a > 0.0 && b > 0.0 && n > 0.0
    ensures a * b / n > 0.0 && log(a) + log(b) - log(n) <= a * b / n - 1.0
  {
    hide Logarithm;
    LogTimes(log, a, b);
    var ab := a * b;
    assert log(ab) == log(a) + log(b);
    LogRatio(log, ab, n);
    LogBound(log, ab, n);
    assert log(ab) - log(n) <= ab / n - 1.0;
  }

  /** Such a change is worth at least twice the product of the lengths over the whole. */
  lemma ChangeIsWorth(k: nat, m: nat, log: real -> real)
    requires Logarithm(log) && k > 0 && m > 0
    ensures Bits(k, k, k + m, log) + Bits(m, m, k + m, log) >= 2.0 * Worth(k, m)
  {
    hide Bits, Logarithm;
    assert k as real * m as real == m as real * k as real;
    PartIsWorth(k, m, log);
    PartIsWorth(m, k, log);
  }

  lemma PartIsWorth(k: nat, m: nat, log: real -> real)
    requires Logarithm(log) && k > 0 && m > 0
    ensures Bits(k, k, k + m, log) >= k as real * m as real / (k + m) as real
  {
    hide Logarithm;
    var rk, rm := k as real, m as real;
    assert (k + m) as real == rk + rm;
    LogRatio(log, rk, rk + rm);
    LogBelow(log, rk / (rk + rm));
    ScaleBy(rk, log(rk / (rk + rm)), rk / (rk + rm) - 1.0);
    Rest(rk, rm);
  }

  lemma LogBelow(log: real -> real, x: real)
    requires Logarithm(log) && x > 0.0
    ensures log(x) <= x - 1.0
  {
  }

  lemma Rest(k: real, m: real)
    requires k > 0.0 && m > 0.0
    ensures k * (k / (k + m) - 1.0) == -(k * m / (k + m))
  {
    var n := k + m;
    var a, b, c := k / n, m / n, k * m / n;
    assert a * n == k && b * n == m && c * n == k * m;
    Cancel(a + b, 1.0, n);
    assert (k * b) * n == k * (b * n);
    Cancel(k * b, c, n);
    assert k * (a - 1.0) == k * (-b);
  }

  lemma Cancel(x: real, y: real, n: real)
    requires n != 0.0 && x * n == y * n
    ensures x == y
  {
    assert (x - y) * n == 0.0;
  }
}
