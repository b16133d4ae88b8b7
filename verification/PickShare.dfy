/** The share of calls each bucket of the weighted picker gets, against the share
    its documentation promises, for every total that is a fraction. */
module PickShare {
  import opened Prelude
  import opened WeightedPick

  // ---------------------------------------------------------------- scaling

  lemma {:induction false} AtSum(a: real, b: real, n: nat)
    ensures At(a + b, n) == At(a, n) + At(b, n)
  {
    if n > 0 { AtSum(a, b, n - 1); }
  }

  lemma {:induction false} AtZero(n: nat)
    ensures At(0.0, n) == 0.0
  {
    if n > 0 { AtZero(n - 1); }
  }

  /** m laps of n steps are n laps of m steps. */
  lemma {:induction false} AtSwap(t: real, m: nat, n: nat)
    ensures At(At(t, m), n) == At(At(t, n), m)
  {
    if m == 0 {
      AtZero(n);
    } else {
      AtSwap(t, m - 1, n);
      AtSum(At(t, m - 1), t, n);
    }
  }

  lemma {:induction false} AtAdds(t: real, a: nat, b: nat)
    ensures At(t, a + b) == At(t, a) + At(t, b)
    decreases b
  {
    if b > 0 { AtAdds(t, a, b - 1); }
  }

  lemma {:induction false} AtTimes(t: real, b: nat, d: nat)
    ensures At(At(t, b), d) == At(t, d * b)
    decreases d
  {
    if d > 0 {
      AtTimes(t, b, d - 1);
      assert d * b == (d - 1) * b + b;
      AtAdds(t, (d - 1) * b, b);
    }
  }

  lemma {:induction false} AtGrows(d: real, n: nat)
    requires d > 0.0 && n > 0
    ensures At(d, n) > 0.0
  {
    if n > 1 { AtGrows(d, n - 1); } else { assert At(d, 1) == At(d, 0) + d; }
  }

  /** Scaling by a positive number keeps the order. */
  lemma AtOrder(a: real, b: real, n: nat)
    requires n > 0
    ensures a < b <==> At(a, n) < At(b, n)
    ensures a == b <==> At(a, n) == At(b, n)
  {
    AtMinus(b, a, n);
    AtMinus(a, b, n);
    if a < b { AtGrows(b - a, n); }
    if b < a { AtGrows(a - b, n); }
  }

  // ---------------------------------------------------------------- periods

  /** The total is the fraction p / q in lowest terms: q is the least number of
      laps that ends on a whole counter, and that counter is p. */
  ghost predicate Period(t: real, p: nat, q: nat) {
    && p > 0 && q > 0
    && At(t, q) == p as real
    && forall m: nat :: 0 < m < q ==> !IsInteger(At(t, m))
  }

  /** Every fraction has a period. */
  lemma {:induction false} PeriodExists(t: real, a: nat, b: nat) returns (p: nat, q: nat)
    requires a > 0 && b > 0 && At(t, b) == a as real
    ensures Period(t, p, q)
    decreases b
  {
    hide At;
    if m: nat :| 0 < m < b && IsInteger(At(t, m)) {
      AtZero(b);
      AtOrder(0.0, t, b);
      AtGrows(t, m);
      p, q := PeriodExists(t, WholeCounter(t, m), m);
    } else {
      p, q := a, b;
    }
  }

  /** A period has no common divisor but one. */
  lemma PeriodIsLowest(t: real, p: nat, q: nat, d: nat, a: nat, b: nat)
    requires Period(t, p, q) && p == d * a && q == d * b
    ensures d == 1
  {
    hide At;
    AtTimes(t, b, d);
    AtInteger(a, d);
    if d > 1 { AtOrder(At(t, b), a as real, d); }
  }

  function WholeCounter(t: real, m: nat): nat
    requires IsInteger(At(t, m)) && At(t, m) > 0.0
  {
    At(t, m).Floor
  }

  /** Where counter k stands within its lap, in q-ths. */
  function Residue(p: nat, q: nat, k: nat): nat
    requires p > 0
  {
    q * k % p
  }

  lemma ResidueInLap(p: nat, q: nat, k: nat, lap: nat)
    requires p > 0 && lap * p <= q * k < (lap + 1) * p
    ensures Residue(p, q, k) == q * k - lap * p
  {
    var r := q * k - lap * p;
    assert (lap + 1) * p == lap * p + p;
    RemainderIs(lap, p, r);
  }

  lemma ResidueRepeats(p: nat, q: nat, k: nat)
    requires p > 0
    ensures Residue(p, q, k + p) == Residue(p, q, k)
  {
    var x := q * k;
    var d := x / p;
    assert q * (k + p) == x + q * p;
    assert x + q * p == (d + q) * p + x % p;
    RemainderIs(d + q, p, x % p);
  }

  /** Two counters at the same place are a whole number of laps apart. */
  lemma SamePlace(t: real, p: nat, q: nat, j: nat, k: nat) returns (m: nat)
    requires p > 0 && q > 0 && At(t, q) == p as real && j < k < p
    requires Residue(p, q, j) == Residue(p, q, k)
    ensures 0 < m < q && At(t, m) == (k - j) as real
  {
    hide At;
    var laps := q * k / p - q * j / p;
    var d := k - j;
    SameResidue(p, q, j, k);
    LapsBelow(p, q, d, laps);
    m := laps;
    AtSwap(t, m, q);
    AtInteger(p, m);
    AtInteger(d, q);
    AtOrder(At(t, m), d as real, q);
  }

  /** In lowest terms the counters of one period stand at different places. */
  lemma ResiduesDiffer(t: real, p: nat, q: nat, j: nat, k: nat)
    requires Period(t, p, q) && j < k < p
    ensures Residue(p, q, j) != Residue(p, q, k)
  {
    hide At, Residue;
    if Residue(p, q, j) == Residue(p, q, k) {
      var m := SamePlace(t, p, q, j, k);
    }
  }

  lemma SameResidue(p: nat, q: nat, j: nat, k: nat)
    requires p > 0 && j <= k && q * j % p == q * k % p
    ensures q * (k - j) == (q * k / p - q * j / p) * p
  {
    var a, b := q * j, q * k;
    assert a == (a / p) * p + a % p && b == (b / p) * p + b % p;
    assert q * (k - j) == b - a;
    assert (b / p - a / p) * p == (b / p) * p - (a / p) * p;
  }

  lemma LapsBelow(p: nat, q: nat, d: nat, m: int)
    requires 0 < d < p && q > 0 && q * d == m * p
    ensures 0 < m < q
  {
    assert q * d > 0;
    QuotientOrder(d, p, q);
    QuotientOrder(m, 1, p);
    QuotientOrder(q - 1, m, p);
  }

  // --------------------------------------------------------------- landings

  /** Where bucket i starts, in q-ths of a counter, rounded up to a whole one. */
  function Mark(weights: seq<real>, q: nat, i: nat): int
    requires i <= |weights|
  {
    Ceil(At(Prefix(weights, i), q))
  }

  /** How many of the first m counters stand between lo and hi. */
  function Landed(p: nat, q: nat, lo: int, hi: int, m: nat): nat
    requires p > 0
  {
    if m == 0 then 0
    else Landed(p, q, lo, hi, m - 1) + (if lo <= Residue(p, q, m - 1) < hi then 1 else 0)
  }

  predicate Fraction(weights: seq<real>, p: nat, q: nat) {
    NonNegative(weights) && |weights| > 0 && p > 0 && q > 0 && At(Total(weights), q) == p as real
  }

  lemma FractionIsPositive(weights: seq<real>, p: nat, q: nat)
    requires Fraction(weights, p, q)
    ensures Total(weights) > 0.0
  {
    hide Total, NonNegative, At;
    AtZero(q);
    AtOrder(0.0, Total(weights), q);
  }

  lemma MarksInOrder(weights: seq<real>, p: nat, q: nat, i: nat)
    requires Fraction(weights, p, q) && i < |weights|
    ensures 0 <= Mark(weights, q, i) <= Mark(weights, q, i + 1) <= p
  {
    hide Total, Prefix, Ceil, At;
    BucketWithinLap(weights, i);
    var a, b, t := Prefix(weights, i), Prefix(weights, i + 1), Total(weights);
    AtZero(q);
    AtOrder(a, 0.0, q);
    AtOrder(b, a, q);
    AtOrder(t, b, q);
    CeilOfInteger(0);
    CeilOfInteger(p);
    CeilMonotone(0.0, At(a, q));
    CeilMonotone(At(a, q), At(b, q));
    CeilMonotone(At(b, q), p as real);
  }

  /** The q-th part of a lap in which counter k lies. */
  lemma ScaledLap(t: real, p: nat, q: nat, k: nat, lap: nat)
    requires p > 0 && q > 0 && At(t, q) == p as real
    requires At(t, lap) <= k as real < At(t, lap + 1)
    ensures lap * p <= q * k && Residue(p, q, k) == q * k - lap * p
    ensures At(At(t, lap), q) == (lap * p) as real
  {
    hide At, Residue;
    AtSwap(t, lap, q);
    AtSwap(t, lap + 1, q);
    AtInteger(p, lap);
    AtInteger(p, lap + 1);
    AtInteger(k, q);
    AtOrder(k as real, At(t, lap), q);
    AtOrder(k as real, At(t, lap + 1), q);
    ResidueInLap(p, q, k, lap);
  }

  /** A point of a lap is at or before the counter exactly if its scaled ceiling
      is at or before the residue. */
  lemma ScaledPoint(base: real, x: real, q: nat, k: nat, whole: int, r: int)
    requires q > 0 && At(base, q) == whole as real && r == q * k - whole
    ensures base + x <= k as real <==> Ceil(At(x, q)) <= r
  {
    hide At, Ceil;
    AtSum(base, x, q);
    AtInteger(k, q);
    AtOrder(k as real, base + x, q);
    CeilIsLeast(At(x, q), r);
  }

  /** The pick is decided by where the counter stands among the marks. */
  lemma PickByResidue(weights: seq<real>, p: nat, q: nat, k: nat, i: nat)
    requires Fraction(weights, p, q) && i < |weights|
    ensures Pick(weights, k) == i <==> Mark(weights, q, i) <= Residue(p, q, k) < Mark(weights, q, i + 1)
  {
    hide Pick, Prefix, Total, At, Ceil, Residue, NonNegative;
    var t := Total(weights);
    FractionIsPositive(weights, p, q);
    var lap := SomeLap(k as real, t);
    PickExactly(weights, k, lap, i);
    ScaledLap(t, p, q, k, lap);
    ScaledPoint(At(t, lap), Prefix(weights, i), q, k, lap * p, Residue(p, q, k));
    ScaledPoint(At(t, lap), Prefix(weights, i + 1), q, k, lap * p, Residue(p, q, k));
  }

  lemma {:induction false} HitsAreLandings(weights: seq<real>, p: nat, q: nat, i: nat, m: nat)
    requires Fraction(weights, p, q) && i < |weights|
    ensures Hits(weights, i, 0, m) == Landed(p, q, Mark(weights, q, i), Mark(weights, q, i + 1), m)
    decreases m
  {
    hide Pick, Fraction, Mark, Residue;
    if m > 0 {
      HitsAreLandings(weights, p, q, i, m - 1);
      PickByResidue(weights, p, q, m - 1, i);
    }
  }

  /** The picks repeat after p counters. */
  lemma PickRepeats(weights: seq<real>, p: nat, q: nat, k: nat, i: nat)
    requires Fraction(weights, p, q) && i < |weights|
    ensures Pick(weights, k + p) == i <==> Pick(weights, k) == i
  {
    hide Pick, Mark, Residue, NonNegative, Total, At;
    PickByResidue(weights, p, q, k, i);
    PickByResidue(weights, p, q, k + p, i);
    ResidueRepeats(p, q, k);
  }

  function Residues(p: nat, q: nat, lo: int, hi: int, m: nat): set<int>
    requires p > 0
  {
    set k | 0 <= k < m && lo <= Residue(p, q, k) < hi :: Residue(p, q, k)
  }

  function Between(lo: int, hi: int): (s: set<int>)
    ensures forall r :: r in s <==> lo <= r < hi
    ensures lo <= hi ==> |s| == hi - lo
    decreases hi - lo
  {
    if lo >= hi then {} else Between(lo, hi - 1) + {hi - 1}
  }

  /** Counters of one period land on different residues, so landings can be
      counted as a set. */
  lemma {:induction false} LandedIsSize(t: real, p: nat, q: nat, lo: int, hi: int, m: nat)
    requires Period(t, p, q) && m <= p
    ensures |Residues(p, q, lo, hi, m)| == Landed(p, q, lo, hi, m)
    decreases m
  {
    hide Period, Residue;
    if m > 0 {
      LandedIsSize(t, p, q, lo, hi, m - 1);
      var r := Residue(p, q, m - 1);
      var before := Residues(p, q, lo, hi, m - 1);
      forall k | 0 <= k < m - 1 ensures Residue(p, q, k) != r { ResiduesDiffer(t, p, q, k, m - 1); }
      assert r !in before;
      if lo <= r < hi {
        assert Residues(p, q, lo, hi, m) == before + {r};
      } else {
        assert Residues(p, q, lo, hi, m) == before;
      }
    }
  }

  lemma SubsetOfSameSize(a: set<int>, b: set<int>)
    requires a <= b && |a| == |b|
    ensures a == b
  {
    assert |b - a| == |b| - |a| by { assert b == a + (b - a); }
    assert b - a == {};
  }

  lemma {:induction false} AllLand(p: nat, q: nat, m: nat)
    requires p > 0
    ensures Landed(p, q, 0, p, m) == m
    decreases m
  {
    if m > 0 { AllLand(p, q, m - 1); }
  }

  /** Over one period every place is visited exactly once. */
  lemma PeriodLandings(t: real, p: nat, q: nat, lo: int, hi: int)
    requires Period(t, p, q) && 0 <= lo <= hi <= p
    ensures Landed(p, q, lo, hi, p) == hi - lo
  {
    hide At, IsInteger, Landed;
    LandedIsSize(t, p, q, 0, p, p);
    AllLand(p, q, p);
    SubsetOfSameSize(Residues(p, q, 0, p, p), Between(0, p));
    forall r | lo <= r < hi ensures r in Residues(p, q, lo, hi, p) {
      assert r in Between(0, p);
      assert r in Residues(p, q, 0, p, p);
    }
    assert Residues(p, q, lo, hi, p) == Between(lo, hi);
    LandedIsSize(t, p, q, lo, hi, p);
  }

  /** How often one period picks bucket i. */
  function PerPeriod(weights: seq<real>, q: nat, i: nat): int
    requires i < |weights|
  {
    Mark(weights, q, i + 1) - Mark(weights, q, i)
  }

  ghost predicate Periodic(weights: seq<real>, p: nat, q: nat) {
    NonNegative(weights) && |weights| > 0 && Period(Total(weights), p, q)
  }

  /** Any p consecutive counters pick bucket i equally often, wherever they
      start: once per place between its marks. */
  lemma {:induction false} WindowHits(weights: seq<real>, p: nat, q: nat, i: nat, from: nat)
    requires Periodic(weights, p, q) && i < |weights|
    ensures Hits(weights, i, from, p) == PerPeriod(weights, q, i)
    decreases from
  {
    hide Pick, Mark, Total, At, Hits, NonNegative, IsInteger;
    if from == 0 {
      MarksInOrder(weights, p, q, i);
      HitsAreLandings(weights, p, q, i, p);
      PeriodLandings(Total(weights), p, q, Mark(weights, q, i), Mark(weights, q, i + 1));
    } else {
      WindowHits(weights, p, q, i, from - 1);
      HitsSplit(weights, i, from - 1, 1, p);
      HitsSplit(weights, i, from - 1, p, 1);
      PickRepeats(weights, p, q, from - 1, i);
      HitsOne(weights, i, from - 1);
      HitsOne(weights, i, from - 1 + p);
    }
  }

  lemma {:induction false} PeriodsHits(weights: seq<real>, p: nat, q: nat, i: nat, n: nat)
    requires Periodic(weights, p, q) && i < |weights|
    ensures Hits(weights, i, 0, n * p) == n * PerPeriod(weights, q, i)
    decreases n
  {
    hide Periodic, PerPeriod;
    if n > 0 {
      var h := PerPeriod(weights, q, i);
      PeriodsHits(weights, p, q, i, n - 1);
      assert n * p == (n - 1) * p + p && n * h == (n - 1) * h + h;
      HitsSplit(weights, i, 0, (n - 1) * p, p);
      WindowHits(weights, p, q, i, (n - 1) * p);
    }
  }

  /** With integer weights, any total-many consecutive counters pick each bucket
      exactly its weight's number of times. */
  lemma IntegerShare(weights: seq<real>, n: nat, i: nat, from: nat)
    requires NonNegative(weights) && i < |weights| && n > 0 && Total(weights) == n as real
    requires forall j :: 0 <= j < |weights| ==> IsInteger(weights[j])
    ensures Hits(weights, i, from, n) as real == weights[i]
  {
    hide Hits, Total, NonNegative, PerPeriod;
    assert At(n as real, 1) == At(n as real, 0) + n as real;
    forall j | 0 <= j < |weights| ensures At(weights[j], 1) == weights[j] {
      assert At(weights[j], 1) == At(weights[j], 0) + weights[j];
    }
    WindowHits(weights, n, 1, i, from);
    IntegersFill(weights, 1, i);
  }

  // --------------------------------------------------- the documented share

  /** A bucket's share of some calls in proportion to its weight. */
  function ExactShare(calls: nat, t: real, w: real): real
    requires t > 0.0
  {
    calls as real * w / t
  }

  /** The documented share of a bucket of weight w after some calls. */
  function DocumentedShare(calls: nat, t: real, w: real): int
    requires t > 0.0
  {
    ExactShare(calls, t, w).Floor
  }

  /** After this many calls bucket i has its documented share, give or take one. */
  predicate ShareAfter(weights: seq<real>, i: nat, calls: nat)
    requires Total(weights) > 0.0 && i < |weights|
  {
    var share := DocumentedShare(calls, Total(weights), weights[i]);
    share - 1 <= Hits(weights, i, 0, calls) <= share + 1
  }

  predicate ShareAfterPeriods(weights: seq<real>, p: nat, i: nat, n: nat)
    requires Total(weights) > 0.0 && i < |weights|
  {
    ShareAfter(weights, i, n * p)
  }

  /** The documented share holds at the end of every period. */
  ghost predicate ShareAtPeriodEnds(weights: seq<real>, p: nat, i: nat)
    requires Total(weights) > 0.0 && i < |weights|
  {
    forall n: nat :: ShareAfterPeriods(weights, p, i, n)
  }

  /** The documented share holds after any number of calls. */
  ghost predicate ShareAlways(weights: seq<real>, i: nat)
    requires Total(weights) > 0.0 && i < |weights|
  {
    forall calls: nat :: ShareAfter(weights, i, calls)
  }

  lemma Regroup(y: real, t: real, q: real, c: real, w: real)
    requires y * t == c * w
    ensures y * (q * t) == c * (q * w)
  {
    calc {
      y * (q * t);
      q * (y * t);
      q * (c * w);
      c * (q * w);
    }
  }

  /** Scaled by the period, the exact share is calls times the scaled weight. */
  lemma ShareScaled(calls: nat, t: real, w: real, p: nat, q: nat)
    requires t > 0.0 && At(t, q) == p as real
    ensures ExactShare(calls, t, w) * p as real == calls as real * At(w, q)
  {
    DivideTimes(calls as real * w, t);
    AtIsProduct(t, q);
    AtIsProduct(w, q);
    Regroup(ExactShare(calls, t, w), t, q as real, calls as real, w);
  }

  lemma CancelFactor(x: real, y: real, p: real)
    requires p > 0.0 && x * p == y * p
    ensures x == y
  {
    if x < y { TimesLess(x, y, p); }
    if y < x { TimesLess(y, x, p); }
  }

  /** After whole periods the exact share is a multiple of the scaled weight. */
  lemma ShareOfPeriods(n: nat, t: real, w: real, p: nat, q: nat)
    requires t > 0.0 && p > 0 && At(t, q) == p as real
    ensures ExactShare(n * p, t, w) == At(At(w, q), n)
  {
    hide ExactShare, At;
    var v := At(w, q);
    ShareScaled(n * p, t, w, p, q);
    AtIsProduct(v, n);
    PeriodsOf(n, p, v);
    CancelFactor(ExactShare(n * p, t, w), At(v, n), p as real);
  }

  lemma PeriodsOf(n: nat, p: nat, v: real)
    ensures (n * p) as real * v == (n as real * v) * p as real
  {
    var a, b := n as real, p as real;
    assert (n * p) as real == a * b;
    assert a * b * v == a * v * b;
  }

  /** Hits and exact share never drift more than two apart at period ends... */
  lemma ShareIsNear(weights: seq<real>, p: nat, q: nat, i: nat, n: nat)
    requires Periodic(weights, p, q) && i < |weights| && Total(weights) > 0.0
    requires ShareAfterPeriods(weights, p, i, n)
    ensures -2.0 <= At(PerPeriod(weights, q, i) as real, n) - At(At(weights[i], q), n) <= 2.0
  {
    hide Hits, PerPeriod, Total, At, ExactShare, NonNegative, IsInteger;
    PeriodsHits(weights, p, q, i, n);
    ShareOfPeriods(n, Total(weights), weights[i], p, q);
    AtInteger(PerPeriod(weights, q, i), n);
  }

  /** ...so the scaled weight must be what one period picks. */
  lemma ShareForcesWeight(weights: seq<real>, p: nat, q: nat, i: nat)
    requires Periodic(weights, p, q) && i < |weights| && Total(weights) > 0.0
    requires ShareAtPeriodEnds(weights, p, i)
    ensures At(weights[i], q) == PerPeriod(weights, q, i) as real
  {
    hide Hits, PerPeriod, Total, ShareAfterPeriods, At, Periodic;
    var v, h := At(weights[i], q), PerPeriod(weights, q, i) as real;
    if v != h {
      var gap := if v < h then h - v else v - h;
      var n := SomeLap(2.0, gap);
      assert ShareAfterPeriods(weights, p, i, n + 1);
      ShareIsNear(weights, p, q, i, n + 1);
      AtMinus(h, v, n + 1);
      AtMinus(v, h, n + 1);
    }
  }

  /** Every weight is a whole number of q-ths. */
  predicate WholeWeights(weights: seq<real>, q: nat) {
    forall i :: 0 <= i < |weights| ==> IsInteger(At(weights[i], q))
  }

  lemma {:induction false} WholePrefix(weights: seq<real>, q: nat, i: nat)
    requires WholeWeights(weights, q) && i <= |weights|
    ensures IsInteger(At(Prefix(weights, i), q))
    decreases i
  {
    hide Prefix, At;
    if i == 0 {
      PrefixZero(weights);
      AtZero(q);
    } else {
      WholePrefix(weights, q, i - 1);
      PrefixStep(weights, i - 1);
      AtSum(Prefix(weights, i - 1), weights[i - 1], q);
      var a, b := At(Prefix(weights, i - 1), q).Floor, At(weights[i - 1], q).Floor;
      assert At(Prefix(weights, i), q) == (a + b) as real;
    }
  }

  /** If every weight is whole, the marks are exact. */
  lemma IntegersFill(weights: seq<real>, q: nat, i: nat)
    requires WholeWeights(weights, q) && i < |weights|
    ensures At(weights[i], q) == PerPeriod(weights, q, i) as real
  {
    hide Prefix, At, Ceil;
    WholePrefix(weights, q, i);
    WholePrefix(weights, q, i + 1);
    PrefixStep(weights, i);
    AtSum(Prefix(weights, i), weights[i], q);
    CeilOfInteger(At(Prefix(weights, i), q).Floor);
    CeilOfInteger(At(Prefix(weights, i + 1), q).Floor);
  }

  lemma FloorOfQuotient(y: real, a: int, p: nat)
    requires p > 0 && y * p as real == a as real
    ensures y.Floor == a / p
  {
    var d, f := a / p, p as real;
    assert d * p <= a < d * p + p;
    assert (d * p) as real == d as real * f;
    Distribute(d as real, f);
    if y < d as real { TimesLess(y, d as real, f); }
    if y >= d as real + 1.0 { TimesAtMost(d as real + 1.0, y, f); }
  }

  /** For a whole weight the documented share is an integer quotient. */
  lemma ShareIsQuotient(calls: nat, t: real, w: real, p: nat, q: nat, h: int)
    requires t > 0.0 && p > 0 && At(t, q) == p as real && At(w, q) == h as real
    ensures DocumentedShare(calls, t, w) == calls * h / p
  {
    hide At, ExactShare;
    ShareScaled(calls, t, w, p, q);
    assert calls as real * h as real == (calls * h) as real;
    FloorOfQuotient(ExactShare(calls, t, w), calls * h, p);
  }

  lemma QuotientOfPeriods(n: nat, p: nat, m: nat, h: int)
    requires p > 0
    ensures (n * p + m) * h / p == n * h + m * h / p
  {
    var d, r := m * h / p, m * h % p;
    assert m * h == d * p + r;
    assert (n * p + m) * h == (n * h + d) * p + r by {
      assert (n * p + m) * h == n * p * h + m * h;
      assert (n * h + d) * p == n * h * p + d * p;
      assert n * p * h == n * h * p;
    }
    RemainderIs(n * h + d, p, r);
  }

  lemma WholeGivesPeriodEnds(weights: seq<real>, p: nat, q: nat, i: nat)
    requires Periodic(weights, p, q) && i < |weights| && Total(weights) > 0.0
    requires At(weights[i], q) == PerPeriod(weights, q, i) as real
    ensures ShareAtPeriodEnds(weights, p, i)
  {
    hide Hits, PerPeriod, Total, At, NonNegative, IsInteger, DocumentedShare;
    var h := PerPeriod(weights, q, i);
    forall n: nat ensures ShareAfterPeriods(weights, p, i, n) {
      PeriodsHits(weights, p, q, i, n);
      ShareIsQuotient(n * p, Total(weights), weights[i], p, q, h);
      QuotientOfPeriods(n, p, 0, h);
    }
  }

  /** Exactly when the documented share holds at the end of every period: if and
      only if every weight is a whole number of q-ths, the total being p / q in
      lowest terms. */
  lemma PeriodEndShareExactly(weights: seq<real>, p: nat, q: nat)
    requires Periodic(weights, p, q)
    ensures Total(weights) > 0.0
    ensures (forall i :: 0 <= i < |weights| ==> ShareAtPeriodEnds(weights, p, i)) <==> WholeWeights(weights, q)
  {
    hide Hits, Total, At, PerPeriod, NonNegative;
    FractionIsPositive(weights, p, q);
    if WholeWeights(weights, q) {
      forall i | 0 <= i < |weights| ensures ShareAtPeriodEnds(weights, p, i) {
        IntegersFill(weights, q, i);
        WholeGivesPeriodEnds(weights, p, q, i);
      }
    }
    if forall i :: 0 <= i < |weights| ==> ShareAtPeriodEnds(weights, p, i) {
      forall i | 0 <= i < |weights| ensures IsInteger(At(weights[i], q)) {
        ShareForcesWeight(weights, p, q, i);
      }
    }
  }

  // -------------------------------------------------------------- every call

  /** h of p calls, in proportion after m of them, rounded down. */
  function Proportion(m: nat, h: int, p: nat): int
    requires p > 0
  {
    m * h / p
  }

  predicate WithinOne(p: nat, q: nat, lo: int, hi: int, m: nat)
    requires p > 0
  {
    Proportion(m, hi - lo, p) - 1 <= Landed(p, q, lo, hi, m) <= Proportion(m, hi - lo, p) + 1
  }

  /** Within one period the landings between lo and hi stay within one of their
      proportional share.  Nothing here but p, q and two marks. */
  predicate Even(p: nat, q: nat, lo: int, hi: int)
    requires p > 0
  {
    forall m :: 0 <= m < p ==> WithinOne(p, q, lo, hi, m)
  }

  predicate PickedEvenly(weights: seq<real>, p: nat, q: nat, i: nat)
    requires p > 0 && i < |weights|
  {
    Even(p, q, Mark(weights, q, i), Mark(weights, q, i + 1))
  }

  lemma {:induction false} HitsRepeat(weights: seq<real>, p: nat, q: nat, i: nat, from: nat, m: nat)
    requires Fraction(weights, p, q) && i < |weights|
    ensures Hits(weights, i, from + p, m) == Hits(weights, i, from, m)
    decreases m
  {
    hide Pick, Fraction;
    if m > 0 {
      HitsRepeat(weights, p, q, i, from, m - 1);
      PickRepeats(weights, p, q, from + m - 1, i);
    }
  }

  lemma {:induction false} HitsRepeatPeriods(weights: seq<real>, p: nat, q: nat, i: nat, n: nat, m: nat)
    requires Fraction(weights, p, q) && i < |weights|
    ensures Hits(weights, i, n * p, m) == Hits(weights, i, 0, m)
    decreases n
  {
    hide Fraction, Hits;
    if n > 0 {
      HitsRepeatPeriods(weights, p, q, i, n - 1, m);
      assert n * p == (n - 1) * p + p;
      HitsRepeat(weights, p, q, i, (n - 1) * p, m);
    }
  }

  /** For a whole weight, every call count reduces to one within a period. */
  lemma ShareWithinPeriod(weights: seq<real>, p: nat, q: nat, i: nat, n: nat, m: nat)
    requires Periodic(weights, p, q) && i < |weights| && Total(weights) > 0.0
    requires At(weights[i], q) == PerPeriod(weights, q, i) as real
    ensures
      var lo, hi := Mark(weights, q, i), Mark(weights, q, i + 1);
      ShareAfter(weights, i, n * p + m) <==>
      WithinOne(p, q, lo, hi, m)
  {
    hide Hits, Mark, Total, At, NonNegative, IsInteger, DocumentedShare;
    var h := PerPeriod(weights, q, i);
    PeriodsHits(weights, p, q, i, n);
    HitsSplit(weights, i, 0, n * p, m);
    HitsRepeatPeriods(weights, p, q, i, n, m);
    HitsAreLandings(weights, p, q, i, m);
    ShareIsQuotient(n * p + m, Total(weights), weights[i], p, q, h);
    QuotientOfPeriods(n, p, m, h);
  }

  /** Exactly when bucket i has its documented share after every number of calls:
      if and only if its scaled weight is what one period picks, and one period
      picks it evenly. */
  lemma BucketShareExactly(weights: seq<real>, p: nat, q: nat, i: nat)
    requires Periodic(weights, p, q) && i < |weights| && Total(weights) > 0.0
    ensures ShareAlways(weights, i) <==>
            && At(weights[i], q) == PerPeriod(weights, q, i) as real
            && PickedEvenly(weights, p, q, i)
  {
    hide Hits, Mark, Total, At, NonNegative, IsInteger, ShareAfter, Landed;
    var lo, hi := Mark(weights, q, i), Mark(weights, q, i + 1);
    if ShareAlways(weights, i) {
      forall n: nat ensures ShareAfterPeriods(weights, p, i, n) { assert ShareAfter(weights, i, n * p); }
      ShareForcesWeight(weights, p, q, i);
      forall m | 0 <= m < p ensures WithinOne(p, q, lo, hi, m) {
        assert ShareAfter(weights, i, 0 * p + m);
        ShareWithinPeriod(weights, p, q, i, 0, m);
      }
    } else if At(weights[i], q) == PerPeriod(weights, q, i) as real && PickedEvenly(weights, p, q, i) {
      EvenGivesShare(weights, p, q, i);
    }
  }

  lemma EvenGivesShare(weights: seq<real>, p: nat, q: nat, i: nat)
    requires Periodic(weights, p, q) && i < |weights| && Total(weights) > 0.0
    requires At(weights[i], q) == PerPeriod(weights, q, i) as real
    requires PickedEvenly(weights, p, q, i)
    ensures ShareAlways(weights, i)
  {
    hide Hits, Mark, Total, At, NonNegative, IsInteger, ShareAfter, Landed;
    forall calls: nat ensures ShareAfter(weights, i, calls) {
      ShareWithinPeriod(weights, p, q, i, calls / p, calls % p);
      assert calls == (calls / p) * p + calls % p;
    }
  }

  /** Exactly when the documentation is right after every number of calls: if and
      only if every weight is a whole number of q-ths and one period picks every
      bucket evenly. */
  lemma DocumentedShareExactly(weights: seq<real>, p: nat, q: nat)
    requires Periodic(weights, p, q)
    ensures Total(weights) > 0.0
    ensures
      (forall i :: 0 <= i < |weights| ==> ShareAlways(weights, i)) <==>
      && WholeWeights(weights, q)
      && forall i :: 0 <= i < |weights| ==> PickedEvenly(weights, p, q, i)
  {
    hide Total, At, PerPeriod, Mark, NonNegative, ShareAlways, Even;
    FractionIsPositive(weights, p, q);
    if forall i :: 0 <= i < |weights| ==> ShareAlways(weights, i) {
      forall i | 0 <= i < |weights|
        ensures IsInteger(At(weights[i], q)) && PickedEvenly(weights, p, q, i)
      {
        BucketShareExactly(weights, p, q, i);
      }
    } else if WholeWeights(weights, q) && forall i :: 0 <= i < |weights| ==> PickedEvenly(weights, p, q, i) {
      forall i | 0 <= i < |weights|
        ensures ShareAlways(weights, i)
      {
        IntegersFill(weights, q, i);
        BucketShareExactly(weights, p, q, i);
      }
    }
  }

  // ---------------------------------------------------------- integer totals

  lemma {:induction false} LandedOnOneLap(p: nat, lo: int, hi: int, m: nat)
    requires 0 <= lo <= hi <= p && 0 < p && m <= p
    ensures Landed(p, 1, lo, hi, m) == Clamp(hi, 0, m) - Clamp(lo, 0, m)
    decreases m
  {
    hide Residue;
    if m > 0 {
      LandedOnOneLap(p, lo, hi, m - 1);
      ResidueOnOneLap(p, m - 1);
    }
  }

  lemma ResidueOnOneLap(p: nat, k: nat)
    requires k < p
    ensures Residue(p, 1, k) == k
  {
    RemainderIs(0, p, k);
  }

  /** A proportional share grows, but by at most one per call. */
  lemma {:induction false} ProportionSlope(h: nat, p: nat, a: nat, b: nat)
    requires h <= p && p > 0 && a <= b
    ensures Proportion(a, h, p) <= Proportion(b, h, p) <= Proportion(a, h, p) + (b - a)
    decreases b
  {
    hide Proportion;
    if a < b {
      ProportionSlope(h, p, a, b - 1);
      ProportionStep(b - 1, h, p);
    }
  }

  lemma ProportionStep(m: nat, h: nat, p: nat)
    requires h <= p && p > 0
    ensures Proportion(m, h, p) <= Proportion(m + 1, h, p) <= Proportion(m, h, p) + 1
  {
    var x := m * h;
    var d, r := x / p, x % p;
    assert x == d * p + r;
    assert (m + 1) * h == x + h;
    assert (d + 1) * p == d * p + p;
    if r + h < p { RemainderIs(d, p, r + h); } else { RemainderIs(d + 1, p, r + h - p); }
  }

  lemma ProportionEnds(h: nat, p: nat)
    requires p > 0
    ensures Proportion(0, h, p) == 0 && Proportion(p, h, p) == h
  {
    assert p * h == h * p + 0;
    RemainderIs(h, p, 0);
    RemainderIs(0, p, 0);
  }

  /** When the period is a single lap, which is when the total is an integer, two
      checks do: no two hits are due before the bucket's first, and it is not two
      hits short after its last. */
  lemma EvenOnOneLap(p: nat, lo: nat, hi: nat)
    requires lo <= hi <= p && p > 0
    ensures Even(p, 1, lo, hi) <==> Proportion(lo, hi - lo, p) <= 1 && hi - lo - 1 <= Proportion(hi, hi - lo, p)
  {
    hide Landed, Proportion;
    ProportionEnds(hi - lo, p);
    if Even(p, 1, lo, hi) {
      LandedOnOneLap(p, lo, hi, lo);
      LandedOnOneLap(p, lo, hi, hi);
      assert lo < p ==> WithinOne(p, 1, lo, hi, lo);
      assert hi < p ==> WithinOne(p, 1, lo, hi, hi);
    }
    if Proportion(lo, hi - lo, p) <= 1 && hi - lo - 1 <= Proportion(hi, hi - lo, p) {
      forall m | 0 <= m < p ensures WithinOne(p, 1, lo, hi, m) {
        LandedOnOneLap(p, lo, hi, m);
        EvenAt(p, lo, hi, m);
      }
    }
  }

  /** The whole statement for an integer total, with the two checks. */
  lemma IntegerTotalShareExactly(weights: seq<real>, n: nat)
    requires NonNegative(weights) && |weights| > 0 && n > 0 && Total(weights) == n as real
    ensures
      (forall i :: 0 <= i < |weights| ==> ShareAlways(weights, i)) <==>
      && WholeWeights(weights, 1)
      && forall i :: 0 <= i < |weights| ==> TwoChecks(weights, n, i)
  {
    hide Total, NonNegative, ShareAlways, PickedEvenly, WholeWeights, TwoChecks;
    assert At(n as real, 1) == At(n as real, 0) + n as real;
    DocumentedShareExactly(weights, n, 1);
    forall i | 0 <= i < |weights| ensures PickedEvenly(weights, n, 1, i) <==> TwoChecks(weights, n, i) {
      ChecksAreEven(weights, n, i);
    }
  }

  predicate TwoChecks(weights: seq<real>, n: nat, i: nat)
    requires n > 0 && i < |weights|
  {
    var lo, hi := Mark(weights, 1, i), Mark(weights, 1, i + 1);
    lo >= 0 && hi >= 0 && Proportion(lo, hi - lo, n) <= 1 && hi - lo - 1 <= Proportion(hi, hi - lo, n)
  }

  lemma ChecksAreEven(weights: seq<real>, n: nat, i: nat)
    requires Fraction(weights, n, 1) && i < |weights|
    ensures PickedEvenly(weights, n, 1, i) <==> TwoChecks(weights, n, i)
  {
    hide Mark, Even, Proportion, NonNegative, At;
    MarksInOrder(weights, n, 1, i);
    EvenOnOneLap(n, Mark(weights, 1, i), Mark(weights, 1, i + 1));
  }

  lemma EvenAt(p: nat, lo: nat, hi: nat, m: nat)
    requires lo <= hi <= p && p > 0 && m < p
    requires Proportion(lo, hi - lo, p) <= 1 && hi - lo - 1 <= Proportion(hi, hi - lo, p)
    ensures
      var share := Proportion(m, hi - lo, p);
      share - 1 <= Clamp(hi, 0, m) - Clamp(lo, 0, m) <= share + 1
  {
    hide Proportion;
    var h := hi - lo;
    ProportionEnds(h, p);
    ProportionSlope(h, p, m, p);
    if m <= lo {
      ProportionSlope(h, p, m, lo);
      ProportionSlope(h, p, 0, m);
    } else if m <= hi {
      ProportionSlope(h, p, lo, m);
      ProportionSlope(h, p, m, hi);
    } else {
      ProportionSlope(h, p, hi, m);
    }
  }

  /** A concrete failure of the documented share: with weights 1.5 and 0.5 the
      second bucket should have three of twelve calls and has none. */
  lemma DocumentedShareFails()
    ensures Total([1.5, 0.5]) > 0.0 && !ShareAfter([1.5, 0.5], 1, 12)
  {
    hide Pick, Hits, ExactShare;
    var weights := [1.5, 0.5];
    assert Total(weights) == 2.0 by {
      assert weights[..1] == [1.5];
      assert Total([1.5]) == Total([]) + 1.5;
    }
    forall k: nat ensures Pick(weights, k) == 0 { LightBucketIsStarved(weights, k); }
    HitsInInterval(weights, 1, 0, 12, 0, 0);
    TwelveCalls();
  }

  lemma TwelveCalls()
    ensures ExactShare(12, 2.0, 0.5) == 3.0
  {
  }

  // ------------------------------------------------------------- starvation

  ghost predicate PickedWithin(weights: seq<real>, i: nat, from: nat, n: nat)
    requires |weights| > 0
  {
    exists k: nat :: from <= k < from + n && Pick(weights, k) == i
  }

  lemma {:induction false} SomeHit(weights: seq<real>, i: nat, from: nat, n: nat)
    requires |weights| > 0
    ensures Hits(weights, i, from, n) > 0 <==> PickedWithin(weights, i, from, n)
    decreases n
  {
    hide Pick;
    if n > 0 {
      SomeHit(weights, i, from, n - 1);
      if Pick(weights, from + n - 1) == i { assert from <= from + n - 1 < from + n; }
    }
  }

  /** Exactly which buckets are starved: bucket i is picked within every p
      consecutive counters if its two marks differ, and never if they coincide. */
  lemma StarvedExactly(weights: seq<real>, p: nat, q: nat, i: nat)
    requires Periodic(weights, p, q) && i < |weights|
    ensures (forall k: nat :: Pick(weights, k) != i) <==> Mark(weights, q, i) == Mark(weights, q, i + 1)
    ensures (forall from: nat :: PickedWithin(weights, i, from, p)) <==>
            Mark(weights, q, i) < Mark(weights, q, i + 1)
  {
    hide Pick, Mark, Hits, Total, At, NonNegative, IsInteger, PickedWithin;
    MarksInOrder(weights, p, q, i);
    forall from: nat ensures PickedWithin(weights, i, from, p) <==> PerPeriod(weights, q, i) > 0 {
      WindowHits(weights, p, q, i, from);
      SomeHit(weights, i, from, p);
    }
    assert PickedWithin(weights, i, 0, p) <==> PerPeriod(weights, q, i) > 0;
    PickedNow(weights, i, p);
  }

  lemma PickedNow(weights: seq<real>, i: nat, p: nat)
    requires |weights| > 0 && p > 0
    ensures (exists k: nat :: Pick(weights, k) == i) <==> exists from: nat :: PickedWithin(weights, i, from, p)
  {
    hide Pick;
    if k: nat :| Pick(weights, k) == i { assert PickedWithin(weights, i, k, p); }
  }
}
