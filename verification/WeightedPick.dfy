/** The deterministic weighted picker: a counter advances by one per call through
    the cumulative weights, wrapping at their total.  Weights are reals. */
module WeightedPick {
  import opened Prelude

  // ------------------------------------------------------------- arithmetic

  function Ceil(x: real): int {
    -((-x).Floor)
  }

  lemma CeilBounds(x: real)
    ensures x <= Ceil(x) as real < x + 1.0
  {
  }

  lemma CeilIsLeast(x: real, k: int)
    ensures x <= k as real <==> Ceil(x) <= k
  {
  }

  lemma CeilOfInteger(n: int)
    ensures Ceil(n as real) == n
  {
  }

  lemma CeilShift(x: real, n: int)
    ensures Ceil(x + n as real) == Ceil(x) + n
  {
    CeilBounds(x);
    CeilIsLeast(x + n as real, Ceil(x) + n);
    CeilIsLeast(x, Ceil(x + n as real) - n);
  }

  /** A half-open interval of length w holds either floor(w) or ceil(w) integers. */
  lemma IntegersInInterval(a: real, w: real)
    requires w >= 0.0
    ensures w.Floor <= Ceil(a + w) - Ceil(a) <= Ceil(w)
  {
    CeilBounds(a);
    CeilBounds(w);
    CeilIsLeast(a + w, Ceil(a) + Ceil(w));
    CeilShift(a, w.Floor);
    CeilMonotone(a + w.Floor as real, a + w);
  }

  lemma CeilMonotone(x: real, y: real)
    requires x <= y
    ensures Ceil(x) <= Ceil(y)
  {
    CeilBounds(y);
    CeilIsLeast(x, Ceil(y));
  }

  predicate IsInteger(x: real) {
    x == x.Floor as real
  }

  lemma Positive(a: real, b: real)
    requires a > 0.0 && b > 0.0
    ensures a * b > 0.0
  {
  }

  lemma TimesLess(a: real, b: real, t: real)
    requires t > 0.0 && a < b
    ensures a * t < b * t
  {
    Positive(b - a, t);
    assert (b - a) * t == b * t - a * t;
  }

  lemma TimesAtMost(a: real, b: real, t: real)
    requires t > 0.0 && a <= b
    ensures a * t <= b * t
  {
    if a < b { TimesLess(a, b, t); }
  }

  lemma DivideTimes(x: real, t: real)
    requires t > 0.0
    ensures (x / t) * t == x
  {
  }

  lemma QuotientAtLeast(a: real, x: real, t: real)
    requires t > 0.0 && a * t <= x
    ensures a <= x / t
  {
    var y := x / t;
    DivideTimes(x, t);
    if y < a { TimesLess(y, a, t); }
  }

  lemma QuotientBelow(x: real, b: real, t: real)
    requires t > 0.0 && x < b * t
    ensures x / t < b
  {
    var y := x / t;
    DivideTimes(x, t);
    if b < y { TimesLess(b, y, t); }
  }

  lemma Distribute(a: real, t: real)
    ensures (a + 1.0) * t == a * t + t
  {
  }

  /** t added n times: where lap n starts. */
  function At(t: real, n: nat): real {
    if n == 0 then 0.0 else At(t, n - 1) + t
  }

  lemma {:induction false} AtIsProduct(t: real, n: nat)
    ensures At(t, n) == n as real * t
  {
    if n > 0 {
      AtIsProduct(t, n - 1);
      var a := (n - 1) as real;
      calc {
        At(t, n);
        a * t + t;
        { Distribute(a, t); }
        (a + 1.0) * t;
        { assert a + 1.0 == n as real; }
        n as real * t;
      }
    }
  }

  lemma {:induction false} AtMinus(a: real, b: real, n: nat)
    ensures At(a - b, n) == At(a, n) - At(b, n)
  {
    if n > 0 { AtMinus(a, b, n - 1); }
  }

  lemma {:induction false} AtInteger(h: int, n: nat)
    ensures At(h as real, n) == (n * h) as real
  {
    if n > 0 {
      AtInteger(h, n - 1);
      assert n * h == (n - 1) * h + h;
    }
  }

  lemma {:induction false} AtNonNegative(t: real, n: nat)
    requires t >= 0.0
    ensures At(t, n) >= 0.0
  {
    if n > 0 { AtNonNegative(t, n - 1); }
  }

  /** The lap a point lies in. */
  lemma SomeLap(x: real, t: real) returns (lap: nat)
    requires t > 0.0 && x >= 0.0
    ensures At(t, lap) <= x < At(t, lap + 1)
  {
    DivideTimes(x, t);
    QuotientAtLeast(0.0, x, t);
    lap := LapAround(x / t, x, t);
  }

  lemma LapAround(y: real, x: real, t: real) returns (lap: nat)
    requires t > 0.0 && y >= 0.0 && y * t == x
    ensures At(t, lap) <= x < At(t, lap + 1)
  {
    lap := y.Floor;
    calc {
      At(t, lap);
      { AtIsProduct(t, lap); }
      lap as real * t;
    <= { TimesAtMost(lap as real, y, t); }
      y * t;
      x;
    }
    calc {
      x;
      y * t;
    < { TimesLess(y, (lap + 1) as real, t); }
      (lap + 1) as real * t;
      { AtIsProduct(t, lap + 1); }
      At(t, lap + 1);
    }
  }

  /** The remainder of x by t, as the counter is reduced. */
  function Mod(x: real, t: real): real
    requires t > 0.0
  {
    x - t * (x / t).Floor as real
  }

  /** Within a lap the remainder is the distance from its start. */
  lemma ModWithinLap(x: real, t: real, lap: nat)
    requires t > 0.0 && At(t, lap) <= x < At(t, lap + 1)
    ensures Mod(x, t) == x - At(t, lap)
  {
    AtIsProduct(t, lap);
    AtIsProduct(t, lap + 1);
    QuotientAtLeast(lap as real, x, t);
    QuotientBelow(x, (lap + 1) as real, t);
    assert (x / t).Floor == lap;
  }

  // ---------------------------------------------------------------- picking

  function Total(weights: seq<real>): real {
    if weights == [] then 0.0
    else Total(weights[..|weights| - 1]) + weights[|weights| - 1]
  }

  /** The cumulative weight of the first i buckets. */
  function Prefix(weights: seq<real>, i: nat): real
    requires i <= |weights|
  {
    Total(weights[..i])
  }

  lemma PrefixStep(weights: seq<real>, i: nat)
    requires i < |weights|
    ensures Prefix(weights, i + 1) == Prefix(weights, i) + weights[i]
    ensures Prefix(weights, 0) == 0.0
    ensures Prefix(weights, |weights|) == Total(weights)
  {
    assert weights[..i + 1][..i] == weights[..i];
    assert weights[..|weights|] == weights;
  }

  predicate NonNegative(weights: seq<real>) {
    forall i :: 0 <= i < |weights| ==> weights[i] >= 0.0
  }

  lemma {:induction false} PrefixMonotone(weights: seq<real>, i: nat, j: nat)
    requires NonNegative(weights) && i <= j <= |weights|
    ensures Prefix(weights, i) <= Prefix(weights, j)
    decreases j
  {
    if i < j {
      PrefixMonotone(weights, i, j - 1);
      PrefixStep(weights, j - 1);
    }
  }

  /** The first bucket from i on whose cumulative weight exceeds x. */
  function Scan(weights: seq<real>, x: real, i: nat): nat
    requires i <= |weights| && |weights| > 0
    decreases |weights| - i
  {
    if i == |weights| then |weights| - 1
    else if x < Prefix(weights, i + 1) then i
    else Scan(weights, x, i + 1)
  }

  function Pick(weights: seq<real>, counter: nat): nat
    requires |weights| > 0
  {
    if Total(weights) <= 0.0 then counter % |weights|
    else Scan(weights, Mod(counter as real, Total(weights)), 0)
  }

  /** The accumulator loop.  With a positive total it always returns from inside
      the loop: the value after it is never needed in exact arithmetic. */
  method WeightedPick(weights: seq<real>, counter: nat) returns (index: nat)
    requires |weights| > 0
    ensures index == Pick(weights, counter) && index < |weights|
  {
    hide Mod;
    var total := Sum(weights);
    if total <= 0.0 { return counter % |weights|; }
    var counterMod := Mod(counter as real, total);
    var acc := 0.0;
    PrefixStep(weights, 0);
    RemainderBelowTotal(counter, total);
    for i := 0 to |weights|
      invariant acc == Prefix(weights, i) && (i > 0 ==> acc <= counterMod)
      invariant Pick(weights, counter) == Scan(weights, counterMod, i)
    {
      PrefixStep(weights, i);
      acc := acc + weights[i];
      if counterMod < acc { return i; }
    }
    assert false;
  }

  method Sum(weights: seq<real>) returns (total: real)
    ensures total == Total(weights)
  {
    total := 0.0;
    for i := 0 to |weights|
      invariant total == Total(weights[..i])
    {
      assert weights[..i + 1][..i] == weights[..i];
      total := total + weights[i];
    }
    assert weights[..|weights|] == weights;
  }

  lemma RemainderBelowTotal(counter: nat, total: real)
    requires total > 0.0
    ensures 0.0 <= Mod(counter as real, total) < total
  {
    hide Mod;
    var lap := SomeLap(counter as real, total);
    ModWithinLap(counter as real, total, lap);
  }

  lemma {:induction false} ScanFinds(weights: seq<real>, x: real, from: nat, i: nat)
    requires NonNegative(weights) && from <= i < |weights|
    requires Prefix(weights, i) <= x < Prefix(weights, i + 1)
    ensures Scan(weights, x, from) == i
    decreases i - from
  {
    if from < i {
      PrefixMonotone(weights, from + 1, i);
      ScanFinds(weights, x, from + 1, i);
    }
  }

  /** With non-negative weights, a counter in a given lap picks bucket i exactly
      when it falls between the bucket's two cumulative weights in that lap. */
  lemma PickExactly(weights: seq<real>, counter: nat, lap: nat, i: nat)
    requires NonNegative(weights) && Total(weights) > 0.0 && i < |weights|
    requires At(Total(weights), lap) <= counter as real < At(Total(weights), lap + 1)
    ensures Pick(weights, counter) == i <==>
            At(Total(weights), lap) + Prefix(weights, i) <= counter as real <
            At(Total(weights), lap) + Prefix(weights, i + 1)
  {
    hide Mod, Prefix, Scan, Total;
    var t := Total(weights);
    ModWithinLap(counter as real, t, lap);
    var x := Mod(counter as real, t);
    ScanResult(weights, x);
    if Prefix(weights, i) <= x < Prefix(weights, i + 1) { ScanFinds(weights, x, 0, i); }
  }

  lemma ScanResult(weights: seq<real>, x: real)
    requires NonNegative(weights) && |weights| > 0 && 0.0 <= x < Total(weights)
    ensures
      var r := Scan(weights, x, 0);
      r < |weights| && Prefix(weights, r) <= x < Prefix(weights, r + 1)
  {
    PrefixStep(weights, 0);
    ScanStops(weights, x, 0);
  }

  lemma {:induction false} ScanStops(weights: seq<real>, x: real, from: nat)
    requires from < |weights| && Prefix(weights, from) <= x < Total(weights)
    ensures
      var r := Scan(weights, x, from);
      r < |weights| && Prefix(weights, r) <= x < Prefix(weights, r + 1)
    decreases |weights| - from
  {
    PrefixStep(weights, from);
    if Prefix(weights, from + 1) <= x { ScanStops(weights, x, from + 1); }
  }

  // ------------------------------------------------------------------ share

  /** How many of n consecutive counters pick bucket i. */
  function Hits(weights: seq<real>, i: nat, from: nat, n: nat): nat
    requires |weights| > 0
  {
    if n == 0 then 0
    else Hits(weights, i, from, n - 1) + (if Pick(weights, from + n - 1) == i then 1 else 0)
  }

  lemma {:induction false} HitsSplit(weights: seq<real>, i: nat, from: nat, m: nat, n: nat)
    requires |weights| > 0
    ensures Hits(weights, i, from, m + n) == Hits(weights, i, from, m) + Hits(weights, i, from + m, n)
    decreases n
  {
    hide Pick;
    if n > 0 { HitsSplit(weights, i, from, m, n - 1); }
  }

  function Clamp(x: int, lo: int, hi: int): int {
    if x < lo then lo else if x > hi then hi else x
  }

  lemma {:induction false} HitsInInterval(weights: seq<real>, i: nat, from: nat, n: nat, lo: int, hi: int)
    requires |weights| > 0 && lo <= hi
    requires forall k: nat :: from <= k < from + n ==> (Pick(weights, k) == i <==> lo <= k < hi)
    ensures Hits(weights, i, from, n) == Clamp(hi, from, from + n) - Clamp(lo, from, from + n)
    decreases n
  {
    hide Pick;
    if n > 0 { HitsInInterval(weights, i, from, n - 1, lo, hi); }
  }

  /** The first counter of a lap. */
  function LapStart(t: real, lap: nat): int {
    Ceil(At(t, lap))
  }

  lemma LapStartIsNat(t: real, lap: nat)
    requires t > 0.0
    ensures 0 <= LapStart(t, lap) <= LapStart(t, lap + 1)
  {
    hide Ceil;
    AtNonNegative(t, lap);
    CeilMonotone(0.0, At(t, lap));
    CeilOfInteger(0);
    CeilMonotone(At(t, lap), At(t, lap + 1));
  }

  lemma BucketWithinLap(weights: seq<real>, i: nat)
    requires NonNegative(weights) && i < |weights|
    ensures 0.0 <= Prefix(weights, i) <= Prefix(weights, i + 1) <= Total(weights)
  {
    hide Total;
    PrefixStep(weights, i);
    PrefixMonotone(weights, 0, i);
    PrefixMonotone(weights, i + 1, |weights|);
  }

  lemma LapPick(weights: seq<real>, i: nat, lap: nat, k: nat)
    requires NonNegative(weights) && Total(weights) > 0.0 && i < |weights|
    requires LapStart(Total(weights), lap) <= k < LapStart(Total(weights), lap + 1)
    ensures
      var base := At(Total(weights), lap);
      Pick(weights, k) == i <==> Ceil(base + Prefix(weights, i)) <= k < Ceil(base + Prefix(weights, i + 1))
  {
    hide Pick, Prefix, Total, Ceil, At;
    var t := Total(weights);
    CeilIsLeast(At(t, lap), k);
    CeilIsLeast(At(t, lap + 1), k);
    CeilIsLeast(At(t, lap) + Prefix(weights, i), k);
    CeilIsLeast(At(t, lap) + Prefix(weights, i + 1), k);
    PickExactly(weights, k, lap, i);
  }

  /** One full lap hits bucket i once per integer between the bucket's
      cumulative weights in that lap. */
  lemma LapHits(weights: seq<real>, i: nat, lap: nat)
    requires NonNegative(weights) && Total(weights) > 0.0 && i < |weights|
    requires 0 <= LapStart(Total(weights), lap) <= LapStart(Total(weights), lap + 1)
    ensures
      var t := Total(weights);
      Hits(weights, i, LapStart(t, lap), LapStart(t, lap + 1) - LapStart(t, lap)) ==
      Ceil(At(t, lap) + Prefix(weights, i + 1)) - Ceil(At(t, lap) + Prefix(weights, i))
  {
    hide Pick, Prefix, Total, Hits, Ceil;
    var t := Total(weights);
    var a, b := At(t, lap) + Prefix(weights, i), At(t, lap) + Prefix(weights, i + 1);
    var from, end := LapStart(t, lap), LapStart(t, lap + 1);
    BucketWithinLap(weights, i);
    CeilMonotone(At(t, lap), a);
    CeilMonotone(a, b);
    CeilMonotone(b, At(t, lap + 1));
    forall k: nat | from <= k < end ensures Pick(weights, k) == i <==> Ceil(a) <= k < Ceil(b) {
      LapPick(weights, i, lap, k);
    }
    HitsInInterval(weights, i, from, end - from, Ceil(a), Ceil(b));
  }

  /** For any non-negative weights, each full lap gives bucket i the floor or the
      ceiling of its weight. */
  lemma LapShare(weights: seq<real>, i: nat, lap: nat)
    requires NonNegative(weights) && Total(weights) > 0.0 && i < |weights|
    ensures
      var t := Total(weights);
      && 0 <= LapStart(t, lap) <= LapStart(t, lap + 1)
      && weights[i].Floor <=
         Hits(weights, i, LapStart(t, lap), LapStart(t, lap + 1) - LapStart(t, lap)) <= Ceil(weights[i])
  {
    hide Pick, Prefix, Total, Hits, Ceil, At;
    var t := Total(weights);
    LapStartIsNat(t, lap);
    LapHits(weights, i, lap);
    PrefixStep(weights, i);
    IntegersInInterval(At(t, lap) + Prefix(weights, i), weights[i]);
  }

  lemma HitsOne(weights: seq<real>, i: nat, k: nat)
    requires |weights| > 0
    ensures Hits(weights, i, k, 1) == if Pick(weights, k) == i then 1 else 0
  {
    hide Pick;
    assert Hits(weights, i, k, 0) == 0;
  }

  lemma PrefixZero(weights: seq<real>)
    ensures Prefix(weights, 0) == 0.0
  {
  }

  // -------------------------------------------------------------- no weight

  /** Without a positive total the picks go round: of any |weights| consecutive
      counters each bucket gets exactly one. */
  lemma {:induction false} NoWeightGoesRound(weights: seq<real>, i: nat, from: nat)
    requires i < |weights| && Total(weights) <= 0.0
    ensures Hits(weights, i, from, |weights|) == 1
    decreases from
  {
    hide Total;
    var n := |weights|;
    if from == 0 {
      HitsInInterval(weights, i, 0, n, i, i + 1);
    } else {
      NoWeightGoesRound(weights, i, from - 1);
      HitsSplit(weights, i, from - 1, 1, n);
      HitsSplit(weights, i, from - 1, n, 1);
      HitsOne(weights, i, from - 1);
      HitsOne(weights, i, from - 1 + n);
      SameRemainder(from - 1, n);
    }
  }

  lemma SameRemainder(k: nat, n: nat)
    requires n > 0
    ensures (k + n) % n == k % n
  {
    var d := k / n;
    assert k + n == (d + 1) * n + k % n;
    RemainderIs(d + 1, n, k % n);
  }

  // ------------------------------------------------------------- starvation

  /** A bucket of weight at least one is picked within any ceil(total)
      consecutive counters. */
  lemma HeavyBucketIsPicked(weights: seq<real>, i: nat, from: nat) returns (k: nat)
    requires NonNegative(weights) && i < |weights| && weights[i] >= 1.0 && Total(weights) > 0.0
    ensures from <= k < from + Ceil(Total(weights)) && Pick(weights, k) == i
  {
    hide Pick, Prefix, Total, Ceil;
    var t := Total(weights);
    BucketWithinLap(weights, i);
    PrefixStep(weights, i);
    CeilBounds(t);
    var lap := SomeLap(from as real, t);
    if from as real < At(t, lap) + Prefix(weights, i + 1) {
      k := NextInBucket(weights, i, lap, from);
    } else {
      k := NextInBucket(weights, i, lap + 1, from);
    }
  }

  /** The first counter at or after `from` in bucket i of a lap that the bucket
      has not yet left. */
  lemma NextInBucket(weights: seq<real>, i: nat, lap: nat, from: nat) returns (k: nat)
    requires NonNegative(weights) && i < |weights| && weights[i] >= 1.0 && Total(weights) > 0.0
    requires from as real < At(Total(weights), lap) + Prefix(weights, i + 1)
    ensures from <= k && Pick(weights, k) == i
    ensures k == from || k as real < At(Total(weights), lap) + Prefix(weights, i) + 1.0
  {
    hide Pick, Total, Prefix, Ceil;
    var t := Total(weights);
    var a := At(t, lap) + Prefix(weights, i);
    BucketWithinLap(weights, i);
    PrefixStep(weights, i);
    AtNonNegative(t, lap);
    CeilBounds(a);
    k := if from as real < a then Ceil(a) else from;
    PickExactly(weights, k, lap, i);
  }

  /** With two counters in a lap and a first weight above one, both of them fall
      to the first bucket: no other bucket is ever picked. */
  lemma LightBucketIsStarved(weights: seq<real>, k: nat)
    requires NonNegative(weights) && |weights| > 1 && Total(weights) == 2.0 && weights[0] > 1.0
    ensures Pick(weights, k) == 0
  {
    hide Pick, Total, Prefix, At;
    var lap := k / 2;
    AtInteger(2, lap);
    AtInteger(2, lap + 1);
    PrefixStep(weights, 0);
    PickExactly(weights, k, lap, 0);
  }
}
