/** The starvation floor: weights below a tenth of the median are lifted to it. */
module WeightFloor {
  import opened Prelude

  const FLOOR_FRACTION: real := 0.1

  // ---------------------------------------------------------------- sorting

  predicate Sorted(s: seq<real>) {
    forall i, j :: 0 <= i < j < |s| ==> s[i] <= s[j]
  }

  function Insert(x: real, s: seq<real>): (t: seq<real>)
    ensures multiset(t) == multiset{x} + multiset(s)
    ensures |t| == |s| + 1
  {
    if s == [] || x <= s[0] then
      [x] + s
    else
      assert s == [s[0]] + s[1..];
      [s[0]] + Insert(x, s[1..])
  }

  function Sort(s: seq<real>): (t: seq<real>)
    ensures multiset(t) == multiset(s)
    ensures |t| == |s|
  {
    if s == [] then [] else assert s == [s[0]] + s[1..]; Insert(s[0], Sort(s[1..]))
  }

  lemma {:induction false} InsertKeepsSorted(x: real, s: seq<real>)
    requires Sorted(s)
    ensures Sorted(Insert(x, s))
    decreases |s|
  {
    if s != [] && x > s[0] {
      InsertKeepsSorted(x, s[1..]);
      var t := Insert(x, s[1..]);
      assert Insert(x, s) == [s[0]] + t;
      forall j | 0 <= j < |t| ensures s[0] <= t[j] {
        assert t[j] in multiset(t);
        assert t[j] == x || t[j] in s[1..];
      }
    }
  }

  lemma {:induction false} SortIsSorted(s: seq<real>)
    ensures Sorted(Sort(s))
    decreases |s|
  {
    if s != [] {
      SortIsSorted(s[1..]);
      InsertKeepsSorted(s[0], Sort(s[1..]));
    }
  }

  lemma HeadIsLeast(a: seq<real>, b: seq<real>)
    requires Sorted(a) && Sorted(b) && a != [] && multiset(a) == multiset(b)
    ensures b != [] && b[0] <= a[0]
  {
    assert |multiset(a)| == |a| && |multiset(b)| == |b|;
    assert a[0] in multiset(b);
    var j :| 0 <= j < |b| && b[j] == a[0];
    assert j == 0 || b[0] <= b[j];
  }

  /** A list has only one sorted permutation. */
  lemma {:induction false} SortedIsUnique(a: seq<real>, b: seq<real>)
    requires Sorted(a) && Sorted(b) && multiset(a) == multiset(b)
    ensures a == b
    decreases |a|
  {
    assert |multiset(a)| == |a| && |multiset(b)| == |b|;
    if a != [] {
      HeadIsLeast(a, b);
      HeadIsLeast(b, a);
      assert a == [a[0]] + a[1..] && b == [b[0]] + b[1..];
      assert multiset(a[1..]) == multiset(a) - multiset{a[0]};
      assert multiset(b[1..]) == multiset(b) - multiset{b[0]};
      SortedIsUnique(a[1..], b[1..]);
    }
  }

  /** Whatever sorting algorithm is used, its result is Sort's. */
  lemma AnySortAgrees(s: seq<real>, t: seq<real>)
    requires Sorted(t) && multiset(t) == multiset(s)
    ensures t == Sort(s)
  {
    SortIsSorted(s);
    SortedIsUnique(t, Sort(s));
  }

  // ------------------------------------------------------------------ floor

  function Median(weights: seq<real>): real
    requires weights != []
  {
    Sort(weights)[|weights| / 2]
  }

  /** Every weight at least floor. */
  function Lift(weights: seq<real>, floor: real): (lifted: seq<real>)
    ensures |lifted| == |weights|
  {
    seq(|weights|, i requires 0 <= i < |weights| => Max(weights[i], floor))
  }

  function ApplyFloor(weights: seq<real>): (lifted: seq<real>)
    ensures |lifted| == |weights|
    ensures forall i :: 0 <= i < |weights| ==> lifted[i] >= weights[i]
  {
    if weights == [] then [] else Lift(weights, FLOOR_FRACTION * Median(weights))
  }

  // ------------------------------------------------------- rank of the median

  /** How many weights lie strictly below x. */
  function Below(weights: seq<real>, x: real): nat {
    if weights == [] then 0 else (if weights[0] < x then 1 else 0) + Below(weights[1..], x)
  }

  /** How many weights lie at or below x. */
  function UpTo(weights: seq<real>, x: real): nat {
    if weights == [] then 0 else (if weights[0] <= x then 1 else 0) + UpTo(weights[1..], x)
  }

  /** m is one of the weights, at most half of them lie below it, and more than
      half lie at or below it. */
  predicate IsMiddle(weights: seq<real>, m: real) {
    m in weights && Below(weights, m) <= |weights| / 2 < UpTo(weights, m)
  }

  lemma {:induction false} CountInsert(x: real, s: seq<real>, y: real)
    ensures Below(Insert(x, s), y) == Below(s, y) + (if x < y then 1 else 0)
    ensures UpTo(Insert(x, s), y) == UpTo(s, y) + (if x <= y then 1 else 0)
    decreases |s|
  {
    var t := Insert(x, s);
    if s == [] || x <= s[0] {
      assert t[0] == x && t[1..] == s;
    } else {
      assert t[0] == s[0] && t[1..] == Insert(x, s[1..]);
      CountInsert(x, s[1..], y);
    }
  }

  lemma {:induction false} CountSort(s: seq<real>, y: real)
    ensures Below(Sort(s), y) == Below(s, y) && UpTo(Sort(s), y) == UpTo(s, y)
    decreases |s|
  {
    if s != [] {
      CountSort(s[1..], y);
      CountInsert(s[0], Sort(s[1..]), y);
    }
  }

  /** In a sorted list at most h values lie below the one at h, and more than h
      lie at or below it. */
  lemma {:induction false} SortedRank(s: seq<real>, h: nat)
    requires Sorted(s) && h < |s|
    ensures Below(s, s[h]) <= h < UpTo(s, s[h])
    decreases |s|
  {
    assert Sorted(s[1..]);
    if h == 0 {
      NoneBelow(s, s[0]);
    } else {
      assert s[1..][h - 1] == s[h];
      SortedRank(s[1..], h - 1);
    }
  }

  lemma {:induction false} NoneBelow(s: seq<real>, x: real)
    requires forall i :: 0 <= i < |s| ==> x <= s[i]
    ensures Below(s, x) == 0
    decreases |s|
  {
    if s != [] { NoneBelow(s[1..], x); }
  }

  lemma {:induction false} BelowPasses(s: seq<real>, x: real, y: real)
    requires x < y
    ensures UpTo(s, x) <= Below(s, y)
    decreases |s|
  {
    if s != [] { BelowPasses(s[1..], x, y); }
  }

  /** The median is the one middle value. */
  lemma MedianExactly(weights: seq<real>, m: real)
    requires weights != []
    ensures m == Median(weights) <==> IsMiddle(weights, m)
  {
    hide Sort, Below, UpTo;
    var median := Median(weights);
    SortIsSorted(weights);
    SortedRank(Sort(weights), |weights| / 2);
    CountSort(weights, median);
    assert median in multiset(Sort(weights));
    assert IsMiddle(weights, median);
    if m < median { BelowPasses(weights, m, median); }
    if median < m { BelowPasses(weights, median, m); }
  }

  /** What the floor does, by the middle value: a weight below a tenth of it
      becomes that tenth, every other weight stays. */
  lemma FloorExactly(weights: seq<real>, m: real, i: nat)
    requires IsMiddle(weights, m) && i < |weights|
    ensures ApplyFloor(weights)[i] == if weights[i] < 0.1 * m then 0.1 * m else weights[i]
  {
    hide Median;
    MedianExactly(weights, m);
  }

  /** Ten, ten and a tenth: the last is lifted to one. */
  lemma FloorLifts()
    ensures ApplyFloor([10.0, 10.0, 0.1]) == [10.0, 10.0, 1.0]
  {
    hide ApplyFloor;
    var w := [10.0, 10.0, 0.1];
    assert w[1..] == [10.0, 0.1] && w[1..][1..] == [0.1] && w[1..][1..][1..] == [];
    assert Below([], 10.0) == 0 && UpTo([], 10.0) == 0;
    assert Below([0.1], 10.0) == 1 && UpTo([0.1], 10.0) == 1;
    assert w[0] in w;
    assert IsMiddle(w, 10.0);
    FloorExactly(w, 10.0, 0);
    FloorExactly(w, 10.0, 1);
    FloorExactly(w, 10.0, 2);
  }

  /** The order of weights is never reversed. */
  lemma FloorKeepsOrder(weights: seq<real>, i: nat, j: nat)
    requires i < |weights| && j < |weights| && weights[i] <= weights[j]
    ensures ApplyFloor(weights)[i] <= ApplyFloor(weights)[j]
  {
  }

  lemma LiftHead(s: seq<real>, floor: real)
    requires s != []
    ensures multiset(Lift(s, floor)) == multiset{Max(s[0], floor)} + multiset(Lift(s[1..], floor))
  {
    assert Lift(s, floor) == [Max(s[0], floor)] + Lift(s[1..], floor);
  }

  lemma {:induction false} LiftInsert(x: real, s: seq<real>, floor: real)
    ensures multiset(Lift(Insert(x, s), floor)) == multiset{Max(x, floor)} + multiset(Lift(s, floor))
    decreases |s|
  {
    hide Max, Lift;
    var t := Insert(x, s);
    LiftHead(t, floor);
    if s == [] || x <= s[0] {
      assert t[1..] == s;
    } else {
      assert t[1..] == Insert(x, s[1..]);
      LiftHead(s, floor);
      LiftInsert(x, s[1..], floor);
    }
  }

  lemma {:induction false} LiftSort(s: seq<real>, floor: real)
    ensures multiset(Lift(Sort(s), floor)) == multiset(Lift(s, floor))
    decreases |s|
  {
    hide Max, Insert;
    if s == [] {
      assert Lift(Sort(s), floor) == Lift(s, floor);
    } else {
      LiftHead(s, floor);
      LiftInsert(s[0], Sort(s[1..]), floor);
      LiftSort(s[1..], floor);
    }
  }

  /** Lifting commutes with sorting, so the median is lifted like any weight. */
  lemma LiftedMedian(weights: seq<real>, floor: real)
    requires weights != []
    ensures Median(Lift(weights, floor)) == Max(Median(weights), floor)
  {
    hide Sort;
    SortIsSorted(weights);
    LiftSort(weights, floor);
    AnySortAgrees(Lift(weights, floor), Lift(Sort(weights), floor));
  }

  /** Exactly when the floor is stable: it keeps the median, and applying it
      twice is applying it once, if and only if the median is not negative. */
  lemma FloorStableExactly(weights: seq<real>)
    requires weights != []
    ensures Median(ApplyFloor(weights)) == Median(weights) <==> Median(weights) >= 0.0
    ensures ApplyFloor(ApplyFloor(weights)) == ApplyFloor(weights) <==> Median(weights) >= 0.0
  {
    hide Sort;
    var m := Median(weights);
    var once := ApplyFloor(weights);
    LiftedMedian(weights, FLOOR_FRACTION * m);
    if m >= 0.0 {
      assert ApplyFloor(once) == once;
    } else {
      var floor := FLOOR_FRACTION * m;
      assert Median(once) == floor;
      LiftedMedian(once, FLOOR_FRACTION * floor);
      assert Median(ApplyFloor(once)) == FLOOR_FRACTION * floor;
    }
  }
}
