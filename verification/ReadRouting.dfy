/** Spreading reads over the healthy replicas, and the router object itself. */
module ReadRouting {
  import opened Prelude
  import opened Breaker
  import R = Router
  import WF = WeightFloor
  import WP = WeightedPick

  /** Inverse round-trip time; an unmeasured endpoint counts as one. */
  function WeightFor(ep: EndpointHealth): (w: real)
    ensures w > 0.0
  {
    match ep.ewmaRttSecs
    case None => 1.0
    case Some(rtt) =>
      var secs := Max(rtt, MIN_RTT);
      InversePositive(secs);
      1.0 / secs
  }

  lemma InversePositive(x: real)
    requires x > 0.0
    ensures 1.0 / x > 0.0
    ensures x <= 1.0 ==> 1.0 / x >= 1.0
  {
    WP.DivideTimes(1.0, x);
    WP.QuotientAtLeast(0.0, 1.0, x);
    if x <= 1.0 { WP.QuotientAtLeast(1.0, 1.0, x); }
  }

  /** The healthy endpoints from index i on. */
  function HealthyFrom(endpoints: seq<EndpointHealth>, i: nat): (healthy: seq<nat>)
    ensures forall k :: 0 <= k < |healthy| ==> i <= healthy[k] < |endpoints| && endpoints[healthy[k]].healthy
    ensures forall k, l :: 0 <= k < l < |healthy| ==> healthy[k] < healthy[l]
    decreases |endpoints| - i
  {
    if i >= |endpoints| then []
    else if endpoints[i].healthy then [i] + HealthyFrom(endpoints, i + 1)
    else HealthyFrom(endpoints, i + 1)
  }

  lemma {:induction false} HealthyIsComplete(endpoints: seq<EndpointHealth>, i: nat, j: nat)
    requires i <= j < |endpoints| && endpoints[j].healthy
    ensures j in HealthyFrom(endpoints, i)
    decreases j - i
  {
    if i < j { HealthyIsComplete(endpoints, i + 1, j); }
  }

  function RawWeights(endpoints: seq<EndpointHealth>): (w: seq<real>)
    ensures |w| == |HealthyFrom(endpoints, 1)|
    ensures WP.NonNegative(w)
  {
    var healthy := HealthyFrom(endpoints, 1);
    seq(|healthy|, k requires 0 <= k < |healthy| => WeightFor(endpoints[healthy[k]]))
  }

  /** The floored weights of the healthy replicas. */
  function Weights(endpoints: seq<EndpointHealth>): (w: seq<real>)
    ensures |w| == |HealthyFrom(endpoints, 1)|
    ensures forall k :: 0 <= k < |w| ==> w[k] >= WeightFor(endpoints[HealthyFrom(endpoints, 1)[k]])
  {
    WF.ApplyFloor(RawWeights(endpoints))
  }

  /** x is the inverse of the endpoint's average, no average counting as one second
      and none as shorter than a microsecond. */
  predicate IsInverse(ep: EndpointHealth, x: real) {
    match ep.ewmaRttSecs
    case None => x == 1.0
    case Some(rtt) => x * (if rtt < 0.000001 then 0.000001 else rtt) == 1.0
  }

  lemma WeightIsInverse(ep: EndpointHealth)
    ensures IsInverse(ep, WeightFor(ep))
  {
    if ep.ewmaRttSecs.Some? { WP.DivideTimes(1.0, Max(ep.ewmaRttSecs.value, MIN_RTT)); }
  }

  lemma InverseIsUnique(ep: EndpointHealth, x: real, y: real)
    requires IsInverse(ep, x) && IsInverse(ep, y)
    ensures x == y
  {
    if ep.ewmaRttSecs.Some? {
      var t := if ep.ewmaRttSecs.value < 0.000001 then 0.000001 else ep.ewmaRttSecs.value;
      if x < y { WP.TimesLess(x, y, t); }
      if y < x { WP.TimesLess(y, x, t); }
    }
  }

  /** The weights of a pick, from the averages: given the inverses of the healthy
      replicas in index order and their middle value m, each weight is its inverse
      or a tenth of m, whichever is larger. */
  lemma WeightsExactly(endpoints: seq<EndpointHealth>, inverses: seq<real>, m: real, b: nat)
    requires |inverses| == |HealthyFrom(endpoints, 1)| && b < |inverses| && WF.IsMiddle(inverses, m)
    requires forall k :: 0 <= k < |inverses| ==> IsInverse(endpoints[HealthyFrom(endpoints, 1)[k]], inverses[k])
    ensures Weights(endpoints)[b] == if inverses[b] < 0.1 * m then 0.1 * m else inverses[b]
  {
    hide WeightFor, IsInverse, WF.ApplyFloor, WF.IsMiddle;
    var healthy := HealthyFrom(endpoints, 1);
    forall k | 0 <= k < |inverses| ensures RawWeights(endpoints)[k] == inverses[k] {
      WeightIsInverse(endpoints[healthy[k]]);
      InverseIsUnique(endpoints[healthy[k]], inverses[k], WeightFor(endpoints[healthy[k]]));
    }
    assert RawWeights(endpoints) == inverses;
    WF.FloorExactly(inverses, m, b);
  }

  /** The endpoint a read goes to when the counter has a given value. */
  function PickAt(endpoints: seq<EndpointHealth>, forcePrimary: bool, counter: nat): nat {
    var healthy := HealthyFrom(endpoints, 1);
    if forcePrimary || healthy == [] then 0
    else
      var k := WP.Pick(Weights(endpoints), counter);
      if k < |healthy| then healthy[k] else 0
  }

  lemma PickInRange(weights: seq<real>, counter: nat)
    requires |weights| > 0
    ensures WP.Pick(weights, counter) < |weights|
  {
    ScanInRange(weights, WP.Total(weights), 0);
    if WP.Total(weights) > 0.0 { ScanInRange(weights, WP.Mod(counter as real, WP.Total(weights)), 0); }
  }

  lemma {:induction false} ScanInRange(weights: seq<real>, x: real, i: nat)
    requires i <= |weights| && |weights| > 0
    ensures WP.Scan(weights, x, i) < |weights|
    decreases |weights| - i
  {
    hide WP.Prefix;
    if i < |weights| { ScanInRange(weights, x, i + 1); }
  }

  /** A read goes to a healthy replica whenever there is one and the primary is
      not forced; otherwise, and only then, to the primary. */
  lemma ReadsGoToHealthyReplicas(endpoints: seq<EndpointHealth>, forcePrimary: bool, counter: nat)
    ensures
      var i := PickAt(endpoints, forcePrimary, counter);
      if forcePrimary || (forall j :: 1 <= j < |endpoints| ==> !endpoints[j].healthy) then i == 0
      else 1 <= i < |endpoints| && endpoints[i].healthy
  {
    var healthy := HealthyFrom(endpoints, 1);
    if healthy != [] { PickInRange(Weights(endpoints), counter); }
    forall j | 1 <= j < |endpoints| && endpoints[j].healthy ensures healthy != [] {
      HealthyIsComplete(endpoints, 1, j);
    }
    assert healthy != [] ==> 1 <= healthy[0] < |endpoints| && endpoints[healthy[0]].healthy;
  }

  // -------------------------------------------------------------- the object

  class HealthAwareRouter {
    var endpoints: seq<EndpointHealth>
    var rrCounter: nat
    const threshold: nat
    const forcePrimary: bool

    constructor (urls: seq<string>, threshold: nat, forcePrimary: bool)
      ensures endpoints == R.Start(urls) && rrCounter == 0
      ensures this.threshold == threshold && this.forcePrimary == forcePrimary
    {
      endpoints := R.Start(urls);
      rrCounter := 0;
      this.threshold := threshold;
      this.forcePrimary := forcePrimary;
    }

    method PickReadIndex() returns (index: nat)
      modifies this`rrCounter
      ensures index == PickAt(endpoints, forcePrimary, old(rrCounter))
      ensures rrCounter == old(rrCounter) + (if index == 0 then 0 else 1)
    {
      hide WP.Pick, WP.NonNegative;
      ReadsGoToHealthyReplicas(endpoints, forcePrimary, rrCounter);
      if forcePrimary || |endpoints| == 1 { return 0; }
      var healthyReplicas := HealthyReplicas();
      if healthyReplicas == [] { return 0; }
      var weights := WF.ApplyFloor(RawWeights(endpoints));
      var k := WP.WeightedPick(weights, rrCounter);
      rrCounter := rrCounter + 1;
      index := healthyReplicas[k];
    }

    method HealthyReplicas() returns (indices: seq<nat>)
      ensures indices == HealthyFrom(endpoints, 1)
    {
      indices := [];
      if endpoints == [] { return; }
      for i := 1 to |endpoints|
        invariant indices + HealthyFrom(endpoints, i) == HealthyFrom(endpoints, 1)
      {
        if endpoints[i].healthy { indices := indices + [i]; }
      }
    }

    method ObserveIndex(index: nat, outcome: Outcome)
      modifies this`endpoints
      ensures endpoints == R.Step(old(endpoints), R.Observe(index, outcome), threshold)
    {
      if index < |endpoints| {
        endpoints := endpoints[index := endpoints[index].RecordOutcome(outcome, threshold)];
      }
    }

    method ObserveUrl(url: string, outcome: Outcome)
      modifies this`endpoints
      ensures endpoints == R.Step(old(endpoints), R.ObserveUrl(url, outcome), threshold)
    {
      var found := R.Find(endpoints, url);
      if found.Some? {
        endpoints := endpoints[found.value := endpoints[found.value].RecordOutcome(outcome, threshold)];
      }
    }

    /** The endpoints to probe now, in index order. */
    method EndpointsDueForProbe(now: nat, interval: nat) returns (due: seq<nat>)
      ensures forall k, l :: 0 <= k < l < |due| ==> due[k] < due[l]
      ensures forall i :: i in due <==> 0 <= i < |endpoints| && DueForProbe(endpoints[i], now, interval)
    {
      due := [];
      for i := 0 to |endpoints|
        invariant forall k, l :: 0 <= k < l < |due| ==> due[k] < due[l]
        invariant forall k :: 0 <= k < |due| ==> due[k] < i
        invariant forall j :: j in due <==> 0 <= j < i && DueForProbe(endpoints[j], now, interval)
      {
        if DueForProbe(endpoints[i], now, interval) { due := due + [i]; }
      }
    }

    method RecordProbeResult(index: nat, success: bool, now: nat)
      modifies this`endpoints
      ensures endpoints == R.Step(old(endpoints), R.ProbeResult(index, success, now), threshold)
    {
      if index < |endpoints| {
        endpoints := endpoints[index := endpoints[index].RecordProbe(success, now)];
      }
    }

    method UpdateMembership(urls: seq<string>)
      modifies this`endpoints
      ensures endpoints == R.Step(old(endpoints), R.Refresh(urls), threshold)
    {
      var next: seq<EndpointHealth> := [];
      for i := 0 to |urls|
        invariant next == R.Refreshed(endpoints, urls)[..i]
      {
        var existing := R.Find(endpoints, urls[i]);
        match existing {
          case Some(j) => next := next + [endpoints[j]];
          case None => next := next + [New(urls[i])];
        }
      }
      endpoints := next;
    }
  }

  // -------------------------------------------------------------- starvation

  /** Endpoint i is read within the next full turn of the counter, if nothing new
      is observed meanwhile. */
  ghost predicate ReadWithinTurn(endpoints: seq<EndpointHealth>, i: nat, from: nat) {
    exists k: nat :: from <= k < from + WP.Ceil(WP.Total(Weights(endpoints))) && PickAt(endpoints, false, k) == i
  }

  lemma {:induction false} TotalAtLeast(weights: seq<real>, i: nat)
    requires WP.NonNegative(weights) && i < |weights|
    ensures WP.Total(weights) >= weights[i]
  {
    hide WP.Total;
    WP.BucketWithinLap(weights, i);
    WP.PrefixStep(weights, i);
  }

  /** A healthy replica whose average is at most one second is read within every
      turn, whatever the other replicas look like, if nothing new is observed. */
  lemma FastReplicaIsRead(endpoints: seq<EndpointHealth>, i: nat, from: nat)
    requires 1 <= i < |endpoints| && endpoints[i].healthy
    requires endpoints[i].ewmaRttSecs.Some? ==> endpoints[i].ewmaRttSecs.value <= 1.0
    ensures ReadWithinTurn(endpoints, i, from)
  {
    hide WP.Pick, WP.Total, WP.Ceil, Weights;
    var healthy := HealthyFrom(endpoints, 1);
    HealthyIsComplete(endpoints, 1, i);
    var b :| 0 <= b < |healthy| && healthy[b] == i;
    var weights := Weights(endpoints);
    FastWeight(endpoints[i]);
    assert weights[b] >= 1.0;
    forall k | 0 <= k < |weights| ensures weights[k] >= 0.0 {
      assert WeightFor(endpoints[healthy[k]]) > 0.0;
    }
    TotalAtLeast(weights, b);
    var k := WP.HeavyBucketIsPicked(weights, b, from);
    assert PickAt(endpoints, false, k) == i;
  }

  lemma FastWeight(ep: EndpointHealth)
    requires ep.ewmaRttSecs.Some? ==> ep.ewmaRttSecs.value <= 1.0
    ensures WeightFor(ep) >= 1.0
  {
    if ep.ewmaRttSecs.Some? { InversePositive(Max(ep.ewmaRttSecs.value, MIN_RTT)); }
  }

  /** End to end: if every round trip measured for a healthy replica since it
      appeared took at most one second, then as long as nothing new is observed
      the replica is read within every turn of the counter. */
  lemma NoStarvation(urls: seq<string>, events: seq<R.Event>, threshold: nat, i: nat, from: nat)
    requires R.Distinct(urls) && R.RefreshesDistinct(events) && threshold <= U32_MAX
    requires 1 <= i < |R.Run(R.Start(urls), events, threshold)|
    requires R.Run(R.Start(urls), events, threshold)[i].healthy
    requires
      var ep := R.Run(R.Start(urls), events, threshold)[i];
      SamplesAtMost(R.HistoryOf(R.HistoryRun(R.HistoryStart(urls), events), ep.url), 1.0)
    ensures ReadWithinTurn(R.Run(R.Start(urls), events, threshold), i, from)
  {
    hide R.Run, R.HistoryRun, Replay, Tripped, ReadWithinTurn;
    var endpoints := R.Run(R.Start(urls), events, threshold);
    var ep := endpoints[i];
    var h := R.HistoryOf(R.HistoryRun(R.HistoryStart(urls), events), ep.url);
    R.BreakerCharacterised(urls, events, threshold, i);
    EwmaWithinSamples(ep.url, h, threshold, MIN_RTT, 1.0);
    FastReplicaIsRead(endpoints, i, from);
  }

  // ------------------------------------------------- the exact condition

  /** A router can get here: it started with some urls and lived through some
      outcomes, probes and refreshes. */
  ghost predicate Reachable(endpoints: seq<EndpointHealth>) {
    exists urls, events, threshold: nat ::
      && R.Distinct(urls) && R.RefreshesDistinct(events) && threshold <= U32_MAX
      && R.Run(R.Start(urls), events, threshold) == endpoints
  }

  /** A healthy replica with this average in a router that can occur. */
  ghost predicate Occurs(endpoints: seq<EndpointHealth>, i: nat, rtt: real) {
    Reachable(endpoints) && 1 <= i < |endpoints| && endpoints[i].healthy && endpoints[i].ewmaRttSecs == Some(rtt)
  }

  /** A replica with this average is read within every turn, in any company. */
  ghost predicate AlwaysRead(rtt: real) {
    forall endpoints, i: nat, from: nat :: Occurs(endpoints, i, rtt) ==> ReadWithinTurn(endpoints, i, from)
  }

  /** No read ever goes to endpoint i. */
  ghost predicate NeverPicked(endpoints: seq<EndpointHealth>, i: nat) {
    forall k: nat :: PickAt(endpoints, false, k) != i
  }

  /** A replica with this average can be starved for good. */
  ghost predicate CanStarve(rtt: real) {
    exists endpoints, i: nat :: Occurs(endpoints, i, rtt) && NeverPicked(endpoints, i)
  }

  /** An endpoint measured once. */
  function Measured(url: string, rtt: real): EndpointHealth {
    New(url).RecordRtt(rtt)
  }

  lemma MeasuredWeight(url: string, w: real)
    requires 0.0 < w <= 2.0
    ensures WeightFor(Measured(url, 1.0 / w)) == w
  {
    WP.QuotientAtLeast(0.5, 1.0, w);
    var rtt := 1.0 / w;
    WP.DivideTimes(1.0, w);
    assert rtt * w == 1.0;
    InverseOf(rtt, w);
  }

  lemma InverseOf(a: real, b: real)
    requires a > 0.0 && a * b == 1.0
    ensures 1.0 / a == b
  {
    assert b * a == 1.0;
  }

  lemma SlowWeight(url: string, rtt: real)
    requires rtt > 1.0
    ensures WeightFor(Measured(url, rtt)) == 1.0 / rtt && 0.0 < 1.0 / rtt < 1.0
  {
    WP.QuotientBelow(1.0, 1.0, rtt);
    InversePositive(rtt);
  }

  /** A primary and some replicas, the first n of which were measured once. */
  function Company(urls: seq<string>, rtts: seq<real>, n: nat): (endpoints: seq<EndpointHealth>)
    requires |urls| == |rtts| + 1
    ensures |endpoints| == |urls|
  {
    seq(|urls|, i requires 0 <= i < |urls| => if 1 <= i <= n then Measured(urls[i], rtts[i - 1]) else New(urls[i]))
  }

  function Measurements(rtts: seq<real>): (events: seq<R.Event>)
    ensures |events| == |rtts|
  {
    seq(|rtts|, i requires 0 <= i < |rtts| => R.Observe(i + 1, Rtt(rtts[i])))
  }

  lemma {:induction false} CompanyRun(urls: seq<string>, rtts: seq<real>, n: nat)
    requires |urls| == |rtts| + 1 && n <= |rtts|
    ensures R.Run(Company(urls, rtts, n), Measurements(rtts)[n..], 1) == Company(urls, rtts, |rtts|)
    decreases |rtts| - n
  {
    if n < |rtts| {
      var events := Measurements(rtts)[n..];
      assert events[0] == R.Observe(n + 1, Rtt(rtts[n])) && events[1..] == Measurements(rtts)[n + 1..];
      assert R.Step(Company(urls, rtts, n), events[0], 1) == Company(urls, rtts, n + 1);
      CompanyRun(urls, rtts, n + 1);
    }
  }

  lemma CompanyOccurs(urls: seq<string>, rtts: seq<real>)
    requires |urls| == |rtts| + 1 && R.Distinct(urls)
    ensures Reachable(Company(urls, rtts, |rtts|))
  {
    hide R.Run;
    var events := Measurements(rtts);
    CompanyRun(urls, rtts, 0);
    assert events[0..] == events;
    assert R.Start(urls) == Company(urls, rtts, 0);
    assert R.RefreshesDistinct(events);
  }

  lemma CompanyWeights(urls: seq<string>, rtts: seq<real>)
    requires |urls| == |rtts| + 1
    ensures
      var all := Company(urls, rtts, |rtts|);
      && HealthyFrom(all, 1) == seq(|rtts|, k => k + 1)
      && RawWeights(all) == seq(|rtts|, k requires 0 <= k < |rtts| => WeightFor(Measured(urls[k + 1], rtts[k])))
  {
    hide WeightFor;
    AllHealthy(Company(urls, rtts, |rtts|), 1);
  }

  lemma {:induction false} AllHealthy(endpoints: seq<EndpointHealth>, i: nat)
    requires i <= |endpoints| && forall k :: 0 <= k < |endpoints| ==> endpoints[k].healthy
    ensures |HealthyFrom(endpoints, i)| == |endpoints| - i
    ensures forall k :: 0 <= k < |endpoints| - i ==> HealthyFrom(endpoints, i)[k] == k + i
    decreases |endpoints| - i
  {
    if i < |endpoints| { AllHealthy(endpoints, i + 1); }
  }

  /** If the floor lifts nothing, the total is two and the first replica weighs
      more than one, then no other replica is ever read. */
  lemma SlowCompanyIsStarved(urls: seq<string>, rtts: seq<real>, weights: seq<real>)
    requires |urls| == |rtts| + 1 && R.Distinct(urls) && |rtts| > 1 && rtts[1] > 1.0
    requires weights == RawWeights(Company(urls, rtts, |rtts|)) && WF.ApplyFloor(weights) == weights
    requires |weights| > 1 && WP.Total(weights) == 2.0 && weights[0] > 1.0
    ensures CanStarve(rtts[1])
  {
    hide WP.Pick, WP.Total, WF.ApplyFloor, RawWeights, HealthyFrom, Reachable;
    var all := Company(urls, rtts, |rtts|);
    CompanyWeights(urls, rtts);
    CompanyOccurs(urls, rtts);
    forall k: nat ensures PickAt(all, false, k) != 2 {
      WP.LightBucketIsStarved(weights, k);
    }
    assert all[2] == Measured(urls[2], rtts[1]);
    assert Occurs(all, 2, rtts[1]) && NeverPicked(all, 2);
  }

  /** A router that can occur and in which the floor really lifts a weight: with
      averages of 0.1, 0.1 and 10 seconds the slow replica weighs one, not 0.1. */
  lemma LiftOccurs() returns (endpoints: seq<EndpointHealth>)
    ensures Reachable(endpoints) && |endpoints| == 4
    ensures endpoints[1].ewmaRttSecs == endpoints[2].ewmaRttSecs == Some(0.1) && endpoints[3].ewmaRttSecs == Some(10.0)
    ensures Weights(endpoints) == [10.0, 10.0, 1.0]
  {
    hide Reachable, WF.ApplyFloor, HealthyFrom;
    var urls, rtts := ["p", "a", "b", "c"], [0.1, 0.1, 10.0];
    endpoints := Company(urls, rtts, 3);
    CompanyOccurs(urls, rtts);
    CompanyWeights(urls, rtts);
    assert RawWeights(endpoints) == [10.0, 10.0, 0.1];
    WF.FloorLifts();
  }

  lemma PairFloor(w: real)
    requires 0.5 <= w < 1.0
    ensures WF.ApplyFloor([2.0 - w, w]) == [2.0 - w, w]
  {
    hide WF.Sort;
    WF.AnySortAgrees([2.0 - w, w], [w, 2.0 - w]);
  }

  lemma PairIsStarved(slow: real, w: real)
    requires slow > 1.0 && w == 1.0 / slow && 0.5 <= w < 1.0
    ensures CanStarve(slow)
  {
    hide WF.ApplyFloor, WP.Total, RawWeights, CanStarve, WeightFor, Company, Measured;
    var urls, rtts := ["p", "a", "b"], [1.0 / (2.0 - w), slow];
    CompanyWeights(urls, rtts);
    MeasuredWeight("a", 2.0 - w);
    SlowWeight("b", slow);
    var weights := [2.0 - w, w];
    assert RawWeights(Company(urls, rtts, 2)) == weights;
    PairFloor(w);
    PairTotal(2.0 - w, w);
    SlowCompanyIsStarved(urls, rtts, weights);
  }

  lemma TrioFloor(v: real, w: real)
    requires 0.0 < w < v
    ensures WF.ApplyFloor([v, w, w]) == [v, w, w]
  {
    hide WF.Sort;
    WF.AnySortAgrees([v, w, w], [w, w, v]);
  }

  lemma TrioIsStarved(slow: real, w: real)
    requires slow > 1.0 && w == 1.0 / slow && 0.0 < w < 0.5
    ensures CanStarve(slow)
  {
    hide WF.ApplyFloor, WP.Total, RawWeights, CanStarve, WeightFor, Company, Measured;
    var v := 2.0 - 2.0 * w;
    var urls, rtts := ["p", "a", "b", "c"], [1.0 / v, slow, slow];
    CompanyWeights(urls, rtts);
    MeasuredWeight("a", v);
    SlowWeight("b", slow);
    SlowWeight("c", slow);
    var weights := [v, w, w];
    assert RawWeights(Company(urls, rtts, 3)) == weights;
    TrioFloor(v, w);
    TrioTotal(v, w, w);
    SlowCompanyIsStarved(urls, rtts, weights);
  }

  lemma PairTotal(a: real, b: real)
    ensures WP.Total([a, b]) == a + b
  {
    assert [a, b][..1] == [a];
    assert WP.Total([a]) == WP.Total([]) + a;
  }

  lemma TrioTotal(a: real, b: real, c: real)
    ensures WP.Total([a, b, c]) == a + b + c
  {
    assert [a, b, c][..2] == [a, b];
    PairTotal(a, b);
  }

  /** Exactly when the floor prevents starvation while nothing new is observed:
      with an average of at most one second a healthy replica is read within every
      turn in every router that can occur; with any longer average some router can
      occur in which no counter picks it.  Module ReadLoop has the statement for
      reads whose outcomes are observed. */
  lemma NeverStarvedExactly(rtt: real)
    ensures AlwaysRead(rtt) <==> rtt <= 1.0
    ensures CanStarve(rtt) <==> rtt > 1.0
  {
    hide NeverPicked, ReadWithinTurn, Reachable;
    if rtt <= 1.0 {
      forall endpoints, i: nat, from: nat | Occurs(endpoints, i, rtt) ensures ReadWithinTurn(endpoints, i, from) {
        FastReplicaIsRead(endpoints, i, from);
      }
    } else {
      SlowWeight("", rtt);
      var w := 1.0 / rtt;
      if w >= 0.5 { PairIsStarved(rtt, w); } else { TrioIsStarved(rtt, w); }
    }
    forall endpoints, i: nat | Occurs(endpoints, i, rtt) && NeverPicked(endpoints, i)
      ensures !ReadWithinTurn(endpoints, i, 0)
    {
      NeverPickedIsNotRead(endpoints, i);
    }
  }

  lemma NeverPickedIsNotRead(endpoints: seq<EndpointHealth>, i: nat)
    requires NeverPicked(endpoints, i)
    ensures !ReadWithinTurn(endpoints, i, 0)
  {
    hide PickAt, WP.Total, WP.Ceil, Weights;
  }
}
