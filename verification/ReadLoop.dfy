/** Reads in a closed loop: each read moves the counter, and its own outcome is
    observed before the next one is routed. */
module ReadLoop {
  import opened Prelude
  import opened Breaker
  import R = Router
  import RR = ReadRouting
  import WF = WeightFloor
  import WP = WeightedPick
  import PS = PickShare

  datatype Client = Client(endpoints: seq<EndpointHealth>, counter: nat)

  /** A read with the outcome it will have, or anything else that reaches the
      router: outcomes of other traffic, probes, refreshes. */
  datatype Event = Read(outcome: Outcome) | Other(event: R.Event)

  function Target(c: Client): nat {
    RR.PickAt(c.endpoints, false, c.counter)
  }

  function Step(c: Client, e: Event, threshold: nat): Client {
    match e
    case Read(outcome) =>
      var i := Target(c);
      Client(R.Step(c.endpoints, R.Observe(i, outcome), threshold), c.counter + (if i == 0 then 0 else 1))
    case Other(event) => c.(endpoints := R.Step(c.endpoints, event, threshold))
  }

  /** The router object, read and told, takes the read step. */
  method ReadOnce(router: RR.HealthAwareRouter, outcome: Outcome) returns (index: nat)
    requires !router.forcePrimary
    modifies router`endpoints, router`rrCounter
    ensures index == Target(old(Client(router.endpoints, router.rrCounter)))
    ensures Client(router.endpoints, router.rrCounter) ==
            Step(old(Client(router.endpoints, router.rrCounter)), Read(outcome), router.threshold)
  {
    index := router.PickReadIndex();
    router.ObserveIndex(index, outcome);
  }

  // ----------------------------------------------------------- reachability

  function Run(c: Client, events: seq<Event>, threshold: nat): Client {
    if events == [] then c
    else Step(Run(c, events[..|events| - 1], threshold), events[|events| - 1], threshold)
  }

  predicate Proper(e: Event) {
    e.Other? && e.event.Refresh? ==> R.Distinct(e.event.urls)
  }

  predicate AllProper(events: seq<Event>) {
    forall k :: 0 <= k < |events| ==> Proper(events[k])
  }

  /** A client can get here from its first moment on. */
  ghost predicate Reachable(c: Client, threshold: nat) {
    exists urls, events :: R.Distinct(urls) && AllProper(events) && Run(Begin(urls), events, threshold) == c
  }

  function Begin(urls: seq<string>): Client {
    Client(R.Start(urls), 0)
  }

  lemma ReachStart(urls: seq<string>, threshold: nat)
    requires R.Distinct(urls)
    ensures Reachable(Begin(urls), threshold)
  {
    assert Run(Begin(urls), [], threshold) == Begin(urls) && AllProper([]);
  }

  lemma RunLast(c: Client, events: seq<Event>, e: Event, threshold: nat)
    ensures Run(c, events + [e], threshold) == Step(Run(c, events, threshold), e, threshold)
  {
    hide Step;
    assert (events + [e])[..|events|] == events;
  }

  lemma ReachNext(c: Client, e: Event, threshold: nat)
    requires Reachable(c, threshold) && Proper(e)
    ensures Reachable(Step(c, e, threshold), threshold)
  {
    hide Step, Run, R.Distinct, Begin;
    var urls, events :| R.Distinct(urls) && AllProper(events) && Run(Begin(urls), events, threshold) == c;
    RunLast(Begin(urls), events, e, threshold);
    assert AllProper(events + [e]);
  }

  // ------------------------------------------------------------- protection

  /** The client after n reads whose outcomes are given. */
  function After(c: Client, outcomes: nat -> Outcome, n: nat, threshold: nat): Client {
    if n == 0 then c else Step(After(c, outcomes, n - 1, threshold), Read(outcomes(n - 1)), threshold)
  }

  /** Endpoint i is a healthy replica with this average, among some others. */
  predicate Stands(c: Client, i: nat, rtt: real, others: nat) {
    && 1 <= i < |c.endpoints| && c.endpoints[i].healthy && c.endpoints[i].ewmaRttSecs == Some(rtt)
    && |RR.HealthyFrom(c.endpoints, 1)| == others + 1
  }

  /** Some read goes to endpoint i, now or later. */
  ghost predicate EverRead(c: Client, i: nat, outcomes: nat -> Outcome, threshold: nat) {
    exists n: nat :: Target(After(c, outcomes, n, threshold)) == i
  }

  /** A healthy replica with this average among so many other healthy ones is
      read again, whatever outcomes the reads have. */
  ghost predicate Protected(threshold: nat, rtt: real, others: nat) {
    forall c, i: nat, outcomes: nat -> Outcome ::
      Reachable(c, threshold) && Stands(c, i, rtt, others) ==> EverRead(c, i, outcomes, threshold)
  }

  /** Every read goes to replica 1, whose average stays at least twice rtt. */
  ghost predicate AlwaysSlower(c: Client, outcomes: nat -> Outcome, threshold: nat, rtt: real) {
    forall n: nat :: SlowerAt(After(c, outcomes, n, threshold), rtt)
  }

  predicate SlowerAt(c: Client, rtt: real) {
    && Target(c) == 1
    && |c.endpoints| > 1 && c.endpoints[1].ewmaRttSecs.Some? && c.endpoints[1].ewmaRttSecs.value >= 2.0 * rtt
  }

  lemma OnlyHealthyIsRead(c: Client, i: nat)
    requires 1 <= i < |c.endpoints| && c.endpoints[i].healthy && |RR.HealthyFrom(c.endpoints, 1)| == 1
    ensures Target(c) == i
  {
    hide WP.Pick;
    RR.HealthyIsComplete(c.endpoints, 1, i);
    RR.PickInRange(RR.Weights(c.endpoints), c.counter);
  }

  // ------------------------------------------------------- averages are real

  predicate Clamped(endpoints: seq<EndpointHealth>) {
    forall k :: 0 <= k < |endpoints| && endpoints[k].ewmaRttSecs.Some? ==> endpoints[k].ewmaRttSecs.value >= MIN_RTT
  }

  lemma RouterKeepsClamped(endpoints: seq<EndpointHealth>, e: R.Event, threshold: nat)
    requires Clamped(endpoints)
    ensures Clamped(R.Step(endpoints, e, threshold))
  {
  }

  lemma {:induction false} RunIsClamped(urls: seq<string>, events: seq<Event>, threshold: nat)
    ensures Clamped(Run(Begin(urls), events, threshold).endpoints)
    decreases |events|
  {
    hide Target, R.Step, Clamped;
    if events == [] {
      NewIsClamped(urls);
    } else {
      var c := Run(Begin(urls), events[..|events| - 1], threshold);
      RunIsClamped(urls, events[..|events| - 1], threshold);
      match events[|events| - 1] {
        case Read(outcome) => RouterKeepsClamped(c.endpoints, R.Observe(Target(c), outcome), threshold);
        case Other(event) => RouterKeepsClamped(c.endpoints, event, threshold);
      }
    }
  }

  lemma NewIsClamped(urls: seq<string>)
    ensures Clamped(R.Start(urls))
  {
  }

  // ------------------------------------------------- steering away from others

  /** m equal weights and half of another one. */
  function High(m: nat, w: real): real {
    WP.At(w, m) + 0.5 * w
  }

  lemma HighIsPositive(m: nat, w: real)
    requires w > 0.0
    ensures High(m, w) > 0.0
  {
    WP.AtNonNegative(w, m);
  }

  lemma LapIsFloor(x: real, t: real)
    requires t > 0.0 && x >= 0.0
    ensures (x / t).Floor >= 0
    ensures WP.At(t, (x / t).Floor) <= x < WP.At(t, (x / t).Floor + 1)
  {
    hide WP.At;
    var lap := WP.SomeLap(x, t);
    WP.AtIsProduct(t, lap);
    WP.AtIsProduct(t, lap + 1);
    WP.QuotientAtLeast(lap as real, x, t);
    WP.QuotientBelow(x, (lap + 1) as real, t);
    assert (x / t).Floor == lap;
  }

  /** The number of laps the counter is made to have done. */
  function Laps(k: nat, high: real): (laps: nat)
    requires high > 0.0
    ensures laps > 0 && WP.At(high, laps - 1) <= k as real < WP.At(high, laps)
  {
    LapIsFloor(k as real, high);
    (k as real / high).Floor + 1
  }

  /** The weight that makes counter k the start of a lap, next to m weights w. */
  function Steer(m: nat, w: real, k: nat): real
    requires w > 0.0
  {
    HighIsPositive(m, w);
    k as real / Laps(k, High(m, w)) as real - WP.At(w, m)
  }

  lemma {:induction false} AtGrowsWith(t: real, a: nat, b: nat)
    requires t >= 0.0 && a <= b
    ensures WP.At(t, a) <= WP.At(t, b)
    decreases b
  {
    if a < b { AtGrowsWith(t, a, b - 1); }
  }

  /** A counter from which on there are laps enough. */
  predicate Far(m: nat, w: real, k: nat) {
    k as real >= WP.At(High(m, w), 20 * m + 9)
  }

  lemma EnoughLaps(m: nat, w: real, lap: nat)
    requires w > 0.0 && lap >= 20 * m + 9
    ensures WP.At(0.05 * w, lap) >= WP.At(w, m) + 0.45 * w
  {
    hide WP.At;
    WP.AtIsProduct(w, m);
    WP.AtIsProduct(0.05 * w, 20 * m + 9);
    var x := m as real;
    assert (20 * m + 9) as real == 20.0 * x + 9.0;
    assert (20.0 * x + 9.0) * (0.05 * w) == x * w + 0.45 * w;
    AtGrowsWith(0.05 * w, 20 * m + 9, lap);
  }

  lemma LapsAreMany(m: nat, w: real, k: nat)
    requires w > 0.0 && Far(m, w, k) && High(m, w) > 0.0
    ensures Laps(k, High(m, w)) - 1 >= 20 * m + 9
  {
    hide WP.At, High;
    var laps := Laps(k, High(m, w));
    if laps <= 20 * m + 9 { AtGrowsWith(High(m, w), laps, 20 * m + 9); }
  }

  /** The steering weight is just below half of w, and the counter starts a lap. */
  lemma SteerBounds(m: nat, w: real, k: nat)
    requires w > 0.0 && Far(m, w, k) && High(m, w) > 0.0
    ensures 0.45 * w <= Steer(m, w, k) < 0.5 * w
    ensures WP.At(Steer(m, w, k) + WP.At(w, m), Laps(k, High(m, w))) == k as real
  {
    hide WP.At, Laps;
    var high := High(m, w);
    var low := WP.At(w, m) + 0.45 * w;
    var laps := Laps(k, high);
    var t := k as real / laps as real;
    WP.AtIsProduct(t, laps);
    WP.DivideTimes(k as real, laps as real);
    assert WP.At(t, laps) == k as real;
    PS.AtOrder(t, high, laps);
    LapsAreMany(m, w, k);
    EnoughLaps(m, w, laps - 1);
    PS.AtSum(low, 0.05 * w, laps - 1);
    assert high == low + 0.05 * w;
    LastLap(low, laps);
    PS.AtOrder(t, low, laps);
  }

  lemma LastLap(t: real, laps: nat)
    requires laps > 0
    ensures WP.At(t, laps) == WP.At(t, laps - 1) + t
  {
  }

  // ------------------------------------------------------- weights of a stage

  function Crowd(v: real, w: real, m: nat): seq<real> {
    [v] + seq(m, i => w)
  }

  lemma {:induction false} CrowdTotal(v: real, w: real, m: nat)
    ensures WP.Total(Crowd(v, w, m)) == v + WP.At(w, m)
    decreases m
  {
    var all := Crowd(v, w, m);
    if m == 0 {
      assert all[..0] == [];
    } else {
      CrowdTotal(v, w, m - 1);
      assert all[..m] == Crowd(v, w, m - 1);
    }
  }

  lemma CrowdFloor(v: real, w: real, m: nat)
    requires m > 0 && 0.0 < v < w && 0.1 * w <= v
    ensures WF.ApplyFloor(Crowd(v, w, m)) == Crowd(v, w, m)
  {
    hide WF.Sort;
    var all := Crowd(v, w, m);
    WF.AnySortAgrees(all, all);
    assert WF.Median(all) == w;
  }

  /** At the start of a lap the first bucket is picked. */
  lemma CrowdPick(v: real, w: real, m: nat, laps: nat, k: nat)
    requires v > 0.0 && w > 0.0 && WP.At(v + WP.At(w, m), laps) == k as real
    ensures WP.Pick(Crowd(v, w, m), k) == 0
  {
    hide WP.Pick, WP.Total, WP.At;
    var all := Crowd(v, w, m);
    CrowdTotal(v, w, m);
    WP.AtNonNegative(w, m);
    LastLap(v + WP.At(w, m), laps + 1);
    WP.PrefixStep(all, 0);
    WP.PickExactly(all, k, laps, 0);
  }

  /** All healthy; replica 1 has average a, the m others have average rtt. */
  predicate Stage(endpoints: seq<EndpointHealth>, m: nat, a: real, rtt: real) {
    && |endpoints| == m + 2
    && (forall k :: 0 <= k < |endpoints| ==> endpoints[k].healthy)
    && endpoints[1].ewmaRttSecs == Some(a)
    && (forall k :: 2 <= k < |endpoints| ==> endpoints[k].ewmaRttSecs == Some(rtt))
  }

  lemma WeightOf(ep: EndpointHealth, a: real, v: real)
    requires ep.ewmaRttSecs == Some(a) && a >= MIN_RTT && a * v == 1.0
    ensures RR.WeightFor(ep) == v
  {
    RR.InverseOf(a, v);
  }

  lemma StageWeights(endpoints: seq<EndpointHealth>, m: nat, a: real, rtt: real, v: real, w: real)
    requires Stage(endpoints, m, a, rtt) && a >= MIN_RTT && rtt >= MIN_RTT && a * v == 1.0 && rtt * w == 1.0
    ensures |RR.HealthyFrom(endpoints, 1)| == m + 1 && RR.HealthyFrom(endpoints, 1)[0] == 1
    ensures RR.RawWeights(endpoints) == Crowd(v, w, m)
  {
    hide RR.WeightFor;
    RR.AllHealthy(endpoints, 1);
    WeightOf(endpoints[1], a, v);
    forall k | 2 <= k < |endpoints| ensures RR.WeightFor(endpoints[k]) == w { WeightOf(endpoints[k], rtt, w); }
  }

  // ------------------------------------------------------------- the outcomes

  lemma DropFactor(x: real, y: real, t: real)
    requires t > 0.0 && x * t <= y * t
    ensures x <= y
  {
    if y < x { WP.TimesLess(y, x, t); }
  }

  lemma InverseBounds(a: real, v: real, rtt: real, w: real)
    requires a * v == 1.0 && rtt * w == 1.0 && w > 0.0 && v > 0.0 && a > 0.0 && rtt > 0.0
    requires 0.45 * w <= v < 0.5 * w
    ensures 2.0 * rtt <= a && 0.45 * a <= rtt
  {
    calc {
      2.0 * rtt * v;
    == { assert 2.0 * rtt * v == v * (2.0 * rtt); }
      v * (2.0 * rtt);
    <= { WP.TimesAtMost(v, 0.5 * w, 2.0 * rtt); }
      0.5 * w * (2.0 * rtt);
    ==
      rtt * w;
    ==
      a * v;
    }
    DropFactor(2.0 * rtt, a, v);
    calc {
      0.45 * a * w;
    ==
      0.45 * w * a;
    <= { WP.TimesAtMost(0.45 * w, v, a); }
      v * a;
    ==
      rtt * w;
    }
    DropFactor(0.45 * a, rtt, w);
  }

  /** The average replica 1 is given when the counter is k. */
  function Average(m: nat, rtt: real, k: nat): real {
    if rtt <= 0.0 then 1.0
    else
      RR.InversePositive(rtt);
      var v := Steer(m, 1.0 / rtt, k);
      if v == 0.0 then 1.0 else 1.0 / v
  }

  lemma AverageBounds(m: nat, rtt: real, k: nat)
    requires rtt > 0.0 && 1.0 / rtt > 0.0 && Far(m, 1.0 / rtt, k)
    ensures
      var w := 1.0 / rtt;
      var v, a := Steer(m, w, k), Average(m, rtt, k);
      && 0.45 * w <= v < 0.5 * w && v > 0.0 && a * v == 1.0 && rtt * w == 1.0
      && 2.0 * rtt <= a && 0.45 * a <= rtt
  {
    hide Steer, Far, High;
    var w := 1.0 / rtt;
    HighIsPositive(m, w);
    SteerBounds(m, w, k);
    var v := Steer(m, w, k);
    WP.DivideTimes(1.0, rtt);
    WP.DivideTimes(1.0, v);
    RR.InversePositive(v);
    InverseBounds(1.0 / v, v, rtt, w);
  }

  /** The sample that moves the average from counter k's to the next one's. */
  function Nudge(m: nat, rtt: real, k: nat): Outcome {
    Rtt(5.0 * Average(m, rtt, k + 1) - 4.0 * Average(m, rtt, k))
  }

  lemma FarStays(m: nat, w: real, k: nat)
    requires Far(m, w, k)
    ensures Far(m, w, k + 1)
  {
    hide WP.At, High;
  }

  /** On such a stage the read goes to replica 1... */
  lemma StageTarget(c: Client, m: nat, rtt: real)
    requires m > 0 && rtt >= MIN_RTT && 1.0 / rtt > 0.0 && Far(m, 1.0 / rtt, c.counter)
    requires Stage(c.endpoints, m, Average(m, rtt, c.counter), rtt)
    ensures Target(c) == 1
  {
    hide WP.Pick, WP.At, Far, High, Steer, Average, Stage, RR.RawWeights, WF.ApplyFloor, RR.HealthyFrom, Crowd;
    var w, k := 1.0 / rtt, c.counter;
    AverageBounds(m, rtt, k);
    var v := Steer(m, w, k);
    HighIsPositive(m, w);
    SteerBounds(m, w, k);
    StageWeights(c.endpoints, m, Average(m, rtt, k), rtt, v, w);
    CrowdFloor(v, w, m);
    CrowdPick(v, w, m, Laps(k, High(m, w)), k);
  }

  /** ...and its outcome sets the stage for the next. */
  lemma StageNext(c: Client, m: nat, rtt: real, threshold: nat)
    requires m > 0 && rtt >= MIN_RTT && 1.0 / rtt > 0.0 && Far(m, 1.0 / rtt, c.counter)
    requires Stage(c.endpoints, m, Average(m, rtt, c.counter), rtt)
    ensures
      var next := Step(c, Read(Nudge(m, rtt, c.counter)), threshold);
      next.counter == c.counter + 1 && Stage(next.endpoints, m, Average(m, rtt, c.counter + 1), rtt)
  {
    hide Target, Far, Average, Steer;
    StageTarget(c, m, rtt);
    FarStays(m, 1.0 / rtt, c.counter);
    AverageBounds(m, rtt, c.counter);
    AverageBounds(m, rtt, c.counter + 1);
  }

  lemma {:induction false} StageForever(c: Client, m: nat, rtt: real, threshold: nat, outcomes: nat -> Outcome, n: nat)
    requires m > 0 && rtt >= MIN_RTT && 1.0 / rtt > 0.0 && Far(m, 1.0 / rtt, c.counter)
    requires Stage(c.endpoints, m, Average(m, rtt, c.counter), rtt)
    requires forall j: nat :: outcomes(j) == Nudge(m, rtt, c.counter + j)
    ensures
      var later := After(c, outcomes, n, threshold);
      && later.counter == c.counter + n && Far(m, 1.0 / rtt, later.counter)
      && Stage(later.endpoints, m, Average(m, rtt, later.counter), rtt)
    decreases n
  {
    hide Step, Far, Average, Stage, Nudge;
    if n > 0 {
      StageForever(c, m, rtt, threshold, outcomes, n - 1);
      var before := After(c, outcomes, n - 1, threshold);
      StageNext(before, m, rtt, threshold);
      FarStays(m, 1.0 / rtt, before.counter);
    }
  }

  // ------------------------------------------------------- reaching the stage

  function Url(i: nat): string {
    seq(i, k => 'r')
  }

  function Urls(n: nat): (urls: seq<string>)
    ensures |urls| == n && R.Distinct(urls)
  {
    assert forall i: nat :: |Url(i)| == i;
    seq(n, i requires 0 <= i < n => Url(i))
  }

  /** Replica 1 after n reads with the same round trip. */
  function Warm(a: real, n: nat): EndpointHealth {
    if n == 0 then New(Url(1)) else Warm(a, n - 1).RecordRtt(a)
  }

  lemma {:induction false} WarmIsSteady(a: real, n: nat)
    requires a >= MIN_RTT
    ensures Warm(a, n).healthy && Warm(a, n).url == Url(1)
    ensures n > 0 ==> Warm(a, n).ewmaRttSecs == Some(a)
    decreases n
  {
    if n > 0 { WarmIsSteady(a, n - 1); assert n == 1 ==> Warm(a, 0) == New(Url(1)); }
  }

  /** Alone, replica 1 gets every read. */
  lemma {:induction false} Alone(a: real, n: nat, threshold: nat)
    requires a >= MIN_RTT
    ensures Reachable(Client([New(Url(0)), Warm(a, n)], n), threshold)
    decreases n
  {
    hide Reachable, Url;
    if n == 0 {
      ReachStart(Urls(2), threshold);
      assert Begin(Urls(2)) == Client([New(Url(0)), Warm(a, 0)], 0);
    } else {
      Alone(a, n - 1, threshold);
      var c := Client([New(Url(0)), Warm(a, n - 1)], n - 1);
      WarmIsSteady(a, n - 1);
      RR.AllHealthy(c.endpoints, 1);
      OnlyHealthyIsRead(c, 1);
      ReachNext(c, Read(Rtt(a)), threshold);
      assert c.endpoints[1 := Warm(a, n)] == [New(Url(0)), Warm(a, n)];
    }
  }

  /** Then m others join, and the first n of them have been measured. */
  function Joined(m: nat, a: real, k: nat, rtt: real, n: nat): (endpoints: seq<EndpointHealth>)
    ensures |endpoints| == m + 2
  {
    seq(m + 2, i requires 0 <= i < m + 2 =>
      if i == 0 then New(Url(0))
      else if i == 1 then Warm(a, k)
      else if i < n + 2 then New(Url(i)).RecordRtt(rtt)
      else New(Url(i)))
  }

  lemma Join(m: nat, a: real, k: nat, rtt: real, threshold: nat)
    requires a >= MIN_RTT
    ensures Reachable(Client(Joined(m, a, k, rtt, 0), k), threshold)
  {
    hide Reachable, Warm;
    Alone(a, k, threshold);
    WarmIsSteady(a, k);
    var c := Client([New(Url(0)), Warm(a, k)], k);
    var refresh := R.Refresh(Urls(m + 2));
    ReachNext(c, Other(refresh), threshold);
    forall i | 0 <= i < m + 2 ensures R.Carry(c.endpoints, Url(i)) == Joined(m, a, k, rtt, 0)[i] {
      Carried(c.endpoints, i);
    }
    assert R.Step(c.endpoints, refresh, threshold) == Joined(m, a, k, rtt, 0);
  }

  lemma Carried(endpoints: seq<EndpointHealth>, i: nat)
    requires |endpoints| == 2 && endpoints[0].url == Url(0) && endpoints[1].url == Url(1)
    ensures R.Carry(endpoints, Url(i)) == if i < 2 then endpoints[i] else New(Url(i))
  {
    assert |Url(i)| == i && |Url(0)| == 0 && |Url(1)| == 1;
  }

  lemma {:induction false} Measure(m: nat, a: real, k: nat, rtt: real, n: nat, threshold: nat)
    requires a >= MIN_RTT && n <= m
    ensures Reachable(Client(Joined(m, a, k, rtt, n), k), threshold)
    decreases n
  {
    hide Reachable, Warm, Url;
    if n == 0 {
      Join(m, a, k, rtt, threshold);
    } else {
      Measure(m, a, k, rtt, n - 1, threshold);
      var c := Client(Joined(m, a, k, rtt, n - 1), k);
      var observe := R.Observe(n + 1, Rtt(rtt));
      ReachNext(c, Other(observe), threshold);
      assert R.Step(c.endpoints, observe, threshold) == Joined(m, a, k, rtt, n);
    }
  }

  lemma JoinedIsStage(m: nat, a: real, k: nat, rtt: real)
    requires a >= MIN_RTT && rtt >= MIN_RTT && k > 0
    ensures Stage(Joined(m, a, k, rtt, m), m, a, rtt)
    ensures |RR.HealthyFrom(Joined(m, a, k, rtt, m), 1)| == m + 1
  {
    hide Warm, Url;
    WarmIsSteady(a, k);
    RR.AllHealthy(Joined(m, a, k, rtt, m), 1);
  }

  // ------------------------------------------------------ the exact condition

  lemma AverageIsReal(m: nat, rtt: real, k: nat)
    requires rtt >= MIN_RTT && 1.0 / rtt > 0.0 && Far(m, 1.0 / rtt, k)
    ensures Average(m, rtt, k) >= MIN_RTT
  {
    hide Far, Average, Steer;
    AverageBounds(m, rtt, k);
  }

  /** A client with a stage set, at a counter far enough. */
  lemma StageOccurs(threshold: nat, rtt: real, m: nat) returns (c: Client)
    requires rtt >= MIN_RTT && 1.0 / rtt > 0.0 && m > 0
    ensures Reachable(c, threshold) && Stands(c, 2, rtt, m)
    ensures Far(m, 1.0 / rtt, c.counter) && Stage(c.endpoints, m, Average(m, rtt, c.counter), rtt)
  {
    hide Reachable, Far, Average, Joined, Stage, Stands;
    var k := FarCounter(m, 1.0 / rtt);
    AverageIsReal(m, rtt, k);
    var a := Average(m, rtt, k);
    Measure(m, a, k, rtt, m, threshold);
    JoinedIsStage(m, a, k, rtt);
    c := Client(Joined(m, a, k, rtt, m), k);
    StageStands(c, m, a, rtt);
  }

  /** With any average and any company there is a client that can occur, and one
      endless row of outcomes, under which replica 2 is never read: all reads go to
      a replica at least twice as slow. */
  lemma StarvedForever(threshold: nat, rtt: real, others: nat) returns (c: Client, outcomes: nat -> Outcome)
    requires rtt >= MIN_RTT && others > 0
    ensures Reachable(c, threshold) && Stands(c, 2, rtt, others) && !EverRead(c, 2, outcomes, threshold)
    ensures AlwaysSlower(c, outcomes, threshold, rtt)
  {
    hide Reachable, EverRead, Far, Average, Stage, Stands, Nudge, AlwaysSlower;
    RR.InversePositive(rtt);
    c := StageOccurs(threshold, rtt, others);
    var k := c.counter;
    outcomes := (j: nat) => Nudge(others, rtt, k + j);
    NeverSecond(c, others, rtt, threshold, outcomes);
  }

  lemma NotProtected(threshold: nat, rtt: real, others: nat)
    requires rtt >= MIN_RTT && others > 0
    ensures !Protected(threshold, rtt, others)
  {
    hide Reachable, EverRead, Stands;
    var c, outcomes := StarvedForever(threshold, rtt, others);
  }

  lemma StageStands(c: Client, m: nat, a: real, rtt: real)
    requires Stage(c.endpoints, m, a, rtt) && m > 0 && |RR.HealthyFrom(c.endpoints, 1)| == m + 1
    ensures Stands(c, 2, rtt, m)
  {
  }

  lemma FarCounter(m: nat, w: real) returns (k: nat)
    requires w > 0.0
    ensures k > 0 && Far(m, w, k)
  {
    hide WP.At, High;
    HighIsPositive(m, w);
    WP.AtNonNegative(High(m, w), 20 * m + 9);
    k := WP.At(High(m, w), 20 * m + 9).Floor + 1;
  }

  lemma StageIsSlower(c: Client, m: nat, rtt: real)
    requires m > 0 && rtt >= MIN_RTT && 1.0 / rtt > 0.0 && Far(m, 1.0 / rtt, c.counter)
    requires Stage(c.endpoints, m, Average(m, rtt, c.counter), rtt)
    ensures SlowerAt(c, rtt)
  {
    hide Target, Far, Average, Steer;
    StageTarget(c, m, rtt);
    AverageBounds(m, rtt, c.counter);
  }

  lemma NeverSecond(c: Client, m: nat, rtt: real, threshold: nat, outcomes: nat -> Outcome)
    requires m > 0 && rtt >= MIN_RTT && 1.0 / rtt > 0.0 && Far(m, 1.0 / rtt, c.counter)
    requires Stage(c.endpoints, m, Average(m, rtt, c.counter), rtt)
    requires forall j: nat :: outcomes(j) == Nudge(m, rtt, c.counter + j)
    ensures !EverRead(c, 2, outcomes, threshold) && AlwaysSlower(c, outcomes, threshold, rtt)
  {
    hide Far, Average, Stage, Nudge, Target, After;
    forall n: nat ensures SlowerAt(After(c, outcomes, n, threshold), rtt) {
      StageForever(c, m, rtt, threshold, outcomes, n);
      StageIsSlower(After(c, outcomes, n, threshold), m, rtt);
    }
    forall n: nat ensures Target(After(c, outcomes, n, threshold)) != 2 {
      assert SlowerAt(After(c, outcomes, n, threshold), rtt);
    }
  }

  lemma ReachableIsClamped(c: Client, threshold: nat)
    requires Reachable(c, threshold)
    ensures Clamped(c.endpoints)
  {
    hide Run, Clamped, Begin;
    var urls, events :| R.Distinct(urls) && AllProper(events) && Run(Begin(urls), events, threshold) == c;
    RunIsClamped(urls, events, threshold);
  }

  /** Exactly when a healthy replica is read again whatever outcomes the reads
      have: if and only if it is the only healthy one.  No average protects it
      among others.  (Averages below the clamp do not occur.) */
  lemma ProtectedExactly(threshold: nat, rtt: real, others: nat)
    ensures Protected(threshold, rtt, others) <==> others == 0 || rtt < MIN_RTT
  {
    hide Reachable;
    if others == 0 {
      forall c, i: nat, outcomes: nat -> Outcome | Reachable(c, threshold) && Stands(c, i, rtt, others)
        ensures EverRead(c, i, outcomes, threshold)
      {
        OnlyHealthyIsRead(c, i);
        assert Target(After(c, outcomes, 0, threshold)) == i;
      }
    } else if rtt < MIN_RTT {
      forall c, i: nat | Reachable(c, threshold) ensures !Stands(c, i, rtt, others) {
        ReachableIsClamped(c, threshold);
      }
    } else {
      NotProtected(threshold, rtt, others);
    }
  }
}
