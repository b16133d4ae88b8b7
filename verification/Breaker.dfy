/** One endpoint's health: a smoothed round-trip time, a count of consecutive
    timeouts, and the circuit breaker they drive. */
module Breaker {
  import opened Prelude

  const EWMA_ALPHA: real := 0.2
  const MIN_RTT: real := 0.000001
  const U32_MAX: nat := 0xFFFF_FFFF
  const U64_MAX: nat := 0xFFFF_FFFF_FFFF_FFFF

  datatype Outcome = Rtt(secs: real) | Timeout

  function SaturatingSuccessor(n: nat, limit: nat): nat {
    if n < limit then n + 1 else n
  }

  datatype EndpointHealth = EndpointHealth(
    url: string,
    ewmaRttSecs: Option<real>,
    samples: nat,
    consecutiveTimeouts: nat,
    healthy: bool,
    lastProbe: Option<nat>)
  {
    function RecordRtt(rtt: real): EndpointHealth {
      var secs := Max(rtt, MIN_RTT);
      this.(ewmaRttSecs := match ewmaRttSecs
              case None => Some(secs)
              case Some(prev) => Some(EWMA_ALPHA * secs + (1.0 - EWMA_ALPHA) * prev),
            samples := SaturatingSuccessor(samples, U64_MAX),
            consecutiveTimeouts := 0)
    }

    function RecordTimeout(threshold: nat): EndpointHealth {
      var timeouts := SaturatingSuccessor(consecutiveTimeouts, U32_MAX);
      this.(consecutiveTimeouts := timeouts,
            healthy := healthy && timeouts < threshold)
    }

    function Admit(): EndpointHealth {
      this.(healthy := true, consecutiveTimeouts := 0)
    }

    function RecordOutcome(outcome: Outcome, threshold: nat): EndpointHealth {
      match outcome
      case Rtt(secs) => RecordRtt(secs)
      case Timeout => RecordTimeout(threshold)
    }

    function RecordProbe(success: bool, now: nat): EndpointHealth {
      var probed := this.(lastProbe := Some(now));
      if success then probed.Admit() else probed
    }
  }

  function New(url: string): EndpointHealth {
    EndpointHealth(url, None, 0, 0, true, None)
  }

  // ------------------------------------------------------------ one history

  /** What happens to one endpoint. */
  datatype Event = Outcome(outcome: Outcome) | Probe(success: bool, now: nat)

  function Apply(ep: EndpointHealth, e: Event, threshold: nat): EndpointHealth {
    match e
    case Outcome(outcome) => ep.RecordOutcome(outcome, threshold)
    case Probe(success, now) => ep.RecordProbe(success, now)
  }

  /** An endpoint's state after a history since it appeared. */
  function Replay(url: string, h: seq<Event>, threshold: nat): EndpointHealth {
    if h == [] then New(url)
    else Apply(Replay(url, h[..|h| - 1], threshold), h[|h| - 1], threshold)
  }

  predicate IsTimeout(e: Event) { e.Outcome? && e.outcome.Timeout? }

  predicate IsAdmit(e: Event) { e.Probe? && e.success }

  /** Events that break a row of timeouts: a measured round trip, or a probe
      that succeeded.  A failed probe does not. */
  predicate IsReset(e: Event) { IsAdmit(e) || (e.Outcome? && e.outcome.Rtt?) }

  predicate NoneReset(h: seq<Event>) {
    forall k :: 0 <= k < |h| ==> !IsReset(h[k])
  }

  predicate NoneAdmit(h: seq<Event>) {
    forall k :: 0 <= k < |h| ==> !IsAdmit(h[k])
  }

  function Timeouts(h: seq<Event>): nat {
    if h == [] then 0 else Timeouts(h[..|h| - 1]) + (if IsTimeout(h[|h| - 1]) then 1 else 0)
  }

  /** Timeouts since the last reset. */
  function Trailing(h: seq<Event>): nat {
    if h == [] || IsReset(h[|h| - 1]) then 0
    else Trailing(h[..|h| - 1]) + (if IsTimeout(h[|h| - 1]) then 1 else 0)
  }

  /** Some row of at least k timeouts, unbroken by a reset, that no successful
      probe has followed. */
  ghost predicate Tripped(h: seq<Event>, k: nat) {
    exists i, j :: Row(h, k, i, j)
  }

  ghost predicate Row(h: seq<Event>, k: nat, i: int, j: int) {
    && 0 <= i <= j <= |h|
    && NoneReset(h[i..j])
    && Timeouts(h[i..j]) >= k
    && NoneAdmit(h[j..])
  }

  /** The counter is the trailing timeouts, up to its machine limit. */
  lemma {:induction false} CounterIsTrailing(url: string, h: seq<Event>, threshold: nat)
    ensures Replay(url, h, threshold).consecutiveTimeouts ==
            if Trailing(h) < 0xFFFF_FFFF then Trailing(h) else 0xFFFF_FFFF
    decreases |h|
  {
    if h != [] { CounterIsTrailing(url, h[..|h| - 1], threshold); }
  }

  lemma {:induction false} TrailingIsLongestRow(h: seq<Event>) returns (i: nat)
    ensures i <= |h| && NoneReset(h[i..]) && Timeouts(h[i..]) == Trailing(h)
    decreases |h|
  {
    if h == [] || IsReset(h[|h| - 1]) {
      i := |h|;
    } else {
      i := TrailingIsLongestRow(h[..|h| - 1]);
      assert h[i..][..|h| - i - 1] == h[..|h| - 1][i..];
    }
  }

  lemma {:induction false} RowWithinTrailing(h: seq<Event>, i: nat)
    requires i <= |h| && NoneReset(h[i..])
    ensures Timeouts(h[i..]) <= Trailing(h)
    decreases |h|
  {
    if i < |h| {
      assert h[i..][|h| - i - 1] == h[|h| - 1];
      var p := h[..|h| - 1];
      assert p[i..] == h[i..][..|h| - i - 1];
      RowWithinTrailing(p, i);
    }
  }

  /** A new event either keeps an old row alive or completes a new one. */
  lemma TrippedStep(h: seq<Event>, k: nat)
    requires h != [] && k > 0
    ensures Tripped(h, k) <==>
            !IsAdmit(h[|h| - 1]) && (Tripped(h[..|h| - 1], k) || Trailing(h) >= k)
  {
    hide Timeouts, Trailing, Tripped;
    if Tripped(h, k) { RowCameFrom(h, k); }
    if !IsAdmit(h[|h| - 1]) { RowSurvives(h, k); }
  }

  lemma RowSurvives(h: seq<Event>, k: nat)
    requires h != [] && !IsAdmit(h[|h| - 1])
    ensures Tripped(h[..|h| - 1], k) || Trailing(h) >= k ==> Tripped(h, k)
  {
    hide Timeouts, Trailing;
    var p := h[..|h| - 1];
    if Tripped(p, k) {
      var i, j :| Row(p, k, i, j);
      assert h[i..j] == p[i..j];
      KeepRow(h, j);
      assert Row(h, k, i, j);
    } else if Trailing(h) >= k {
      var i := TrailingIsLongestRow(h);
      assert h[i..|h|] == h[i..];
      assert Row(h, k, i, |h|);
    }
  }

  lemma RowCameFrom(h: seq<Event>, k: nat)
    requires h != [] && k > 0 && Tripped(h, k)
    ensures !IsAdmit(h[|h| - 1]) && (Tripped(h[..|h| - 1], k) || Trailing(h) >= k)
  {
    hide Timeouts, Trailing;
    var n := |h| - 1;
    var p := h[..n];
    var i, j :| Row(h, k, i, j);
    if j == |h| {
      assert h[i..j] == h[i..];
      RowWithinTrailing(h, i);
      NotReset(h, k, i);
    } else {
      assert h[i..j] == p[i..j];
      assert h[j..][n - j] == h[n];
      assert forall m :: 0 <= m < |p[j..]| ==> p[j..][m] == h[j..][m];
      assert Row(p, k, i, j);
    }
  }

  lemma KeepRow(h: seq<Event>, j: nat)
    requires j < |h| && NoneAdmit(h[..|h| - 1][j..]) && !IsAdmit(h[|h| - 1])
    ensures NoneAdmit(h[j..])
  {
    assert forall m :: 0 <= m < |h| - 1 - j ==> h[j..][m] == h[..|h| - 1][j..][m];
  }

  lemma NotReset(h: seq<Event>, k: nat, i: nat)
    requires h != [] && k > 0 && i <= |h| && NoneReset(h[i..]) && Timeouts(h[i..]) >= k
    ensures !IsAdmit(h[|h| - 1])
  {
    assert h[i..] != [] && h[i..][|h[i..]| - 1] == h[|h| - 1];
  }

  /** The breaker is open exactly when K consecutive timeouts (at least one)
      have been seen since the endpoint appeared or was last admitted. */
  lemma {:induction false} UnhealthyExactly(url: string, h: seq<Event>, threshold: nat)
    requires threshold <= U32_MAX
    ensures !Replay(url, h, threshold).healthy <==> Tripped(h, if threshold == 0 then 1 else threshold)
    decreases |h|
  {
    hide Tripped, Timeouts;
    var k := if threshold == 0 then 1 else threshold;
    if h == [] {
      NothingTripped(k);
    } else {
      UnhealthyExactly(url, h[..|h| - 1], threshold);
      CounterIsTrailing(url, h[..|h| - 1], threshold);
      TrippedStep(h, k);
      if !IsTimeout(h[|h| - 1]) { TrippedByOlderRow(h, k); }
    }
  }

  lemma NothingTripped(k: nat)
    requires k > 0
    ensures !Tripped([], k)
  {
  }

  /** Only a timeout can complete a row. */
  lemma TrippedByOlderRow(h: seq<Event>, k: nat)
    requires h != [] && k > 0 && !IsTimeout(h[|h| - 1])
    ensures Trailing(h) >= k ==> Tripped(h[..|h| - 1], k)
  {
    hide Timeouts;
    var p := h[..|h| - 1];
    if Trailing(h) >= k {
      var i := TrailingIsLongestRow(p);
      assert p[i..|p|] == p[i..];
      assert Row(p, k, i, |p|);
    }
  }

  // ------------------------------------------------------------------- ewma

  /** The measured round trips of a history in order, none below a microsecond. */
  function RoundTrips(h: seq<Event>): seq<real> {
    if h == [] then []
    else
      var last := h[|h| - 1];
      RoundTrips(h[..|h| - 1]) +
      (if last.Outcome? && last.outcome.Rtt? then
         [if last.outcome.secs < 0.000001 then 0.000001 else last.outcome.secs]
       else [])
  }

  /** The smoothed value of a list of samples: the first as it is, then a fifth of
      each new one and four fifths of the value so far. */
  function Smoothed(samples: seq<real>): Option<real> {
    if samples == [] then None
    else
      match Smoothed(samples[..|samples| - 1])
      case None => Some(samples[|samples| - 1])
      case Some(sofar) => Some((samples[|samples| - 1] + 4.0 * sofar) / 5.0)
  }

  /** The average and the sample count depend on the round trips alone: timeouts
      and probes leave both as they are. */
  lemma {:induction false} EwmaIsSmoothed(url: string, h: seq<Event>, threshold: nat)
    ensures
      var ep := Replay(url, h, threshold);
      && ep.ewmaRttSecs == Smoothed(RoundTrips(h))
      && (ep.ewmaRttSecs.Some? <==> exists k :: 0 <= k < |h| && h[k].Outcome? && h[k].outcome.Rtt?)
      && ep.samples == (if |RoundTrips(h)| < 0xFFFF_FFFF_FFFF_FFFF then |RoundTrips(h)| else 0xFFFF_FFFF_FFFF_FFFF)
    decreases |h|
  {
    if h != [] {
      var p, last := h[..|h| - 1], h[|h| - 1];
      EwmaIsSmoothed(url, p, threshold);
      assert forall k :: 0 <= k < |p| ==> p[k] == h[k];
      var samples := RoundTrips(h);
      if last.Outcome? && last.outcome.Rtt? {
        assert samples[..|samples| - 1] == RoundTrips(p);
        assert h[|h| - 1].Outcome? && h[|h| - 1].outcome.Rtt?;
      } else {
        assert samples == RoundTrips(p);
      }
    }
  }

  /** No measured round trip exceeded the limit. */
  predicate SamplesAtMost(h: seq<Event>, limit: real) {
    forall k :: 0 <= k < |h| && h[k].Outcome? && h[k].outcome.Rtt? ==> h[k].outcome.secs <= limit
  }

  /** No measured round trip, once clamped, was below the bound. */
  predicate SamplesAtLeast(h: seq<Event>, bound: real) {
    forall k :: 0 <= k < |h| && h[k].Outcome? && h[k].outcome.Rtt? ==> bound <= Max(h[k].outcome.secs, MIN_RTT)
  }

  /** Smoothing never leaves the range of the clamped samples. */
  lemma {:induction false} EwmaWithinSamples(url: string, h: seq<Event>, threshold: nat, bound: real, limit: real)
    requires SamplesAtLeast(h, bound) && SamplesAtMost(h, limit) && limit >= MIN_RTT
    ensures
      var ewma := Replay(url, h, threshold).ewmaRttSecs;
      ewma.Some? ==> bound <= ewma.value <= limit
    decreases |h|
  {
    if h != [] {
      var p := h[..|h| - 1];
      assert forall k :: 0 <= k < |p| ==> p[k] == h[k];
      EwmaWithinSamples(url, p, threshold, bound, limit);
    }
  }

  lemma {:induction false} ReplayKeepsUrl(url: string, h: seq<Event>, threshold: nat)
    ensures Replay(url, h, threshold).url == url
    decreases |h|
  {
    if h != [] { ReplayKeepsUrl(url, h[..|h| - 1], threshold); }
  }

  /** 0.8 to the power n: how much an average keeps of itself over n samples. */
  function Kept(n: nat): real {
    if n == 0 then 1.0 else (1.0 - EWMA_ALPHA) * Kept(n - 1)
  }

  function Repeat(secs: real, n: nat): (h: seq<Event>)
    ensures |h| == n
  {
    if n == 0 then [] else Repeat(secs, n - 1) + [Outcome(Rtt(secs))]
  }

  lemma {:induction false} ReplayAppend(url: string, h: seq<Event>, more: seq<Event>, threshold: nat)
    requires more != []
    ensures Replay(url, h + more, threshold) ==
            Apply(Replay(url, h + more[..|more| - 1], threshold), more[|more| - 1], threshold)
  {
    assert (h + more)[..|h + more| - 1] == h + more[..|more| - 1];
  }

  /** The average closes in on a steady round-trip time geometrically: each new
      sample removes a fifth of the remaining distance. */
  lemma {:induction false} EwmaConverges(url: string, h: seq<Event>, threshold: nat, secs: real, n: nat)
    requires Replay(url, h, threshold).ewmaRttSecs.Some? && secs >= MIN_RTT
    ensures
      var before := Replay(url, h, threshold).ewmaRttSecs.value;
      var after := Replay(url, h + Repeat(secs, n), threshold).ewmaRttSecs;
      after.Some? && after.value - secs == Kept(n) * (before - secs)
    decreases n
  {
    hide Replay;
    if n == 0 {
      assert h + Repeat(secs, 0) == h;
    } else {
      EwmaConverges(url, h, threshold, secs, n - 1);
      var more := Repeat(secs, n);
      assert more[..n - 1] == Repeat(secs, n - 1);
      ReplayAppend(url, h, more, threshold);
      var gap := Replay(url, h, threshold).ewmaRttSecs.value - secs;
      assert Kept(n) * gap == (1.0 - EWMA_ALPHA) * (Kept(n - 1) * gap);
    }
  }

  // ----------------------------------------------------------------- probes

  /** The time of the last probe, whatever its result. */
  function LastProbe(h: seq<Event>): Option<nat> {
    if h == [] then None
    else if h[|h| - 1].Probe? then Some(h[|h| - 1].now)
    else LastProbe(h[..|h| - 1])
  }

  /** Open breaker, and no probe within the interval. */
  predicate DueForProbe(ep: EndpointHealth, now: nat, interval: nat) {
    !ep.healthy && (ep.lastProbe.None? || Since(now, ep.lastProbe.value) >= interval)
  }

  function Since(now: nat, then': nat): nat {
    if now < then' then 0 else now - then'
  }

  /** An endpoint is probed exactly while its breaker is open and its last probe
      is an interval ago; outcomes do not postpone probes. */
  lemma {:induction false} DueExactly(url: string, h: seq<Event>, threshold: nat, now: nat, interval: nat)
    requires threshold <= U32_MAX
    ensures DueForProbe(Replay(url, h, threshold), now, interval) <==>
            Tripped(h, if threshold == 0 then 1 else threshold) &&
            (LastProbe(h).None? || interval == 0 || LastProbe(h).value + interval <= now)
  {
    hide Replay, Tripped;
    UnhealthyExactly(url, h, threshold);
    LastProbeIsStamped(url, h, threshold);
  }

  lemma {:induction false} LastProbeIsStamped(url: string, h: seq<Event>, threshold: nat)
    ensures Replay(url, h, threshold).lastProbe == LastProbe(h)
    decreases |h|
  {
    if h != [] { LastProbeIsStamped(url, h[..|h| - 1], threshold); }
  }
}
