/** The router's endpoints: breakers addressed by index and by url, refreshed from
    advertisements, as independent machines one per url. */
module Router {
  import opened Prelude
  import opened Breaker

  // ----------------------------------------------------------- the endpoints

  predicate Distinct(urls: seq<string>) {
    forall i, j :: 0 <= i < j < |urls| ==> urls[i] != urls[j]
  }

  /** The first endpoint with a url. */
  function Find(endpoints: seq<EndpointHealth>, url: string): (i: Option<nat>)
    ensures i.Some? ==> i.value < |endpoints| && endpoints[i.value].url == url
    ensures i.None? ==> forall j :: 0 <= j < |endpoints| ==> endpoints[j].url != url
  {
    if endpoints == [] then None
    else if endpoints[0].url == url then Some(0)
    else
      match Find(endpoints[1..], url)
      case None =>
        assert forall j :: 1 <= j < |endpoints| ==> endpoints[j] == endpoints[1..][j - 1];
        None
      case Some(i) => Some(i + 1)
  }

  /** A known url keeps its state, a new one starts fresh. */
  function Carry(endpoints: seq<EndpointHealth>, url: string): EndpointHealth {
    match Find(endpoints, url)
    case None => New(url)
    case Some(i) => endpoints[i]
  }

  function Refreshed(endpoints: seq<EndpointHealth>, urls: seq<string>): (next: seq<EndpointHealth>)
    ensures |next| == |urls|
  {
    seq(|urls|, i requires 0 <= i < |urls| => Carry(endpoints, urls[i]))
  }

  datatype Event =
    | Observe(index: nat, outcome: Outcome)
    | ObserveUrl(url: string, outcome: Outcome)
    | ProbeResult(index: nat, success: bool, now: nat)
    | Refresh(urls: seq<string>)

  function Step(endpoints: seq<EndpointHealth>, e: Event, threshold: nat): seq<EndpointHealth> {
    match e
    case Observe(i, outcome) =>
      if i < |endpoints| then endpoints[i := endpoints[i].RecordOutcome(outcome, threshold)] else endpoints
    case ObserveUrl(url, outcome) =>
      (match Find(endpoints, url)
       case None => endpoints
       case Some(i) => endpoints[i := endpoints[i].RecordOutcome(outcome, threshold)])
    case ProbeResult(i, success, now) =>
      if i < |endpoints| then endpoints[i := endpoints[i].RecordProbe(success, now)] else endpoints
    case Refresh(urls) => Refreshed(endpoints, urls)
  }

  function Run(endpoints: seq<EndpointHealth>, events: seq<Event>, threshold: nat): seq<EndpointHealth>
    decreases |events|
  {
    if events == [] then endpoints else Run(Step(endpoints, events[0], threshold), events[1..], threshold)
  }

  function Start(urls: seq<string>): (endpoints: seq<EndpointHealth>)
    ensures |endpoints| == |urls|
  {
    seq(|urls|, i requires 0 <= i < |urls| => New(urls[i]))
  }

  // ------------------------------------------------- independent url machines

  /** The url order, and each present url's own history since it appeared. */
  datatype Histories = Histories(urls: seq<string>, of: map<string, seq<Breaker.Event>>)

  function Log(h: Histories, url: string, e: Breaker.Event): Histories {
    if url in h.of then h.(of := h.of[url := h.of[url] + [e]]) else h
  }

  function HistoryOf(h: Histories, url: string): seq<Breaker.Event> {
    if url in h.of then h.of[url] else []
  }

  function HistoryStep(h: Histories, e: Event): Histories {
    match e
    case Observe(i, outcome) => if i < |h.urls| then Log(h, h.urls[i], Breaker.Outcome(outcome)) else h
    case ObserveUrl(url, outcome) => Log(h, url, Breaker.Outcome(outcome))
    case ProbeResult(i, success, now) => if i < |h.urls| then Log(h, h.urls[i], Breaker.Probe(success, now)) else h
    case Refresh(urls) => Histories(urls, map u | u in urls :: HistoryOf(h, u))
  }

  function HistoryRun(h: Histories, events: seq<Event>): Histories
    decreases |events|
  {
    if events == [] then h else HistoryRun(HistoryStep(h, events[0]), events[1..])
  }

  function HistoryStart(urls: seq<string>): Histories {
    Histories(urls, map u | u in urls :: [])
  }

  /** Every indexed endpoint is its own url's machine. */
  ghost predicate Refines(endpoints: seq<EndpointHealth>, h: Histories, threshold: nat) {
    && |endpoints| == |h.urls|
    && Distinct(h.urls)
    && (forall u :: u in h.of <==> u in h.urls)
    && (forall i :: 0 <= i < |endpoints| ==> endpoints[i] == Replay(h.urls[i], HistoryOf(h, h.urls[i]), threshold))
  }

  predicate RefreshesDistinct(events: seq<Event>) {
    forall i :: 0 <= i < |events| && events[i].Refresh? ==> Distinct(events[i].urls)
  }

  lemma ReplayMore(url: string, h: seq<Breaker.Event>, e: Breaker.Event, threshold: nat)
    ensures Replay(url, h + [e], threshold) == Apply(Replay(url, h, threshold), e, threshold)
  {
    assert (h + [e])[..|h|] == h;
  }

  lemma LogRefines(endpoints: seq<EndpointHealth>, h: Histories, threshold: nat, i: nat, e: Breaker.Event)
    requires Refines(endpoints, h, threshold) && i < |endpoints|
    ensures Refines(endpoints[i := Apply(endpoints[i], e, threshold)], Log(h, h.urls[i], e), threshold)
  {
    hide Replay, Apply;
    var url := h.urls[i];
    ReplayMore(url, HistoryOf(h, url), e, threshold);
    var after := Log(h, url, e);
    assert url in h.of;
    forall j | 0 <= j < |endpoints| && j != i ensures HistoryOf(after, h.urls[j]) == HistoryOf(h, h.urls[j]) {
      assert h.urls[j] != url;
    }
  }

  lemma FindRefines(endpoints: seq<EndpointHealth>, h: Histories, threshold: nat, url: string)
    requires Refines(endpoints, h, threshold)
    ensures Find(endpoints, url).Some? <==> url in h.of
    ensures Find(endpoints, url).Some? ==> h.urls[Find(endpoints, url).value] == url
  {
    hide Replay, Find;
    forall j | 0 <= j < |endpoints| ensures endpoints[j].url == h.urls[j] {
      ReplayKeepsUrl(h.urls[j], HistoryOf(h, h.urls[j]), threshold);
    }
  }

  lemma RefreshRefines(endpoints: seq<EndpointHealth>, h: Histories, threshold: nat, urls: seq<string>)
    requires Refines(endpoints, h, threshold) && Distinct(urls)
    ensures Refines(Refreshed(endpoints, urls), HistoryStep(h, Refresh(urls)), threshold)
  {
    hide Find;
    var after := HistoryStep(h, Refresh(urls));
    forall j | 0 <= j < |urls|
      ensures Carry(endpoints, urls[j]) == Replay(urls[j], HistoryOf(after, urls[j]), threshold)
    {
      FindRefines(endpoints, h, threshold, urls[j]);
      assert HistoryOf(after, urls[j]) == HistoryOf(h, urls[j]);
    }
  }

  lemma StepRefines(endpoints: seq<EndpointHealth>, h: Histories, threshold: nat, e: Event)
    requires Refines(endpoints, h, threshold) && (e.Refresh? ==> Distinct(e.urls))
    ensures Refines(Step(endpoints, e, threshold), HistoryStep(h, e), threshold)
  {
    hide Refines, Replay, Refreshed, Log;
    assert |endpoints| == |h.urls| by { SameLength(endpoints, h, threshold); }
    match e
    case Observe(i, outcome) =>
      if i < |endpoints| { LogRefines(endpoints, h, threshold, i, Breaker.Outcome(outcome)); }
    case ProbeResult(i, success, now) =>
      if i < |endpoints| { LogRefines(endpoints, h, threshold, i, Breaker.Probe(success, now)); }
    case ObserveUrl(url, outcome) =>
      FindRefines(endpoints, h, threshold, url);
      var i := Find(endpoints, url);
      if i.Some? { LogRefines(endpoints, h, threshold, i.value, Breaker.Outcome(outcome)); }
      else { NotLogged(h, url, Breaker.Outcome(outcome)); }
    case Refresh(urls) => RefreshRefines(endpoints, h, threshold, urls);
  }

  lemma SameLength(endpoints: seq<EndpointHealth>, h: Histories, threshold: nat)
    requires Refines(endpoints, h, threshold)
    ensures |endpoints| == |h.urls|
  {
  }

  lemma NotLogged(h: Histories, url: string, e: Breaker.Event)
    requires url !in h.of
    ensures Log(h, url, e) == h
  {
  }

  /** Over every run of outcomes, probes and refreshes with distinct urls, the
      indexed router behaves as independent machines, one per url, each driven
      only by that url's events since it last appeared. */
  lemma {:induction false} RouterRefinesMachines(endpoints: seq<EndpointHealth>, h: Histories, events: seq<Event>,
                                                 threshold: nat)
    requires Refines(endpoints, h, threshold) && RefreshesDistinct(events)
    ensures Refines(Run(endpoints, events, threshold), HistoryRun(h, events), threshold)
    decreases |events|
  {
    hide Refines, Step, HistoryStep;
    if events != [] {
      StepRefines(endpoints, h, threshold, events[0]);
      RouterRefinesMachines(Step(endpoints, events[0], threshold), HistoryStep(h, events[0]), events[1..], threshold);
    }
  }

  lemma StartRefines(urls: seq<string>, threshold: nat)
    requires Distinct(urls)
    ensures Refines(Start(urls), HistoryStart(urls), threshold)
  {
  }

  /** So an endpoint's breaker, counter and average follow from its own url's
      history alone. */
  lemma BreakerCharacterised(urls: seq<string>, events: seq<Event>, threshold: nat, i: nat)
    requires Distinct(urls) && RefreshesDistinct(events) && threshold <= U32_MAX
    requires i < |Run(Start(urls), events, threshold)|
    ensures
      var ep := Run(Start(urls), events, threshold)[i];
      var h := HistoryOf(HistoryRun(HistoryStart(urls), events), ep.url);
      && (!ep.healthy <==> Tripped(h, if threshold == 0 then 1 else threshold))
      && ep.consecutiveTimeouts == (if Trailing(h) < U32_MAX then Trailing(h) else U32_MAX)
      && ep.ewmaRttSecs == Smoothed(RoundTrips(h))
      && ep.samples == (if |RoundTrips(h)| < U64_MAX then |RoundTrips(h)| else U64_MAX)
      && ep.lastProbe == LastProbe(h)
      && ep == Replay(ep.url, h, threshold)
  {
    hide Run, HistoryRun, Replay, Tripped, Smoothed, RoundTrips;
    StartRefines(urls, threshold);
    RouterRefinesMachines(Start(urls), HistoryStart(urls), events, threshold);
    var ep := Run(Start(urls), events, threshold)[i];
    var histories := HistoryRun(HistoryStart(urls), events);
    ReplayKeepsUrl(histories.urls[i], HistoryOf(histories, histories.urls[i]), threshold);
    UnhealthyExactly(ep.url, HistoryOf(histories, ep.url), threshold);
    CounterIsTrailing(ep.url, HistoryOf(histories, ep.url), threshold);
    EwmaIsSmoothed(ep.url, HistoryOf(histories, ep.url), threshold);
    LastProbeIsStamped(ep.url, HistoryOf(histories, ep.url), threshold);
  }
}
