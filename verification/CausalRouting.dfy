/** Routing one causal read: choose a target replica, wait for it within a
    deadline, and otherwise fall back to a node already past the bookmark. */
module CausalRouting {
  import opened Prelude

  datatype Endpoint = Endpoint(addr: string, region: string)

  datatype ReplicaInfo = ReplicaInfo(
    addr: string, region: string, healthy: bool, lastAppliedLsn: nat, rebootstrapping: bool)

  datatype RouteKind = EligibleTarget | CaughtUpTarget | FallbackReplica | FallbackPrimary

  /** Durations are nanoseconds. */
  datatype RouteDecision = RouteDecision(endpoint: Endpoint, kind: RouteKind, waited: nat)

  datatype RoutingTable = RoutingTable(write: Endpoint, replicas: seq<ReplicaInfo>)

  datatype CausalReadOptions = CausalReadOptions(preferredRegion: Option<string>, deadline: nat)

  function EndpointOf(r: ReplicaInfo): Endpoint {
    Endpoint(r.addr, r.region)
  }

  /** May be waited for or read from at all. */
  predicate Servable(r: ReplicaInfo) {
    r.healthy && !r.rebootstrapping
  }

  /** Can serve the bookmark now. */
  predicate Eligible(r: ReplicaInfo, lsn: nat) {
    Servable(r) && r.lastAppliedLsn >= lsn
  }

  /** The first index from i on, other than `exclude`, that satisfies p. */
  function FirstFrom(replicas: seq<ReplicaInfo>, i: nat, exclude: Option<nat>, p: ReplicaInfo -> bool): (r: Option<nat>)
    ensures r.Some? ==> i <= r.value < |replicas| && p(replicas[r.value]) && exclude != r
    ensures forall j :: i <= j < (if r.Some? then r.value else |replicas|) && p(replicas[j]) ==> exclude == Some(j)
    decreases |replicas| - i
  {
    if i >= |replicas| then None
    else if exclude != Some(i) && p(replicas[i]) then Some(i)
    else FirstFrom(replicas, i + 1, exclude, p)
  }

  function PickTargetIndex(table: RoutingTable, preferredRegion: Option<string>): Option<nat> {
    var any := FirstFrom(table.replicas, 0, None, Servable);
    match preferredRegion
    case None => any
    case Some(region) =>
      var local := FirstFrom(table.replicas, 0, None, r => Servable(r) && r.region == region);
      if local.Some? then local else any
  }

  /** The target is the first servable replica of the preferred region, else the
      first servable one; there is none only if no replica is servable. */
  lemma TargetIsBest(table: RoutingTable, preferredRegion: Option<string>)
    ensures
      var t := PickTargetIndex(table, preferredRegion);
      var rs := table.replicas;
      && (t.None? <==> forall j :: 0 <= j < |rs| ==> !rs[j].healthy || rs[j].rebootstrapping)
      && (t.Some? ==> t.value < |rs| && rs[t.value].healthy && !rs[t.value].rebootstrapping)
      && (t.Some? && preferredRegion.Some? && rs[t.value].region != preferredRegion.value ==>
            forall j :: 0 <= j < |rs| && rs[j].healthy && !rs[j].rebootstrapping ==>
              rs[j].region != preferredRegion.value)
      && (t.Some? ==> forall j :: 0 <= j < t.value && rs[j].healthy && !rs[j].rebootstrapping ==>
                        preferredRegion.Some? && rs[j].region != preferredRegion.value &&
                        rs[t.value].region == preferredRegion.value)
  {
  }

  function FallBack(table: RoutingTable, lsn: nat, exclude: Option<nat>, waited: nat): RouteDecision {
    match FirstFrom(table.replicas, 0, exclude, r => Eligible(r, lsn))
    case Some(i) => RouteDecision(EndpointOf(table.replicas[i]), FallbackReplica, waited)
    case None => RouteDecision(table.write, FallbackPrimary, waited)
  }

  /** Leaving out a target that is behind never changes where a read falls back
      to, so the fallback is the best the snapshot offers: the primary only if no
      replica is eligible. */
  lemma FallBackIsBest(table: RoutingTable, lsn: nat, exclude: Option<nat>, waited: nat)
    requires exclude.Some? ==> exclude.value < |table.replicas| && !Eligible(table.replicas[exclude.value], lsn)
    ensures FallBack(table, lsn, exclude, waited) == FallBack(table, lsn, None, waited)
    ensures
      var d := FallBack(table, lsn, exclude, waited);
      && d.waited == waited
      && (if forall j :: 0 <= j < |table.replicas| ==> !CanServe(table.replicas[j], lsn)
          then d.kind == FallbackPrimary && d.endpoint == table.write
          else d.kind == FallbackReplica && exists j: nat :: ServedBy(table.replicas, lsn, j, d.endpoint))
  {
    SameFirst(table.replicas, 0, exclude, r => Eligible(r, lsn));
    var found := FirstFrom(table.replicas, 0, None, r => Eligible(r, lsn));
    if found.Some? {
      assert ServedBy(table.replicas, lsn, found.value, FallBack(table, lsn, exclude, waited).endpoint);
    }
  }

  /** Healthy, not re-bootstrapping, and at or past the bookmark. */
  predicate CanServe(r: ReplicaInfo, lsn: nat) {
    r.healthy && !r.rebootstrapping && r.lastAppliedLsn >= lsn
  }

  /** Replica j is the first that can serve, and this is its endpoint. */
  predicate ServedBy(replicas: seq<ReplicaInfo>, lsn: nat, j: nat, endpoint: Endpoint) {
    && j < |replicas| && CanServe(replicas[j], lsn)
    && (forall i :: 0 <= i < j ==> !CanServe(replicas[i], lsn))
    && endpoint.addr == replicas[j].addr && endpoint.region == replicas[j].region
  }

  lemma {:induction false} SameFirst(replicas: seq<ReplicaInfo>, i: nat, exclude: Option<nat>, p: ReplicaInfo -> bool)
    requires exclude.Some? ==> exclude.value < |replicas| && !p(replicas[exclude.value])
    ensures FirstFrom(replicas, i, exclude, p) == FirstFrom(replicas, i, None, p)
    decreases |replicas| - i
  {
    if i < |replicas| { SameFirst(replicas, i + 1, exclude, p); }
  }

  // ------------------------------------------------------------- the wait

  /** The transport behind a wait: the k-th poll takes `advance(k)` and reports
      `frontier(k, addr)`. */
  class Waiter {
    const advance: nat -> nat
    const frontier: (nat, string) -> nat
    var elapsed: nat
    var polled: seq<string>

    constructor (advance: nat -> nat, frontier: (nat, string) -> nat)
      ensures this.advance == advance && this.frontier == frontier
      ensures elapsed == 0 && polled == []
    {
      this.advance, this.frontier := advance, frontier;
      elapsed, polled := 0, [];
    }

    method Poll(addr: string) returns (lsn: nat)
      modifies this
      ensures polled == old(polled) + [addr]
      ensures elapsed == old(elapsed) + advance(|old(polled)|)
      ensures lsn == frontier(|old(polled)|, addr)
    {
      lsn := frontier(|polled|, addr);
      elapsed := elapsed + advance(|polled|);
      polled := polled + [addr];
    }
  }

  /** Polls take between lo and hi. */
  ghost predicate Paced(waiter: Waiter, lo: nat, hi: nat) {
    0 < lo && forall k: nat {:trigger waiter.advance(k)} :: lo <= waiter.advance(k) <= hi
  }

  /** Every poll so far went to addr and found it behind. */
  ghost predicate AllBehind(waiter: Waiter, addr: string, lsn: nat, n: nat) {
    forall k: nat :: k < n ==> waiter.frontier(k, addr) < lsn
  }

  /** Bounded wait, then fallback; never an error. */
  method RouteCausalRead(table: RoutingTable, lsn: nat, opts: CausalReadOptions, waiter: Waiter,
                         ghost lo: nat, ghost hi: nat)
    returns (d: RouteDecision)
    requires waiter.elapsed == 0 && waiter.polled == [] && Paced(waiter, lo, hi)
    modifies waiter
    // The wait is bounded in polls and in time.
    ensures waiter.polled != [] ==> (|waiter.polled| - 1) * lo < opts.deadline
    ensures d.waited < opts.deadline + hi
    // Only the target is ever polled.
    ensures
      var t := PickTargetIndex(table, opts.preferredRegion);
      forall a :: a in waiter.polled ==> t.Some? && t.value < |table.replicas| && a == table.replicas[t.value].addr
    // Without a target, or with one that is past the bookmark, nothing is
    // polled; otherwise the first poll that finds the target caught up decides,
    // and if none does before the deadline the best fallback does.
    ensures
      match PickTargetIndex(table, opts.preferredRegion)
      case None => waiter.polled == [] && d == FallBack(table, lsn, None, 0)
      case Some(t) =>
        && t < |table.replicas|
        && var target := table.replicas[t];
        if target.lastAppliedLsn >= lsn then
          waiter.polled == [] && d == RouteDecision(Endpoint(target.addr, target.region), EligibleTarget, 0)
        else if d.kind == CaughtUpTarget then
          && |waiter.polled| > 0
          && waiter.frontier(|waiter.polled| - 1, target.addr) >= lsn
          && AllBehind(waiter, target.addr, lsn, |waiter.polled| - 1)
          && d == RouteDecision(Endpoint(target.addr, target.region), CaughtUpTarget, waiter.elapsed)
        else
          && waiter.elapsed >= opts.deadline
          && AllBehind(waiter, target.addr, lsn, |waiter.polled|)
          && d == FallBack(table, lsn, None, waiter.elapsed)
    ensures d.kind == FallbackPrimary ==> forall j :: 0 <= j < |table.replicas| ==> !CanServe(table.replicas[j], lsn)
  {
    hide FirstFrom;
    TargetIsBest(table, opts.preferredRegion);
    assert waiter.advance(0) >= lo;
    var target := PickTargetIndex(table, opts.preferredRegion);
    if target.None? {
      FallBackIsBest(table, lsn, None, waiter.elapsed);
      return FallBack(table, lsn, None, waiter.elapsed);
    }
    var r := table.replicas[target.value];
    if r.lastAppliedLsn >= lsn {
      return RouteDecision(EndpointOf(r), EligibleTarget, 0);
    }
    var caughtUp := Wait(r.addr, lsn, opts.deadline, waiter, lo, hi);
    if caughtUp {
      return RouteDecision(EndpointOf(r), CaughtUpTarget, waiter.elapsed);
    }
    FallBackIsBest(table, lsn, target, waiter.elapsed);
    return FallBack(table, lsn, target, waiter.elapsed);
  }

  /** Polls one address until it is past lsn or the deadline is over. */
  method Wait(addr: string, lsn: nat, deadline: nat, waiter: Waiter, ghost lo: nat, ghost hi: nat)
    returns (caughtUp: bool)
    requires waiter.elapsed == 0 && waiter.polled == [] && Paced(waiter, lo, hi)
    modifies waiter
    ensures waiter.polled != [] ==> (|waiter.polled| - 1) * lo < deadline
    ensures waiter.elapsed < deadline + hi
    ensures forall a :: a in waiter.polled ==> a == addr
    ensures caughtUp ==>
              && |waiter.polled| > 0
              && waiter.frontier(|waiter.polled| - 1, addr) >= lsn
              && AllBehind(waiter, addr, lsn, |waiter.polled| - 1)
    ensures !caughtUp ==> waiter.elapsed >= deadline && AllBehind(waiter, addr, lsn, |waiter.polled|)
  {
    assert waiter.advance(0) >= lo;
    while waiter.elapsed < deadline
      invariant |waiter.polled| * lo <= waiter.elapsed < deadline + hi
      invariant waiter.polled != [] ==> (|waiter.polled| - 1) * lo < deadline
      invariant forall a :: a in waiter.polled ==> a == addr
      invariant AllBehind(waiter, addr, lsn, |waiter.polled|)
      decreases deadline + hi - waiter.elapsed
    {
      assert lo <= waiter.advance(|waiter.polled|) <= hi;
      assert (|waiter.polled| + 1) * lo == |waiter.polled| * lo + lo;
      var frontier := waiter.Poll(addr);
      if frontier >= lsn { return true; }
    }
    return false;
  }
}
