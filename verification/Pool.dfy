/** The client's live replica pool, rebuilt in place from topology
    advertisements, and its index alignment with the router. */
module Pool {
  import opened Prelude
  import opened Breaker
  import R = Router
  import RR = ReadRouting

  /** A dialled endpoint; its identity is its connection. */
  class Endpoint {
    const url: string

    constructor (url: string)
      ensures this.url == url
    {
      this.url := url;
    }
  }

  datatype Membership = Membership(primaryAddr: string, replicaAddrs: seq<string>)

  function EndpointAddrs(m: Membership): seq<string> {
    [m.primaryAddr] + m.replicaAddrs
  }

  datatype RefreshError = PrimaryDiffers | DialFailed(index: nat)

  function UrlsOf(eps: seq<Endpoint>): (urls: seq<string>)
    ensures |urls| == |eps|
  {
    seq(|eps|, i requires 0 <= i < |eps| => eps[i].url)
  }

  // ------------------------------------------------------------ swap_remove

  function SwapRemove<T>(s: seq<T>, pos: nat): (t: seq<T>)
    requires pos < |s|
    ensures |t| == |s| - 1
  {
    var last := |s| - 1;
    s[pos := s[last]][..last]
  }

  /** Whatever it reorders, swap_remove takes out exactly one element. */
  lemma SwapRemoveTakesOne<T>(s: seq<T>, pos: nat)
    requires pos < |s|
    ensures multiset(s) == multiset(SwapRemove(s, pos)) + multiset{s[pos]}
  {
    var last := |s| - 1;
    var swapped := s[pos := s[last]];
    assert swapped == swapped[..last] + [s[last]];
    assert multiset(swapped) == multiset(s) - multiset{s[pos]} + multiset{s[last]};
  }

  lemma UrlsAfterSwapRemove(eps: seq<Endpoint>, pos: nat)
    requires pos < |eps|
    ensures UrlsOf(SwapRemove(eps, pos)) == SwapRemove(UrlsOf(eps), pos)
  {
  }

  // --------------------------------------------------------- a draining pool

  /** The first place of a url. */
  function FirstOf(urls: seq<string>, url: string): (pos: nat)
    requires url in urls
    ensures pos < |urls| && urls[pos] == url && forall j :: 0 <= j < pos ==> urls[j] != url
  {
    if urls[0] == url then 0
    else
      assert urls == [urls[0]] + urls[1..];
      var rest := FirstOf(urls[1..], url);
      assert forall j :: 1 <= j < rest + 1 ==> urls[j] == urls[1..][j - 1];
      rest + 1
  }

  lemma FirstIs(urls: seq<string>, url: string, pos: nat)
    requires pos < |urls| && urls[pos] == url && forall j :: 0 <= j < pos ==> urls[j] != url
    ensures FirstOf(urls, url) == pos
  {
    hide FirstOf;
  }

  function Without(urls: seq<string>, url: string): seq<string> {
    if url in urls then SwapRemove(urls, FirstOf(urls, url)) else urls
  }

  /** What is left of the pool after some advertisements were served from it. */
  function Drain(pool: seq<string>, served: seq<string>): seq<string> {
    if served == [] then pool else Without(Drain(pool, served[..|served| - 1]), served[|served| - 1])
  }

  lemma DrainStep(pool: seq<string>, advertised: seq<string>, i: nat)
    requires i < |advertised|
    ensures Drain(pool, advertised[..i + 1]) == Without(Drain(pool, advertised[..i]), advertised[i])
  {
    assert advertised[..i + 1][..i] == advertised[..i];
  }

  lemma DrainStart(pool: seq<string>)
    ensures Drain(pool, []) == pool
  {
  }

  lemma DrainNext(pool: seq<string>, advertised: seq<string>, i: nat)
    requires i < |advertised|
    ensures Drain(pool, advertised[..i + 1]) == Without(Drain(pool, advertised[..i]), advertised[i])
    ensures advertised[i] !in pool ==> Drain(pool, advertised[..i + 1]) == Drain(pool, advertised[..i])
  {
    hide Drain;
    DrainStep(pool, advertised, i);
    DrainIsWithin(pool, advertised[..i]);
  }

  lemma {:induction false} DrainIsWithin(pool: seq<string>, served: seq<string>)
    ensures forall url :: url in Drain(pool, served) ==> url in pool
    decreases |served|
  {
    hide FirstOf;
    if served != [] { DrainIsWithin(pool, served[..|served| - 1]); }
  }

  /** Swap_remove on distinct urls: everything else stays in, and whatever is not
      moved into the gap stays in place. */
  lemma WithoutKeeps(urls: seq<string>, url: string)
    requires R.Distinct(urls)
    ensures R.Distinct(Without(urls, url))
    ensures forall u :: u in Without(urls, url) <==> u in urls && u != url
    ensures forall s :: 0 <= s < |Without(urls, url)| && urls[s] != url ==> Without(urls, url)[s] == urls[s]
  {
    if url in urls {
      var pos, last := FirstOf(urls, url), |urls| - 1;
      var after := Without(urls, url);
      assert forall s :: 0 <= s < last ==> after[s] == if s == pos then urls[last] else urls[s];
      forall u | u in urls && u != url ensures u in after {
        var s :| 0 <= s < |urls| && urls[s] == u;
        assert after[if s == last then pos else s] == u;
      }
    }
  }

  lemma {:induction false} DrainKeeps(pool: seq<string>, served: seq<string>)
    requires R.Distinct(pool)
    ensures R.Distinct(Drain(pool, served)) && |Drain(pool, served)| <= |pool|
    ensures forall u :: u in Drain(pool, served) <==> u in pool && u !in served
    ensures forall s :: 0 <= s < |Drain(pool, served)| && pool[s] !in served ==> Drain(pool, served)[s] == pool[s]
    decreases |served|
  {
    hide Without, R.Distinct;
    if served != [] {
      var init, url := served[..|served| - 1], served[|served| - 1];
      assert served == init + [url];
      DrainKeeps(pool, init);
      WithoutKeeps(Drain(pool, init), url);
      WithoutShrinks(Drain(pool, init), url);
    }
  }

  lemma WithoutShrinks(urls: seq<string>, url: string)
    ensures |Without(urls, url)| <= |urls|
  {
  }

  /** The index a read reports under, given the router's pick and the pool. */
  function BookedIndex(picked: nat, pool: seq<string>): nat {
    if 1 <= picked <= |pool| then picked else 0
  }

  /** The url such a read is served at. */
  function ServedAt(primaryUrl: string, pool: seq<string>, picked: nat): string {
    if 1 <= picked <= |pool| then pool[picked - 1] else primaryUrl
  }

  /** A read during the rebuild, while the router still lists the whole pool: it
      reports under the url it was served at exactly if the picked endpoint has
      not been moved yet, or if the pool is already too short to have its slot,
      when the primary serves and is booked. */
  lemma ReadDuringRebuild(primaryUrl: string, pool: seq<string>, served: seq<string>, picked: nat)
    requires R.Distinct(pool) && picked <= |pool|
    ensures
      var router, now := [primaryUrl] + pool, Drain(pool, served);
      router[BookedIndex(picked, now)] == ServedAt(primaryUrl, now, picked) <==>
      picked == 0 || picked > |now| || pool[picked - 1] !in served
  {
    DrainKeeps(pool, served);
    var now := Drain(pool, served);
    if 1 <= picked <= |now| {
      assert now[picked - 1] in now;
    }
  }

  /** With "a" of "a", "b", "c" moved, a read the router sends to "a" is served by
      "c" and booked under "a". */
  lemma ReadIsMisbooked()
    ensures ServedAt("p", Drain(["a", "b", "c"], ["a"]), 1) == "c"
    ensures BookedIndex(1, Drain(["a", "b", "c"], ["a"])) == 1
  {
    assert ["a"][..0] == [];
    assert Drain(["a", "b", "c"], []) == ["a", "b", "c"];
  }

  // ------------------------------------------------------- what is affordable

  /** How often a url occurs. */
  function Count(urls: seq<string>, url: string): nat {
    multiset(urls)[url]
  }

  lemma PooledCount(urls: seq<string>, url: string)
    requires url in urls
    ensures Count(urls, url) > 0
  {
    assert url in multiset(urls);
  }

  lemma CountAppend(urls: seq<string>, i: nat, url: string)
    requires i < |urls|
    ensures Count(urls[..i + 1], url) == Count(urls[..i], url) + (if urls[i] == url then 1 else 0)
  {
    assert urls[..i + 1] == urls[..i] + [urls[i]];
  }

  /** No pooled url is advertised more often than it is pooled. */
  ghost predicate Affordable(pooled: seq<string>, advertised: seq<string>) {
    forall url :: url in pooled ==> Count(advertised, url) <= Count(pooled, url)
  }

  /** Pairwise distinct advertisements always are. */
  lemma DistinctIsAffordable(pooled: seq<string>, advertised: seq<string>)
    requires R.Distinct(advertised)
    ensures Affordable(pooled, advertised)
  {
    forall url | url in pooled ensures Count(advertised, url) <= Count(pooled, url) {
      DistinctCount(advertised, url);
      assert url in multiset(pooled);
    }
  }

  lemma {:induction false} DistinctCount(urls: seq<string>, url: string)
    requires R.Distinct(urls)
    ensures Count(urls, url) <= 1
    decreases |urls|
  {
    if urls != [] {
      var n := |urls| - 1;
      DistinctCount(urls[..n], url);
      CountAppend(urls, n, url);
      assert urls[..n + 1] == urls;
      assert urls[n] == url ==> url !in multiset(urls[..n]) by {
        assert forall i :: 0 <= i < n ==> urls[i] != urls[n];
      }
    }
  }

  // ------------------------------------------------------ what can be obtained

  /** The url is pooled already or can be dialled. */
  predicate Obtainable(pooled: seq<string>, dialable: set<string>, url: string) {
    url in pooled || url in dialable
  }

  predicate AllObtainable(pooled: seq<string>, dialable: set<string>, advertised: seq<string>) {
    forall url :: url in advertised ==> Obtainable(pooled, dialable, url)
  }

  /** The first advertised url that cannot be obtained is at i. */
  predicate FailsAt(pooled: seq<string>, dialable: set<string>, advertised: seq<string>, i: nat) {
    && i < |advertised| && !Obtainable(pooled, dialable, advertised[i])
    && forall j :: 0 <= j < i ==> Obtainable(pooled, dialable, advertised[j])
  }

  /** Exactly when a refresh keeps pool and router in lockstep: it is refused, or
      it can obtain everything and is affordable, or it fails before anything
      pooled was advertised. */
  ghost predicate KeepsLockstep(primaryUrl: string, pooled: seq<string>, m: Membership, dialable: set<string>) {
    if m.primaryAddr != primaryUrl then true
    else if AllObtainable(pooled, dialable, m.replicaAddrs) then Affordable(pooled, m.replicaAddrs)
    else forall i, j :: FailsAt(pooled, dialable, m.replicaAddrs, i) && 0 <= j < i ==> m.replicaAddrs[j] !in pooled
  }

  lemma FailsAtOnce(pooled: seq<string>, dialable: set<string>, advertised: seq<string>, i: nat, j: nat)
    requires FailsAt(pooled, dialable, advertised, i) && FailsAt(pooled, dialable, advertised, j)
    ensures i == j
  {
    hide Obtainable;
  }

  /** What a failed dial at i means for lockstep. */
  lemma LockstepAfterFailure(primaryUrl: string, pooled: seq<string>, m: Membership, dialable: set<string>, i: nat)
    requires m.primaryAddr == primaryUrl && FailsAt(pooled, dialable, m.replicaAddrs, i)
    ensures !AllObtainable(pooled, dialable, m.replicaAddrs)
    ensures KeepsLockstep(primaryUrl, pooled, m, dialable) <==>
            forall j :: 0 <= j < i ==> m.replicaAddrs[j] !in pooled
  {
    hide Obtainable, Affordable;
    assert m.replicaAddrs[i] in m.replicaAddrs;
    forall k: nat | FailsAt(pooled, dialable, m.replicaAddrs, k) ensures k == i {
      FailsAtOnce(pooled, dialable, m.replicaAddrs, i, k);
    }
  }

  lemma LockstepUnlessFailed(primaryUrl: string, pooled: seq<string>, m: Membership, dialable: set<string>)
    ensures m.primaryAddr != primaryUrl ==> KeepsLockstep(primaryUrl, pooled, m, dialable)
    ensures m.primaryAddr == primaryUrl && AllObtainable(pooled, dialable, m.replicaAddrs) ==>
              (KeepsLockstep(primaryUrl, pooled, m, dialable) <==> Affordable(pooled, m.replicaAddrs))
  {
    hide Affordable, AllObtainable;
  }

  /** Distinct advertisements that can be obtained in full keep lockstep. */
  lemma DistinctKeepsLockstep(primaryUrl: string, pooled: seq<string>, m: Membership, dialable: set<string>)
    requires R.Distinct(m.replicaAddrs) && AllObtainable(pooled, dialable, m.replicaAddrs)
    ensures KeepsLockstep(primaryUrl, pooled, m, dialable)
  {
    hide Affordable;
    DistinctIsAffordable(pooled, m.replicaAddrs);
  }

  ghost predicate AlignedWith(endpoints: seq<EndpointHealth>, primaryUrl: string, pool: seq<Endpoint>) {
    && |endpoints| == |pool| + 1
    && endpoints[0].url == primaryUrl
    && forall i :: 0 <= i < |pool| ==> endpoints[i + 1].url == pool[i].url
  }

  lemma AlignedAfterRefresh(endpoints: seq<EndpointHealth>, m: Membership, pool: seq<Endpoint>)
    ensures AlignedWith(R.Refreshed(endpoints, EndpointAddrs(m)), m.primaryAddr, pool) <==>
            UrlsOf(pool) == m.replicaAddrs
  {
    hide R.Find;
    var fresh' := R.Refreshed(endpoints, EndpointAddrs(m));
    assert forall i :: 0 <= i < |m.replicaAddrs| ==> fresh'[i + 1].url == m.replicaAddrs[i];
    assert fresh'[0].url == m.primaryAddr;
    if AlignedWith(fresh', m.primaryAddr, pool) {
      assert UrlsOf(pool) == m.replicaAddrs;
    }
  }

  // ------------------------------------------------------------- the client

  class GrpcClient {
    const primary: Endpoint
    const router: RR.HealthAwareRouter
    var replicas: seq<Endpoint>
    var membership: Membership

    constructor (primary: Endpoint, router: RR.HealthAwareRouter, replicas: seq<Endpoint>, membership: Membership)
      ensures this.primary == primary && this.router == router
      ensures this.replicas == replicas && this.membership == membership
    {
      this.primary, this.router, this.replicas, this.membership := primary, router, replicas, membership;
    }

    /** Router entry 0 is the primary and entry i + 1 is pool slot i. */
    ghost predicate Aligned()
      reads this`replicas, router`endpoints
    {
      AlignedWith(router.endpoints, primary.url, replicas)
    }

    /** Picks a read endpoint and the index to report its outcome under; while
        aligned, that index is the picked endpoint's own router entry. */
    method ReadEndpoint() returns (ep: Endpoint, idx: nat)
      modifies router`rrCounter
      ensures Aligned() ==> idx < |router.endpoints| && router.endpoints[idx].url == ep.url
      ensures Aligned() ==> idx == RR.PickAt(router.endpoints, router.forcePrimary, old(router.rrCounter))
      ensures idx == 0 ==> ep == primary
      ensures idx > 0 ==> idx <= |replicas| && ep == replicas[idx - 1]
      ensures
        var picked := RR.PickAt(router.endpoints, router.forcePrimary, old(router.rrCounter));
        && idx == BookedIndex(picked, UrlsOf(replicas))
        && ep.url == ServedAt(primary.url, UrlsOf(replicas), picked)
    {
      hide RR.PickAt;
      RR.ReadsGoToHealthyReplicas(router.endpoints, router.forcePrimary, router.rrCounter);
      idx := router.PickReadIndex();
      if idx == 0 { return primary, 0; }
      if idx - 1 < |replicas| { return replicas[idx - 1], idx; }
      return primary, 0;
    }

    /** The endpoint dialled for an address: the primary for its own address and
        for any address not pooled. */
    method EndpointByAddr(addr: string) returns (ep: Endpoint, idx: nat)
      ensures ep.url == addr || (ep == primary && addr !in UrlsOf(replicas))
      ensures addr == primary.url ==> idx == 0
      ensures idx == 0 ==> ep == primary
      ensures idx > 0 ==> idx <= |replicas| && ep == replicas[idx - 1]
      ensures idx > 0 ==> forall j :: 0 <= j < idx - 1 ==> replicas[j].url != addr
    {
      if addr == primary.url { return primary, 0; }
      for i := 0 to |replicas|
        invariant forall j :: 0 <= j < i ==> replicas[j].url != addr
      {
        if replicas[i].url == addr { return replicas[i], i + 1; }
      }
      return primary, 0;
    }

    /** Dialling is the network's decision. */
    method Connect(url: string, dialable: set<string>) returns (r: Option<Endpoint>)
      ensures r.Some? <==> url in dialable
      ensures r.Some? ==> fresh(r.value) && r.value.url == url
    {
      if url !in dialable { return None; }
      var ep := new Endpoint(url);
      r := Some(ep);
    }

    /** Moves one pooled endpoint with this url out of the pool, if any. */
    method TakeKnown(url: string) returns (ep: Option<Endpoint>)
      modifies this`replicas
      ensures UrlsOf(replicas) == Without(old(UrlsOf(replicas)), url)
      ensures ep.None? ==> replicas == old(replicas) && Count(UrlsOf(replicas), url) == 0
      ensures ep.Some? ==> ep.value.url == url && multiset(old(replicas)) == multiset(replicas) + multiset{ep.value}
      ensures ep.Some? ==> multiset(old(UrlsOf(replicas))) == multiset(UrlsOf(replicas)) + multiset{url}
    {
      for i := 0 to |replicas|
        invariant replicas == old(replicas)
        invariant forall j :: 0 <= j < i ==> replicas[j].url != url
      {
        if replicas[i].url == url {
          SwapRemoveTakesOne(replicas, i);
          SwapRemoveTakesOne(UrlsOf(replicas), i);
          UrlsAfterSwapRemove(replicas, i);
          FirstIs(UrlsOf(replicas), url, i);
          ep := Some(replicas[i]);
          replicas := SwapRemove(replicas, i);
          return;
        }
      }
      assert url !in UrlsOf(replicas);
      assert url !in multiset(UrlsOf(replicas));
      return None;
    }

    /** Rebuilds the pool from an advertisement: known endpoints are moved over
        by swap_remove, unknown ones are dialled, the rest is dropped, and the
        router is told last. */
    method ApplyMembership(m: Membership, dialable: set<string>)
      returns (r: Result<(), RefreshError>, ghost kept: seq<Endpoint>, ghost dialled: seq<Endpoint>)
      modifies this`replicas, this`membership, router`endpoints
      // The outcome is decided by the pool, the advertisement and the network.
      ensures r.Ok? <==> m.primaryAddr == primary.url &&
                         AllObtainable(old(UrlsOf(replicas)), dialable, m.replicaAddrs)
      ensures r.Err? && r.error.DialFailed? ==>
                FailsAt(old(UrlsOf(replicas)), dialable, m.replicaAddrs, r.error.index)
      // And so is what becomes of lockstep.
      ensures old(Aligned()) ==>
                (Aligned() <==> KeepsLockstep(primary.url, old(UrlsOf(replicas)), m, dialable))
      // Refused advertisements change nothing.
      ensures m.primaryAddr != primary.url <==> r == Err(PrimaryDiffers)
      ensures r == Err(PrimaryDiffers) ==> replicas == old(replicas) && kept == []
      // Success: the router and the membership follow the advertisement, and
      // the pool is aligned with them exactly when it was affordable.
      ensures r.Ok? ==> membership == m
      ensures r.Ok? ==> router.endpoints == R.Refreshed(old(router.endpoints), EndpointAddrs(m))
      ensures r.Ok? ==> (Aligned() <==> Affordable(old(UrlsOf(replicas)), m.replicaAddrs))
      // Surviving endpoints are the same objects; only unknown urls are dialled.
      ensures r.Ok? ==> multiset(replicas) == multiset(kept) + multiset(dialled)
      ensures forall e :: e in kept ==> e in old(replicas)
      ensures forall e :: e in dialled ==> fresh(e) && e.url !in old(UrlsOf(replicas))
      ensures multiset(kept) <= multiset(old(replicas))
      ensures r.Ok? ==> forall e :: e in replicas ==> (e in old(replicas) <==> e.url in old(UrlsOf(replicas)))
      // A failed dial leaves router and membership alone but loses what had
      // been moved, so alignment survives exactly if nothing had been.
      ensures r.Err? ==> membership == old(membership) && router.endpoints == old(router.endpoints)
      ensures r.Err? ==> multiset(old(replicas)) == multiset(replicas) + multiset(kept)
      ensures r.Err? && old(Aligned()) ==> (Aligned() <==> kept == [])
      ensures r.Err? && r.error.DialFailed? ==>
                r.error.index < |m.replicaAddrs| &&
                (kept == [] <==> forall j :: 0 <= j < r.error.index ==> m.replicaAddrs[j] !in old(UrlsOf(replicas)))
    {
      hide Affordable, UrlsOf, EndpointAddrs, R.Refreshed, KeepsLockstep, FailsAt, AllObtainable;
      ghost var pooled := UrlsOf(replicas);
      kept, dialled := [], [];
      LockstepUnlessFailed(primary.url, pooled, m, dialable);
      if m.primaryAddr != primary.url { return Err(PrimaryDiffers), kept, dialled; }
      var next: seq<Endpoint>;
      r, next, kept, dialled := Rebuild(m.replicaAddrs, dialable);
      if r.Err? {
        LockstepAfterFailure(primary.url, pooled, m, dialable, r.error.index);
        return;
      }
      forall e | e in kept ensures e.url in old(UrlsOf(replicas)) { InUrls(old(replicas), e); }
      replicas := next;
      router.UpdateMembership(EndpointAddrs(m));
      AlignedAfterRefresh(old(router.endpoints), m, next);
      membership := m;
    }

    /** The rebuild loop; `this.replicas` is drained as it goes. */
    method Rebuild(advertised: seq<string>, dialable: set<string>)
      returns (r: Result<(), RefreshError>, next: seq<Endpoint>,
               ghost kept: seq<Endpoint>, ghost dialled: seq<Endpoint>)
      modifies this`replicas
      ensures r != Err(PrimaryDiffers)
      ensures r.Ok? <==> AllObtainable(old(UrlsOf(replicas)), dialable, advertised)
      ensures r.Err? ==> FailsAt(old(UrlsOf(replicas)), dialable, advertised, r.error.index)
      ensures multiset(old(replicas)) == multiset(replicas) + multiset(kept)
      ensures multiset(next) == multiset(kept) + multiset(dialled)
      ensures |old(replicas)| == |replicas| + |kept|
      ensures forall e :: e in kept ==> e in old(replicas)
      ensures forall e :: e in next ==> e in kept || e in dialled
      ensures forall e :: e in dialled ==> fresh(e) && e.url !in old(UrlsOf(replicas))
      ensures kept == [] ==> replicas == old(replicas)
      ensures UrlsOf(replicas) ==
              Drain(old(UrlsOf(replicas)), if r.Ok? then advertised else advertised[..r.error.index])
      ensures r.Ok? ==> (UrlsOf(next) == advertised <==> Affordable(old(UrlsOf(replicas)), advertised))
      ensures r.Err? ==> r.error.index < |advertised|
      ensures r.Err? ==>
                (kept == [] <==> forall j :: 0 <= j < r.error.index ==> advertised[j] !in old(UrlsOf(replicas)))
    {
      hide Left, Affordable, Count, Conserved, UrlsOf, Drain, Without;
      var currentUrls := UrlsOf(replicas);
      next, kept, dialled := [], [], [];
      ghost var missing := 0;
      LeftStart(currentUrls);
      ConservedStart(replicas);
      assert advertised[..0] == [];
      DrainStart(currentUrls);
      for i := 0 to |advertised|
        invariant Conserved(old(replicas), replicas, next, kept, dialled)
        invariant forall j :: 0 <= j < i ==> Obtainable(currentUrls, dialable, advertised[j])
        invariant forall e :: e in dialled ==> fresh(e) && e.url !in currentUrls
        invariant kept == [] ==> replicas == old(replicas)
        invariant UrlsOf(replicas) == Drain(currentUrls, advertised[..i])
        invariant kept == [] <==> forall j :: 0 <= j < i ==> advertised[j] !in currentUrls
        invariant |next| + missing == i
        invariant missing == 0 ==> UrlsOf(next) == advertised[..i]
        invariant Left(currentUrls, UrlsOf(replicas), advertised[..i])
        invariant missing == 0 <==> Affordable(currentUrls, advertised[..i])
      {
        var url := advertised[i];
        assert advertised[..i + 1] == advertised[..i] + [url];
        ghost var before := replicas;
        DrainNext(currentUrls, advertised, i);
        if url in currentUrls {
          PooledCount(currentUrls, url);
          var known := TakeKnown(url);
          LeftTaken(currentUrls, UrlsOf(before), UrlsOf(replicas), advertised, i, known.Some?);
          if known.Some? {
            ConservedByMove(old(replicas), before, replicas, next, kept, dialled, known.value);
            next := next + [known.value];
            kept := kept + [known.value];
          } else {
            missing := missing + 1;
          }
        } else {
          LeftUntouched(currentUrls, UrlsOf(before), advertised, i);
          var ep := Connect(url, dialable);
          if ep.None? {
            assert FailsAt(currentUrls, dialable, advertised, i) && advertised[i] in advertised;
            ConservedMeans(old(replicas), replicas, next, kept, dialled);
            return Err(DialFailed(i)), next, kept, dialled;
          }
          ConservedByDial(old(replicas), replicas, next, kept, dialled, ep.value);
          next := next + [ep.value];
          dialled := dialled + [ep.value];
        }
      }
      assert advertised[..|advertised|] == advertised;
      ConservedMeans(old(replicas), replicas, next, kept, dialled);
      r := Ok(());
    }
  }

  /** Lockstep lost: the pool holds "a", the advertisement names "a" and "b", and
      nothing can be dialled.  The endpoint for "a" is gone, the router keeps it. */
  method LockstepIsLost() returns (client: GrpcClient, r: Result<(), RefreshError>)
    ensures r == Err(DialFailed(1))
    ensures |client.router.endpoints| == 2 && client.replicas == [] && !client.Aligned()
  {
    hide R.Refreshed, Affordable, KeepsLockstep;
    var primary := new Endpoint("p");
    var a := new Endpoint("a");
    var router := new RR.HealthAwareRouter(["p", "a"], 3, false);
    client := new GrpcClient(primary, router, [a], Membership("p", ["a"]));
    assert client.Aligned();
    var m := Membership("p", ["a", "b"]);
    assert UrlsOf([a]) == ["a"];
    assert FailsAt(["a"], {}, m.replicaAddrs, 1) && "b" in m.replicaAddrs;
    ghost var kept, dialled;
    r, kept, dialled := client.ApplyMembership(m, {});
    FailsAtOnce(["a"], {}, m.replicaAddrs, r.error.index, 1);
    assert m.replicaAddrs[0] in ["a"];
    SameSize([a], client.replicas, kept);
  }

  /** The old pool is what is left plus what was kept, and the new pool is what
      was kept plus what was dialled. */
  ghost predicate Conserved(before: seq<Endpoint>, now: seq<Endpoint>, next: seq<Endpoint>,
                            kept: seq<Endpoint>, dialled: seq<Endpoint>)
  {
    multiset(before) == multiset(now) + multiset(kept) && multiset(next) == multiset(kept) + multiset(dialled)
  }

  lemma ConservedStart(before: seq<Endpoint>)
    ensures Conserved(before, before, [], [], []) && UrlsOf([]) == []
  {
  }

  lemma ConservedByMove(before: seq<Endpoint>, now: seq<Endpoint>, after: seq<Endpoint>, next: seq<Endpoint>,
                        kept: seq<Endpoint>, dialled: seq<Endpoint>, ep: Endpoint)
    requires Conserved(before, now, next, kept, dialled) && multiset(now) == multiset(after) + multiset{ep}
    ensures Conserved(before, after, next + [ep], kept + [ep], dialled)
    ensures UrlsOf(next + [ep]) == UrlsOf(next) + [ep.url]
  {
  }

  lemma ConservedByDial(before: seq<Endpoint>, now: seq<Endpoint>, next: seq<Endpoint>,
                        kept: seq<Endpoint>, dialled: seq<Endpoint>, ep: Endpoint)
    requires Conserved(before, now, next, kept, dialled)
    ensures Conserved(before, now, next + [ep], kept, dialled + [ep])
    ensures UrlsOf(next + [ep]) == UrlsOf(next) + [ep.url]
  {
  }

  lemma ConservedMeans(before: seq<Endpoint>, now: seq<Endpoint>, next: seq<Endpoint>,
                       kept: seq<Endpoint>, dialled: seq<Endpoint>)
    requires Conserved(before, now, next, kept, dialled)
    ensures multiset(before) == multiset(now) + multiset(kept) && multiset(next) == multiset(kept) + multiset(dialled)
    ensures forall e :: e in kept ==> e in before
    ensures forall e :: e in next ==> e in kept || e in dialled
    ensures |before| == |now| + |kept|
  {
    SameSize(before, now, kept);
    forall e | e in kept ensures e in before {
      assert e in multiset(kept) && e in multiset(before);
    }
    forall e | e in next ensures e in kept || e in dialled {
      assert e in multiset(next);
    }
  }

  /** What remains of each pooled url after some advertisements were served. */
  ghost predicate Left(pooled: seq<string>, now: seq<string>, served: seq<string>) {
    forall url :: url in pooled ==>
      Count(now, url) == if Count(served, url) <= Count(pooled, url) then Count(pooled, url) - Count(served, url) else 0
  }

  lemma LeftStart(pooled: seq<string>)
    ensures Left(pooled, pooled, []) && Affordable(pooled, [])
  {
  }

  /** Serving one more advertisement of a pooled url. */
  lemma LeftTaken(pooled: seq<string>, before: seq<string>, after: seq<string>, advertised: seq<string>,
                  i: nat, taken: bool)
    requires i < |advertised| && advertised[i] in pooled && Left(pooled, before, advertised[..i])
    requires if taken then multiset(before) == multiset(after) + multiset{advertised[i]}
             else before == after && Count(after, advertised[i]) == 0
    ensures Left(pooled, after, advertised[..i + 1])
    ensures Affordable(pooled, advertised[..i + 1]) <==> Affordable(pooled, advertised[..i]) && taken
  {
    var url := advertised[i];
    forall u ensures Count(before, u) == Count(after, u) + (if taken && u == url then 1 else 0) { }
    CountsAppend(advertised, i);
    AffordableStep(pooled, before, advertised, i);
    assert taken ==> Count(before, url) > 0;
  }

  lemma LeftUntouched(pooled: seq<string>, now: seq<string>, advertised: seq<string>, i: nat)
    requires i < |advertised| && advertised[i] !in pooled && Left(pooled, now, advertised[..i])
    ensures Left(pooled, now, advertised[..i + 1])
    ensures Affordable(pooled, advertised[..i + 1]) <==> Affordable(pooled, advertised[..i])
  {
    hide Count;
    CountsAppend(advertised, i);
  }

  lemma CountsAppend(urls: seq<string>, i: nat)
    requires i < |urls|
    ensures forall url :: Count(urls[..i + 1], url) == Count(urls[..i], url) + (if urls[i] == url then 1 else 0)
  {
    hide Count;
    forall url ensures Count(urls[..i + 1], url) == Count(urls[..i], url) + (if urls[i] == url then 1 else 0) {
      CountAppend(urls, i, url);
    }
  }

  lemma AffordableStep(pooled: seq<string>, now: seq<string>, advertised: seq<string>, i: nat)
    requires i < |advertised| && advertised[i] in pooled && Left(pooled, now, advertised[..i])
    ensures Affordable(pooled, advertised[..i + 1]) <==>
            Affordable(pooled, advertised[..i]) && Count(now, advertised[i]) > 0
  {
    hide Count;
    CountsAppend(advertised, i);
  }

  lemma InUrls(eps: seq<Endpoint>, e: Endpoint)
    requires e in eps
    ensures e.url in UrlsOf(eps)
  {
    var i :| 0 <= i < |eps| && eps[i] == e;
    assert UrlsOf(eps)[i] == e.url;
  }

  lemma SameSize(before: seq<Endpoint>, after: seq<Endpoint>, kept: seq<Endpoint>)
    requires multiset(before) == multiset(after) + multiset(kept)
    ensures |before| == |after| + |kept|
  {
    assert |multiset(before)| == |before| && |multiset(after)| == |after| && |multiset(kept)| == |kept|;
  }
}
