/** Causal reads over whole runs of a primary/replica system: commits, replica
    progress, rebuilds that throw data away, advertisements in flight, client
    refreshes, and reads routed in steps while all of that goes on. */
module CausalProtocol {
  import opened Prelude
  import opened CausalRouting

  type Snapshot = seq<ReplicaInfo>

  /** How far a read has come: an address has been chosen for it, then a node has
      been looked up for that address, none meaning the primary. */
  datatype Phase = Waiting | Chosen(addr: string) | Dialled(node: Option<string>)

  /** A read in progress: the table it was started with and its bookmark. */
  datatype Route = Route(table: Snapshot, lsn: nat, target: Option<nat>, phase: Phase)

  /** A read that was served: what it asked for and what its node had applied. */
  datatype Served = Served(lsn: nat, frontier: nat)

  datatype System = System(
    committed: nat,                // the primary's log
    applied: map<string, nat>,     // each replica's contiguous applied frontier
    held: Snapshot,                // the membership the client holds
    pool: set<string>,             // the replicas the client has dialled
    inflight: seq<Snapshot>,       // advertisements on their way, oldest first
    routes: seq<Route>,            // reads in progress, oldest first
    served: seq<Served>)

  const PRIMARY := Endpoint("primary", "")

  // ------------------------------------------------------------ environment

  /** r may be discarding its data as far as this snapshot tells. */
  predicate Marks(snapshot: Snapshot, r: string) {
    forall i :: 0 <= i < |snapshot| && snapshot[i].addr == r ==> snapshot[i].rebootstrapping
  }

  /** No entry claims more than its replica has applied. */
  predicate Truthful(snapshot: Snapshot, applied: map<string, nat>) {
    forall i :: 0 <= i < |snapshot| ==>
      snapshot[i].addr in applied && snapshot[i].lastAppliedLsn <= applied[snapshot[i].addr]
  }

  /** Which snapshots must mark a replica before it may throw data away, and
      whether the client takes advertisements in the order they were made. */
  datatype Policy = Policy(held: bool, inflight: bool, table: bool, inOrder: bool)

  predicate MayDrop(p: Policy, s: System, r: string) {
    && (p.held ==> Marks(s.held, r))
    && (p.inflight ==> forall i :: 0 <= i < |s.inflight| ==> Marks(s.inflight[i], r))
    && (p.table ==> forall i :: 0 <= i < |s.routes| ==> Marks(s.routes[i].table, r))
  }

  datatype Step =
    | Commit
    | Progress(r: string, to: nat)
    | Drop(r: string, to: nat)
    | Advertise(ad: Snapshot)
    | Refresh(k: nat, pool: set<string>)
    | Begin(lsn: nat, region: Option<string>)
    | ChooseTarget(i: nat)
    | ChooseCaughtUp(i: nat)
    | ChooseFallback(i: nat)
    | Dial(i: nat)
    | Serve(i: nat)

  // ----------------------------------------------------------------- client

  /** What the waiter reads for an address: the frontier in the membership held
      now, whether or not the entry is marked. */
  function PolledFrontier(held: Snapshot, addr: string): nat {
    if held == [] then 0
    else if held[0].addr == addr then held[0].lastAppliedLsn
    else PolledFrontier(held[1..], addr)
  }

  /** Entry k is the first with this address. */
  predicate FirstEntry(held: Snapshot, addr: string, k: nat) {
    k < |held| && held[k].addr == addr && forall j :: 0 <= j < k ==> held[j].addr != addr
  }

  /** A poll reads the first entry with the address, and nothing without one. */
  lemma {:induction false} PollExactly(held: Snapshot, addr: string)
    ensures forall k: nat :: FirstEntry(held, addr, k) ==> PolledFrontier(held, addr) == held[k].lastAppliedLsn
    ensures (forall k :: 0 <= k < |held| ==> held[k].addr != addr) ==> PolledFrontier(held, addr) == 0
    decreases |held|
  {
    if held != [] && held[0].addr != addr {
      PollExactly(held[1..], addr);
      forall k: nat | FirstEntry(held, addr, k) ensures PolledFrontier(held, addr) == held[k].lastAppliedLsn {
        assert FirstEntry(held[1..], addr, k - 1);
      }
    }
  }

  /** The membership lists the address, and its first entry is at or past lsn. */
  ghost predicate ListedPast(held: Snapshot, addr: string, lsn: nat) {
    exists k: nat :: FirstEntry(held, addr, k) && held[k].lastAppliedLsn >= lsn
  }

  lemma {:induction false} SomeFirstEntry(held: Snapshot, addr: string, n: nat) returns (k: nat)
    requires n < |held| && held[n].addr == addr
    ensures FirstEntry(held, addr, k)
    decreases n
  {
    k := n;
    if j: nat :| j < n && held[j].addr == addr { k := SomeFirstEntry(held, addr, j); }
  }

  lemma PollReaches(held: Snapshot, addr: string, lsn: nat)
    requires lsn > 0
    ensures PolledFrontier(held, addr) >= lsn <==> ListedPast(held, addr, lsn)
  {
    hide PolledFrontier;
    PollExactly(held, addr);
    if n: nat :| n < |held| && held[n].addr == addr {
      var k := SomeFirstEntry(held, addr, n);
      assert FirstEntry(held, addr, k);
    }
  }

  /** Routing one causal read with the client's own waiter: poll k reads the
      membership held by then.  The read waits exactly until the membership lists
      its target at or past the bookmark. */
  method RouteOverMemberships(table: RoutingTable, lsn: nat, opts: CausalReadOptions, advance: nat -> nat,
                              memberships: nat -> Snapshot, ghost lo: nat, ghost hi: nat)
    returns (d: RouteDecision, polls: nat)
    requires 0 < lo && forall k: nat {:trigger advance(k)} :: lo <= advance(k) <= hi
    ensures
      match PickTargetIndex(table, opts.preferredRegion)
      case None => polls == 0 && d == FallBack(table, lsn, None, 0)
      case Some(t) =>
        && t < |table.replicas|
        && var target := table.replicas[t];
        if target.lastAppliedLsn >= lsn then polls == 0 && d.kind == EligibleTarget
        else
          && (forall k: nat :: k < polls - 1 ==> !ListedPast(memberships(k), target.addr, lsn))
          && (if polls > 0 && ListedPast(memberships(polls - 1), target.addr, lsn)
              then d.kind == CaughtUpTarget && d.endpoint == Endpoint(target.addr, target.region)
              else d.waited >= opts.deadline && d == FallBack(table, lsn, None, d.waited))
  {
    hide PickTargetIndex, ListedPast, PolledFrontier;
    var waiter := new Waiter(advance, (k, addr) => PolledFrontier(memberships(k), addr));
    TargetIsBest(table, opts.preferredRegion);
    FallBackIsBest(table, lsn, None, 0);
    d := RouteCausalRead(table, lsn, opts, waiter, lo, hi);
    polls := |waiter.polled|;
    var t := PickTargetIndex(table, opts.preferredRegion);
    if t.Some? && table.replicas[t.value].lastAppliedLsn < lsn {
      var addr := table.replicas[t.value].addr;
      FallBackIsBest(table, lsn, None, waiter.elapsed);
      forall k: nat | k < polls
        ensures waiter.frontier(k, addr) >= lsn <==> ListedPast(memberships(k), addr, lsn)
      {
        PollReaches(memberships(k), addr, lsn);
      }
    }
  }

  function TableOf(snapshot: Snapshot): RoutingTable {
    RoutingTable(PRIMARY, snapshot)
  }

  /** Looks an address up in the pool; anything not pooled is the primary. */
  function LookUp(pool: set<string>, addr: string): Option<string> {
    if addr != PRIMARY.addr && addr in pool then Some(addr) else None
  }

  function Advance(s: System, i: nat, phase: Phase): System
    requires i < |s.routes|
  {
    s.(routes := s.routes[i := s.routes[i].(phase := phase)])
  }

  /** The node answers with what it has applied by then. */
  function Answer(s: System, i: nat, node: Option<string>): System
    requires i < |s.routes|
  {
    var frontier := if node.Some? && node.value in s.applied then s.applied[node.value] else s.committed;
    s.(routes := s.routes[..i] + s.routes[i + 1..], served := s.served + [Served(s.routes[i].lsn, frontier)])
  }

  predicate HasTarget(route: Route) {
    route.target.Some? && route.target.value < |route.table|
  }

  function Target(route: Route): ReplicaInfo
    requires HasTarget(route)
  {
    route.table[route.target.value]
  }

  function FallbackAddr(route: Route): string {
    FallBack(TableOf(route.table), route.lsn, route.target, 0).endpoint.addr
  }

  predicate Enabled(p: Policy, s: System, step: Step) {
    match step
    case Commit => true
    case Progress(r, to) => r in s.applied && s.applied[r] <= to <= s.committed
    case Drop(r, to) => r in s.applied && to <= s.applied[r] && MayDrop(p, s, r)
    case Advertise(ad) => Truthful(ad, s.applied)
    case Refresh(k, pool) => k < |s.inflight| && pool <= s.applied.Keys
    case Begin(lsn, region) => lsn <= s.committed
    case ChooseTarget(i) =>
      && i < |s.routes| && s.routes[i].phase.Waiting? && HasTarget(s.routes[i])
      && Target(s.routes[i]).lastAppliedLsn >= s.routes[i].lsn
    case ChooseCaughtUp(i) =>
      && i < |s.routes| && s.routes[i].phase.Waiting? && HasTarget(s.routes[i])
      && Target(s.routes[i]).lastAppliedLsn < s.routes[i].lsn
      && PolledFrontier(s.held, Target(s.routes[i]).addr) >= s.routes[i].lsn
    case ChooseFallback(i) =>
      && i < |s.routes| && s.routes[i].phase.Waiting?
      && (HasTarget(s.routes[i]) ==> Target(s.routes[i]).lastAppliedLsn < s.routes[i].lsn)
    case Dial(i) => i < |s.routes| && s.routes[i].phase.Chosen?
    case Serve(i) => i < |s.routes| && s.routes[i].phase.Dialled?
  }

  /** Which choices a read has, by index.  While it waits it may take its target
      at once exactly if its own table shows the target at or past the bookmark;
      otherwise it may give up on it, and it may take it as caught up exactly if
      the membership held now lists it at or past the bookmark. */
  lemma ChoicesExactly(p: Policy, s: System, i: nat)
    requires i < |s.routes|
    ensures
      var read := s.routes[i];
      var waits := read.phase.Waiting?;
      var hasTarget := read.target.Some? && read.target.value < |read.table|;
      && (Enabled(p, s, ChooseTarget(i)) <==>
            waits && hasTarget && read.table[read.target.value].lastAppliedLsn >= read.lsn)
      && (Enabled(p, s, ChooseCaughtUp(i)) <==>
            && waits && hasTarget && read.table[read.target.value].lastAppliedLsn < read.lsn
            && ListedPast(s.held, read.table[read.target.value].addr, read.lsn))
      && (Enabled(p, s, ChooseFallback(i)) <==>
            waits && !(hasTarget && read.table[read.target.value].lastAppliedLsn >= read.lsn))
      && (Enabled(p, s, Dial(i)) <==> read.phase.Chosen?)
      && (Enabled(p, s, Serve(i)) <==> read.phase.Dialled?)
  {
    hide PolledFrontier, ListedPast;
    var read := s.routes[i];
    if HasTarget(read) && Target(read).lastAppliedLsn < read.lsn { PollReaches(s.held, Target(read).addr, read.lsn); }
  }

  function Next(p: Policy, s: System, step: Step): System
    requires Enabled(p, s, step)
  {
    match step
    case Commit => s.(committed := s.committed + 1)
    case Progress(r, to) => s.(applied := s.applied[r := to])
    case Drop(r, to) => s.(applied := s.applied[r := to])
    case Advertise(ad) => s.(inflight := s.inflight + [ad])
    case Refresh(k, pool) =>
      s.(held := s.inflight[k], pool := pool,
         inflight := if p.inOrder then s.inflight[k + 1..] else s.inflight[..k] + s.inflight[k + 1..])
    case Begin(lsn, region) =>
      s.(routes := s.routes + [Route(s.held, lsn, PickTargetIndex(TableOf(s.held), region), Waiting)])
    case ChooseTarget(i) => Advance(s, i, Chosen(Target(s.routes[i]).addr))
    case ChooseCaughtUp(i) => Advance(s, i, Chosen(Target(s.routes[i]).addr))
    case ChooseFallback(i) => Advance(s, i, Chosen(FallbackAddr(s.routes[i])))
    case Dial(i) => Advance(s, i, Dialled(LookUp(s.pool, s.routes[i].phase.addr)))
    case Serve(i) => Answer(s, i, s.routes[i].phase.node)
  }

  predicate Initial(s: System) {
    && (forall r :: r in s.applied ==> s.applied[r] <= s.committed)
    && Truthful(s.held, s.applied)
    && s.pool <= s.applied.Keys
    && s.inflight == [] && s.routes == [] && s.served == []
  }

  /** The steps can be taken one after the other. */
  predicate IsRun(p: Policy, s: System, steps: seq<Step>)
    decreases |steps|
  {
    steps == [] || (Enabled(p, s, steps[0]) && IsRun(p, Next(p, s, steps[0]), steps[1..]))
  }

  function Run(p: Policy, s: System, steps: seq<Step>): System
    requires IsRun(p, s, steps)
    decreases |steps|
  {
    if steps == [] then s else Run(p, Next(p, s, steps[0]), steps[1..])
  }

  /** Every read was served by a node past its bookmark. */
  predicate Causal(s: System) {
    forall i :: 0 <= i < |s.served| ==> s.served[i].frontier >= s.served[i].lsn
  }

  // ----------------------------------------------------------------- safety

  function Tables(routes: seq<Route>): (tables: seq<Snapshot>)
    ensures |tables| == |routes|
  {
    seq(|routes|, i requires 0 <= i < |routes| => routes[i].table)
  }

  /** The snapshots that can still influence a read, oldest first. */
  function Chain(s: System): (chain: seq<Snapshot>)
    ensures |chain| == |s.routes| + 1 + |s.inflight|
  {
    Tables(s.routes) + [s.held] + s.inflight
  }

  /** Wherever a snapshot shows r unmarked, it and every later snapshot are
      truthful about r: r cannot have dropped since. */
  predicate ChainSafe(chain: seq<Snapshot>, applied: map<string, nat>) {
    forall i, j, r :: 0 <= i <= j < |chain| && r in applied && !Marks(chain[i], r) ==>
      TruthfulAbout(chain[j], r, applied)
  }

  predicate TruthfulAbout(snapshot: Snapshot, r: string, applied: map<string, nat>) {
    forall k :: 0 <= k < |snapshot| && snapshot[k].addr == r ==>
      r in applied && snapshot[k].lastAppliedLsn <= applied[r]
  }

  predicate Known(chain: seq<Snapshot>, applied: map<string, nat>) {
    forall i, k :: 0 <= i < |chain| && 0 <= k < |chain[i]| ==> chain[i][k].addr in applied
  }

  predicate RouteOk(route: Route, committed: nat) {
    && route.lsn <= committed
    && (route.target.Some? ==> route.target.value < |route.table| && Servable(route.table[route.target.value]))
  }

  /** The replica has applied the bookmark and cannot drop while the read's table
      shows it unmarked. */
  predicate Covers(route: Route, applied: map<string, nat>, r: string) {
    r in applied && applied[r] >= route.lsn && !Marks(route.table, r)
  }

  predicate PhaseOk(route: Route, applied: map<string, nat>) {
    match route.phase
    case Waiting => true
    case Chosen(addr) => addr == PRIMARY.addr || Covers(route, applied, addr)
    case Dialled(node) => node.Some? ==> Covers(route, applied, node.value)
  }

  predicate Invariant(s: System) {
    && (forall r :: r in s.applied ==> s.applied[r] <= s.committed)
    && s.pool <= s.applied.Keys
    && Known(Chain(s), s.applied)
    && ChainSafe(Chain(s), s.applied)
    && (forall i :: 0 <= i < |s.routes| ==> RouteOk(s.routes[i], s.committed) && PhaseOk(s.routes[i], s.applied))
    && Causal(s)
  }

  const STRICT := Policy(true, true, true, true)

  lemma InitialInvariant(s: System)
    requires Initial(s)
    ensures Invariant(s)
  {
    assert Chain(s) == [s.held];
  }

  lemma TruthfulEverywhere(snapshot: Snapshot, applied: map<string, nat>, r: string)
    requires Truthful(snapshot, applied)
    ensures TruthfulAbout(snapshot, r, applied)
  {
  }

  /** More progress never makes a snapshot untruthful. */
  lemma ProgressKeepsChain(chain: seq<Snapshot>, applied: map<string, nat>, r: string, to: nat)
    requires ChainSafe(chain, applied) && Known(chain, applied) && r in applied && applied[r] <= to
    ensures ChainSafe(chain, applied[r := to]) && Known(chain, applied[r := to])
  {
    hide Marks;
    var after := applied[r := to];
    forall i, j, q | 0 <= i <= j < |chain| && q in after && !Marks(chain[i], q)
      ensures TruthfulAbout(chain[j], q, after)
    {
      assert TruthfulAbout(chain[j], q, applied);
    }
  }

  /** A drop that every snapshot marks touches nothing the chain relies on. */
  lemma DropKeepsChain(chain: seq<Snapshot>, applied: map<string, nat>, r: string, to: nat)
    requires ChainSafe(chain, applied) && Known(chain, applied) && r in applied
    requires forall i :: 0 <= i < |chain| ==> Marks(chain[i], r)
    ensures ChainSafe(chain, applied[r := to]) && Known(chain, applied[r := to])
  {
    hide Marks;
    var after := applied[r := to];
    forall i, j, q | 0 <= i <= j < |chain| && q in after && !Marks(chain[i], q)
      ensures TruthfulAbout(chain[j], q, after)
    {
      assert q != r;
      assert TruthfulAbout(chain[j], q, applied);
    }
  }

  lemma AdvertiseKeepsChain(chain: seq<Snapshot>, applied: map<string, nat>, ad: Snapshot)
    requires ChainSafe(chain, applied) && Known(chain, applied) && Truthful(ad, applied)
    ensures ChainSafe(chain + [ad], applied) && Known(chain + [ad], applied)
  {
    hide Marks;
    var after := chain + [ad];
    forall i, j, q | 0 <= i <= j < |after| && q in applied && !Marks(after[i], q)
      ensures TruthfulAbout(after[j], q, applied)
    {
      if j == |chain| { TruthfulEverywhere(ad, applied, q); }
    }
  }

  /** Forgetting snapshots, or repeating the first, keeps a chain safe. */
  lemma SubchainIsSafe(chain: seq<Snapshot>, applied: map<string, nat>, from: nat, to: nat)
    requires ChainSafe(chain, applied) && Known(chain, applied) && from <= to <= |chain|
    ensures ChainSafe(chain[..from] + chain[to..], applied) && Known(chain[..from] + chain[to..], applied)
  {
    hide Marks, TruthfulAbout;
    var after := chain[..from] + chain[to..];
    forall i, j, q | 0 <= i <= j < |after| && q in applied && !Marks(after[i], q)
      ensures TruthfulAbout(after[j], q, applied)
    {
      var i', j' := if i < from then i else i - from + to, if j < from then j else j - from + to;
      assert after[i] == chain[i'] && after[j] == chain[j'];
    }
    forall i, k | 0 <= i < |after| && 0 <= k < |after[i]| ensures after[i][k].addr in applied {
      var i' := if i < from then i else i - from + to;
      assert after[i] == chain[i'];
    }
  }

  lemma RepeatIsSafe(chain: seq<Snapshot>, applied: map<string, nat>, h: nat)
    requires ChainSafe(chain, applied) && Known(chain, applied) && h < |chain|
    ensures ChainSafe(chain[..h + 1] + chain[h..], applied) && Known(chain[..h + 1] + chain[h..], applied)
  {
    hide Marks, TruthfulAbout;
    var after := chain[..h + 1] + chain[h..];
    forall i, j, q | 0 <= i <= j < |after| && q in applied && !Marks(after[i], q)
      ensures TruthfulAbout(after[j], q, applied)
    {
      var i', j' := if i <= h then i else i - 1, if j <= h then j else j - 1;
      assert after[i] == chain[i'] && after[j] == chain[j'];
    }
    forall i, k | 0 <= i < |after| && 0 <= k < |after[i]| ensures after[i][k].addr in applied {
      var i' := if i <= h then i else i - 1;
      assert after[i] == chain[i'];
    }
  }

  /** A servable entry of an active table has really applied what any current
      snapshot, marked or not, says about it. */
  lemma TableEntryIsSafe(s: System, i: nat, t: nat)
    requires Invariant(s) && i < |s.routes| && t < |s.routes[i].table| && Servable(s.routes[i].table[t])
    ensures
      var r := s.routes[i].table[t];
      && r.addr in s.applied
      && r.lastAppliedLsn <= s.applied[r.addr]
      && PolledFrontier(s.held, r.addr) <= s.applied[r.addr]
      && !Marks(s.routes[i].table, r.addr)
  {
    hide Causal, RouteOk, PhaseOk;
    var chain := Chain(s);
    var r := s.routes[i].table[t];
    assert chain[i] == s.routes[i].table && chain[|s.routes|] == s.held;
    assert chain[i][t].addr in s.applied;
    assert !Marks(chain[i], r.addr);
    assert TruthfulAbout(chain[i], r.addr, s.applied);
    assert TruthfulAbout(chain[|s.routes|], r.addr, s.applied);
    PolledIsTruthful(s.held, r.addr, s.applied);
  }

  lemma {:induction false} PolledIsTruthful(held: Snapshot, addr: string, applied: map<string, nat>)
    requires addr in applied && TruthfulAbout(held, addr, applied)
    ensures PolledFrontier(held, addr) <= applied[addr]
    decreases |held|
  {
    if held != [] && held[0].addr != addr {
      assert forall k :: 0 <= k < |held[1..]| ==> held[1..][k] == held[k + 1];
      PolledIsTruthful(held[1..], addr, applied);
    }
  }

  lemma AdvanceKeepsInvariant(s: System, i: nat, phase: Phase)
    requires Invariant(s) && i < |s.routes| && PhaseOk(s.routes[i].(phase := phase), s.applied)
    ensures Invariant(Advance(s, i, phase))
  {
    hide ChainSafe, Known, PhaseOk;
    assert Chain(Advance(s, i, phase)) == Chain(s);
  }

  lemma AnswerKeepsInvariant(s: System, i: nat)
    requires Invariant(s) && i < |s.routes| && s.routes[i].phase.Dialled?
    ensures Invariant(Answer(s, i, s.routes[i].phase.node))
  {
    hide ChainSafe, Known, Marks;
    var chain := Chain(s);
    assert PhaseOk(s.routes[i], s.applied) && RouteOk(s.routes[i], s.committed);
    SubchainIsSafe(chain, s.applied, i, i + 1);
    assert chain[..i] + chain[i + 1..] == Chain(Answer(s, i, s.routes[i].phase.node));
  }

  lemma FallbackIsSafe(s: System, i: nat)
    requires Invariant(s) && i < |s.routes|
    ensures
      var addr := FallbackAddr(s.routes[i]);
      addr == PRIMARY.addr || Covers(s.routes[i], s.applied, addr)
  {
    hide ChainSafe, Known, Causal, FirstFrom, Marks, PhaseOk;
    var route := s.routes[i];
    assert RouteOk(route, s.committed);
    var found := FirstFrom(route.table, 0, route.target, r => Eligible(r, route.lsn));
    if found.Some? { TableEntryIsSafe(s, i, found.value); }
  }

  /** Steps of the primary and the replicas, and advertisements. */
  lemma EnvironmentKeepsInvariant(s: System, step: Step)
    requires Invariant(s) && Enabled(STRICT, s, step)
    requires step.Commit? || step.Progress? || step.Drop? || step.Advertise?
    ensures Invariant(Next(STRICT, s, step))
  {
    hide ChainSafe, Known, Marks, Truthful;
    var chain := Chain(s);
    var after := Next(STRICT, s, step);
    match step
    case Commit => assert Chain(after) == chain;
    case Progress(r, to) =>
      ProgressKeepsChain(chain, s.applied, r, to);
      forall i | 0 <= i < |s.routes| ensures PhaseOk(s.routes[i], after.applied) {
        assert PhaseOk(s.routes[i], s.applied);
      }
      assert Chain(after) == chain;
    case Drop(r, to) =>
      forall i | 0 <= i < |chain| ensures Marks(chain[i], r) { MarkedInChain(s, r, i); }
      DropKeepsChain(chain, s.applied, r, to);
      forall i | 0 <= i < |s.routes| ensures PhaseOk(s.routes[i], after.applied) {
        assert PhaseOk(s.routes[i], s.applied) && Marks(s.routes[i].table, r);
      }
      assert Chain(after) == chain;
    case Advertise(ad) =>
      AdvertiseKeepsChain(chain, s.applied, ad);
      assert Chain(after) == chain + [ad];
  }

  lemma MarkedInChain(s: System, r: string, i: nat)
    requires MayDrop(STRICT, s, r) && i < |Chain(s)|
    ensures Marks(Chain(s)[i], r)
  {
    hide Marks;
  }

  lemma RefreshKeepsInvariant(s: System, k: nat, pool: set<string>)
    requires Invariant(s) && Enabled(STRICT, s, Refresh(k, pool))
    ensures Invariant(Next(STRICT, s, Refresh(k, pool)))
  {
    hide ChainSafe, Known, RouteOk, PhaseOk;
    var chain := Chain(s);
    var h := |s.routes|;
    SubchainIsSafe(chain, s.applied, h, h + 1 + k);
    assert Chain(Next(STRICT, s, Refresh(k, pool))) == chain[..h] + chain[h + 1 + k..];
  }

  lemma BeginKeepsInvariant(s: System, lsn: nat, region: Option<string>)
    requires Invariant(s) && Enabled(STRICT, s, Begin(lsn, region))
    ensures Invariant(Next(STRICT, s, Begin(lsn, region)))
  {
    hide ChainSafe, Known, PickTargetIndex;
    var chain := Chain(s);
    var h := |s.routes|;
    RepeatIsSafe(chain, s.applied, h);
    assert Chain(Next(STRICT, s, Begin(lsn, region))) == chain[..h + 1] + chain[h..];
    TargetIsBest(TableOf(s.held), region);
  }

  lemma TargetIsSafe(s: System, i: nat)
    requires Invariant(s) && i < |s.routes| && HasTarget(s.routes[i])
    requires
      || Target(s.routes[i]).lastAppliedLsn >= s.routes[i].lsn
      || PolledFrontier(s.held, Target(s.routes[i]).addr) >= s.routes[i].lsn
    ensures Covers(s.routes[i], s.applied, Target(s.routes[i]).addr)
  {
    hide ChainSafe, Known, Causal, PolledFrontier, PhaseOk, Marks;
    assert RouteOk(s.routes[i], s.committed);
    TableEntryIsSafe(s, i, s.routes[i].target.value);
  }

  lemma DialIsSafe(s: System, i: nat)
    requires Invariant(s) && i < |s.routes| && s.routes[i].phase.Chosen?
    ensures Invariant(Advance(s, i, Dialled(LookUp(s.pool, s.routes[i].phase.addr))))
  {
    hide ChainSafe, Known, Causal, Marks, RouteOk;
    assert PhaseOk(s.routes[i], s.applied);
    AdvanceKeepsInvariant(s, i, Dialled(LookUp(s.pool, s.routes[i].phase.addr)));
  }

  /** Every step keeps the invariant, with any number of reads in progress. */
  lemma StepKeepsInvariant(s: System, step: Step)
    requires Invariant(s) && Enabled(STRICT, s, step)
    ensures Invariant(Next(STRICT, s, step))
  {
    hide Invariant, Advance, Answer, LookUp, PolledFrontier, FallbackAddr, Covers;
    match step
    case Commit => EnvironmentKeepsInvariant(s, step);
    case Progress(r, to) => EnvironmentKeepsInvariant(s, step);
    case Drop(r, to) => EnvironmentKeepsInvariant(s, step);
    case Advertise(ad) => EnvironmentKeepsInvariant(s, step);
    case Refresh(k, pool) => RefreshKeepsInvariant(s, k, pool);
    case Begin(lsn, region) => BeginKeepsInvariant(s, lsn, region);
    case ChooseTarget(i) =>
      TargetIsSafe(s, i);
      ChosenIsSafe(s, i, Target(s.routes[i]).addr);
    case ChooseCaughtUp(i) =>
      TargetIsSafe(s, i);
      ChosenIsSafe(s, i, Target(s.routes[i]).addr);
    case ChooseFallback(i) =>
      FallbackIsSafe(s, i);
      ChosenIsSafe(s, i, FallbackAddr(s.routes[i]));
    case Dial(i) => DialIsSafe(s, i);
    case Serve(i) => AnswerKeepsInvariant(s, i);
  }

  lemma ChosenIsSafe(s: System, i: nat, addr: string)
    requires Invariant(s) && i < |s.routes| && (addr == PRIMARY.addr || Covers(s.routes[i], s.applied, addr))
    ensures Invariant(Advance(s, i, Chosen(addr)))
  {
    hide Invariant, Advance;
    AdvanceKeepsInvariant(s, i, Chosen(addr));
  }

  lemma {:induction false} RunKeepsInvariant(s: System, steps: seq<Step>)
    requires Invariant(s) && IsRun(STRICT, s, steps)
    ensures Invariant(Run(STRICT, s, steps))
    decreases |steps|
  {
    hide Invariant, Enabled, Next;
    if steps != [] {
      StepKeepsInvariant(s, steps[0]);
      RunKeepsInvariant(Next(STRICT, s, steps[0]), steps[1..]);
    }
  }

  // --------------------------------------------------------- exact condition

  /** Every run from every initial state serves only causal reads. */
  ghost predicate SafeUnder(p: Policy) {
    forall s, steps :: Initial(s) && IsRun(p, s, steps) ==> Causal(Run(p, s, steps))
  }

  lemma StrictIsSafe()
    ensures SafeUnder(STRICT)
  {
    hide Initial, IsRun, Run;
    forall s, steps | Initial(s) && IsRun(STRICT, s, steps) ensures Causal(Run(STRICT, s, steps)) {
      InitialInvariant(s);
      RunKeepsInvariant(s, steps);
    }
  }

  lemma RunLast(p: Policy, s: System, steps: seq<Step>, step: Step)
    requires IsRun(p, s, steps) && Enabled(p, Run(p, s, steps), step)
    ensures IsRun(p, s, steps + [step]) && Run(p, s, steps + [step]) == Next(p, Run(p, s, steps), step)
    decreases |steps|
  {
    hide Enabled, Next;
    if steps == [] {
      assert (steps + [step])[1..] == [];
    } else {
      RunLast(p, Next(p, s, steps[0]), steps[1..], step);
      assert (steps + [step])[1..] == steps[1..] + [step];
    }
  }

  /** A run under construction has reached a state. */
  ghost predicate Reached(p: Policy, s: System) {
    exists start, steps :: Initial(start) && IsRun(p, start, steps) && Run(p, start, steps) == s
  }

  lemma ReachedInitially(p: Policy, s: System)
    requires Initial(s)
    ensures Reached(p, s)
  {
    hide Initial;
    assert IsRun(p, s, []) && Run(p, s, []) == s;
  }

  lemma ReachedNext(p: Policy, s: System, step: Step)
    requires Reached(p, s) && Enabled(p, s, step)
    ensures Reached(p, Next(p, s, step))
  {
    hide Initial, Enabled, Next;
    var start, steps :| Initial(start) && IsRun(p, start, steps) && Run(p, start, steps) == s;
    RunLast(p, start, steps, step);
  }

  lemma ReachedIsSafe(p: Policy, s: System)
    requires Reached(p, s) && !Causal(s)
    ensures !SafeUnder(p)
  {
    hide Initial, IsRun, Run, Causal;
  }

  function Entry(lsn: nat, marked: bool): ReplicaInfo {
    ReplicaInfo("r", "", true, lsn, marked)
  }

  /** A system with one replica, pooled by the client. */
  function One(committed: nat, applied: nat, held: ReplicaInfo, inflight: seq<Snapshot>, routes: seq<Route>): System {
    System(committed, map["r" := applied], [held], {"r"}, inflight, routes, [])
  }

  function Pending(lsn: nat): seq<Route> {
    [Route([Entry(lsn, false)], 10, Some(0), Waiting)]
  }

  lemma OneStarts(p: Policy, committed: nat, applied: nat, held: ReplicaInfo)
    requires held.addr == "r" && held.lastAppliedLsn <= applied <= committed
    ensures Reached(p, One(committed, applied, held, [], []))
  {
    hide Reached;
    ReachedInitially(p, One(committed, applied, held, [], []));
  }

  lemma OneProgresses(p: Policy, c: nat, applied: nat, held: ReplicaInfo, inflight: seq<Snapshot>,
                      routes: seq<Route>, to: nat)
    requires Reached(p, One(c, applied, held, inflight, routes)) && applied <= to <= c
    ensures Reached(p, One(c, to, held, inflight, routes))
  {
    hide Reached;
    var s := One(c, applied, held, inflight, routes);
    ReachedNext(p, s, Progress("r", to));
    assert s.applied["r" := to] == map["r" := to];
  }

  lemma OneDrops(p: Policy, c: nat, applied: nat, held: ReplicaInfo, inflight: seq<Snapshot>,
                 routes: seq<Route>, to: nat)
    requires Reached(p, One(c, applied, held, inflight, routes)) && to <= applied
    requires MayDrop(p, One(c, applied, held, inflight, routes), "r")
    ensures Reached(p, One(c, to, held, inflight, routes))
  {
    hide Reached, MayDrop;
    var s := One(c, applied, held, inflight, routes);
    ReachedNext(p, s, Drop("r", to));
    assert s.applied["r" := to] == map["r" := to];
  }

  lemma OneAdvertises(p: Policy, c: nat, applied: nat, held: ReplicaInfo, inflight: seq<Snapshot>,
                      routes: seq<Route>, e: ReplicaInfo)
    requires Reached(p, One(c, applied, held, inflight, routes)) && e.addr == "r" && e.lastAppliedLsn <= applied
    ensures Reached(p, One(c, applied, held, inflight + [[e]], routes))
  {
    hide Reached;
    ReachedNext(p, One(c, applied, held, inflight, routes), Advertise([e]));
  }

  /** The client takes the only advertisement under way. */
  lemma OneRefreshes(p: Policy, c: nat, applied: nat, held: ReplicaInfo, routes: seq<Route>, e: ReplicaInfo)
    requires Reached(p, One(c, applied, held, [[e]], routes))
    ensures Reached(p, One(c, applied, e, [], routes))
  {
    hide Reached;
    var s := One(c, applied, held, [[e]], routes);
    ReachedNext(p, s, Refresh(0, {"r"}));
    assert s.inflight[1..] == [] && s.inflight[..0] + s.inflight[1..] == [];
  }

  lemma OneBegins(p: Policy, c: nat, applied: nat, lsn: nat, inflight: seq<Snapshot>)
    requires Reached(p, One(c, applied, Entry(lsn, false), inflight, [])) && 10 <= c
    ensures Reached(p, One(c, applied, Entry(lsn, false), inflight, Pending(lsn)))
  {
    hide Reached;
    ReachedNext(p, One(c, applied, Entry(lsn, false), inflight, []), Begin(10, None));
    assert PickTargetIndex(TableOf([Entry(lsn, false)]), None) == Some(0);
    assert [] + Pending(lsn) == Pending(lsn);
  }

  /** The read is served by the replica, which is behind it. */
  lemma OneViolates(p: Policy, c: nat, applied: nat, held: ReplicaInfo, inflight: seq<Snapshot>, lsn: nat)
    requires Reached(p, One(c, applied, held, inflight, Pending(lsn))) && applied < 10
    requires held.addr == "r" && (lsn >= 10 || held.lastAppliedLsn >= 10)
    ensures !SafeUnder(p)
  {
    hide Reached, SafeUnder;
    var s := One(c, applied, held, inflight, Pending(lsn));
    ReachedNext(p, s, if lsn >= 10 then ChooseTarget(0) else ChooseCaughtUp(0));
    var chosen := Advance(s, 0, Chosen("r"));
    ReachedNext(p, chosen, Dial(0));
    var dialled := Advance(chosen, 0, Dialled(Some("r")));
    ReachedNext(p, dialled, Serve(0));
    var after := Answer(dialled, 0, Some("r"));
    assert after.served == [Served(10, applied)];
    assert after.served[0].frontier < after.served[0].lsn;
    ReachedIsSafe(p, after);
  }

  /** If data may be dropped while the held membership does not say so, the next
      read trusts the stale frontier. */
  lemma UnmarkedHeldIsUnsafe(p: Policy)
    requires !p.held
    ensures !SafeUnder(p)
  {
    hide Reached, SafeUnder;
    var held := Entry(10, false);
    OneStarts(p, 10, 10, held);
    OneDrops(p, 10, 10, held, [], [], 0);
    OneBegins(p, 10, 0, 10, []);
    OneViolates(p, 10, 0, held, [], 10);
  }

  /** If it may be dropped while an older advertisement that does not say so is
      still under way, that advertisement misleads the client later. */
  lemma UnmarkedInFlightIsUnsafe(p: Policy)
    requires !p.inflight
    ensures !SafeUnder(p)
  {
    hide Reached, SafeUnder;
    var held, ad := Entry(10, true), Entry(10, false);
    OneStarts(p, 10, 10, held);
    OneAdvertises(p, 10, 10, held, [], [], ad);
    assert [] + [[ad]] == [[ad]];
    OneDrops(p, 10, 10, held, [[ad]], [], 0);
    OneRefreshes(p, 10, 0, held, [], ad);
    OneBegins(p, 10, 0, 10, []);
    OneViolates(p, 10, 0, ad, [], 10);
  }

  /** If it may be dropped while a read that started earlier still waits for the
      replica, the waiter reads the discarded frontier from the marked entry and
      takes the replica for caught up. */
  lemma UnmarkedTableIsUnsafe(p: Policy)
    requires !p.table
    ensures !SafeUnder(p)
  {
    hide Reached, SafeUnder;
    var held, ad := Entry(5, false), Entry(12, true);
    OneStarts(p, 12, 5, held);
    OneBegins(p, 12, 5, 5, []);
    OneProgresses(p, 12, 5, held, [], Pending(5), 12);
    OneAdvertises(p, 12, 12, held, [], Pending(5), ad);
    assert [] + [[ad]] == [[ad]];
    OneRefreshes(p, 12, 12, held, Pending(5), ad);
    OneDrops(p, 12, 12, ad, [], Pending(5), 0);
    OneViolates(p, 12, 0, ad, [], 5);
  }

  /** If advertisements can be taken out of order, a late marked one brings a
      discarded frontier back to the waiter. */
  lemma OutOfOrderIsUnsafe(p: Policy)
    requires !p.inOrder
    ensures !SafeUnder(p)
  {
    hide Reached, SafeUnder;
    var late, ad := Entry(12, true), Entry(5, false);
    OneStarts(p, 12, 12, late);
    OneAdvertises(p, 12, 12, late, [], [], late);
    assert [] + [[late]] == [[late]];
    OneDrops(p, 12, 12, late, [[late]], [], 5);
    OneAdvertises(p, 12, 5, late, [[late]], [], ad);
    TakeSecond(p, 12, 5, late, late, ad);
    OneBegins(p, 12, 5, 5, [[late]]);
    OneRefreshes(p, 12, 5, ad, Pending(5), late);
    OneViolates(p, 12, 5, late, [], 5);
  }

  lemma TakeSecond(p: Policy, c: nat, applied: nat, held: ReplicaInfo, first: ReplicaInfo, second: ReplicaInfo)
    requires !p.inOrder && Reached(p, One(c, applied, held, [[first]] + [[second]], []))
    ensures Reached(p, One(c, applied, second, [[first]], []))
  {
    hide Reached;
    var s := One(c, applied, held, [[first]] + [[second]], []);
    ReachedNext(p, s, Refresh(1, {"r"}));
    assert s.inflight[..1] + s.inflight[2..] == [[first]];
  }

  /** Exactly when causal reads are safe over every run: a replica may drop data
      only once the held membership, every advertisement under way and the table
      of every read in progress all mark it, and the client must take
      advertisements in order.  Each of the four is needed. */
  lemma SafeExactly(p: Policy)
    ensures SafeUnder(p) <==> p.held && p.inflight && p.table && p.inOrder
  {
    hide SafeUnder;
    if p.held && p.inflight && p.table && p.inOrder {
      StrictIsSafe();
    } else if !p.held {
      UnmarkedHeldIsUnsafe(p);
    } else if !p.inflight {
      UnmarkedInFlightIsUnsafe(p);
    } else if !p.table {
      UnmarkedTableIsUnsafe(p);
    } else {
      OutOfOrderIsUnsafe(p);
    }
  }
}
