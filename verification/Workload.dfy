/** The KV benchmark's write workload: workers share the operations of a round
    by striding, write concurrently, and the harness predicts the final value of
    every key without knowing the interleaving. */
module Workload {
  import opened Prelude

  const ROUND_OFFSET: nat := 7919

  /** The argument checks guarantee every count is positive. */
  datatype Config = Config(keys: nat, operations: nat, workers: nat, pipeline: nat) {
    predicate Valid() {
      keys > 0 && operations > 0 && workers > 0 && pipeline > 0
    }

    /** How many operations a worker performs in a round. */
    function Quota(worker: nat): nat
      requires Valid()
    {
      operations / workers + (if worker < operations % workers then 1 else 0)
    }

    /** The id of a worker's j-th operation. */
    function OperationId(worker: nat, j: nat): nat {
      j * workers + worker
    }

    /** The key an operation touches in a round. */
    function KeyOf(operation: nat, round: nat): (key: nat)
      requires Valid()
      ensures key < keys
    {
      (operation + round * ROUND_OFFSET) % keys
    }

    /** Some operation of the round touches the key. */
    ghost predicate Touched(round: nat, key: nat)
      requires Valid()
    {
      exists operation: nat :: operation < operations && KeyOf(operation, round) == key
    }
  }

  /** How far a key lies, going up and round, from the round's first key. */
  function Distance(c: Config, round: nat, key: nat): nat
    requires c.Valid()
  {
    (key - 7919 * round) % c.keys
  }

  lemma Wraps(a: int, b: int, n: nat)
    requires n > 0
    ensures (a % n + b) % n == (a + b) % n
  {
    var d := a / n;
    assert a == d * n + a % n;
    Shift(a % n + b, d, n);
    assert a + b == a % n + b + d * n;
  }

  lemma Shift(x: int, d: int, n: nat)
    requires n > 0
    ensures (x + d * n) % n == x % n
  {
    var q, r := x / n, x % n;
    assert x == q * n + r;
    assert x + d * n == (q + d) * n + r by { assert (q + d) * n == q * n + d * n; }
    RemainderIs(q + d, n, r);
  }

  /** The operation at that distance touches the key... */
  lemma DistanceTouches(c: Config, round: nat, key: nat)
    requires c.Valid() && key < c.keys
    ensures c.KeyOf(Distance(c, round, key), round) == key
  {
    var first := round * ROUND_OFFSET;
    Wraps(key - first, first, c.keys);
    RemainderIs(0, c.keys, key);
  }

  /** ...and no earlier one does. */
  lemma DistanceIsLeast(c: Config, round: nat, operation: nat)
    requires c.Valid()
    ensures Distance(c, round, c.KeyOf(operation, round)) <= operation
  {
    var first := round * ROUND_OFFSET;
    Wraps(operation + first, -first, c.keys);
    SmallRemainder(operation, c.keys);
  }

  /** Which keys a round touches: it starts 7919 keys further with every round, and
      touches as many keys from there on, round and round, as it has operations. */
  lemma TouchedExactly(c: Config, round: nat, key: nat)
    requires c.Valid() && key < c.keys
    ensures c.Touched(round, key) <==> Distance(c, round, key) < c.operations
  {
    hide Config.KeyOf, Distance;
    DistanceTouches(c, round, key);
    if c.Touched(round, key) {
      var operation: nat :| operation < c.operations && c.KeyOf(operation, round) == key;
      DistanceIsLeast(c, round, operation);
    }
  }

  lemma SmallRemainder(x: nat, n: nat)
    requires n > 0
    ensures x % n <= x
  {
  }

  // ---------------------------------------------------------- the work split

  lemma DivMod(n: nat, d: nat)
    requires d > 0
    ensures n == (n / d) * d + n % d && n % d < d
  {
  }

  lemma QuotaMeansInRange(c: Config, worker: nat, j: nat)
    requires c.Valid() && worker < c.workers
    ensures j < c.Quota(worker) <==> c.OperationId(worker, j) < c.operations
  {
    var q, r := c.operations / c.workers, c.operations % c.workers;
    DivMod(c.operations, c.workers);
    StrideIsOrdered(worker, j, r, q, c.workers);
    StrideIsOrdered(r, q, worker, j, c.workers);
  }

  lemma StrideIsUnique(w: nat, i: nat, v: nat, j: nat, d: nat)
    requires w < d && v < d && i * d + w == j * d + v
    ensures w == v && i == j
  {
    StrideIsOrdered(w, i, v, j, d);
    StrideIsOrdered(v, j, w, i, d);
  }

  lemma StrideIsOrdered(w: nat, i: nat, v: nat, j: nat, d: nat)
    requires w < d
    ensures i < j ==> i * d + w < j * d + v
  {
    if i < j { assert j * d >= (i + 1) * d; }
  }

  /** For every number of workers the strided quotas hit each operation of the
      round exactly once, and nothing else. */
  lemma SplitIsExact(c: Config, operation: nat)
    requires c.Valid()
    ensures operation < c.operations <==>
            exists worker: nat, j: nat ::
              worker < c.workers && j < c.Quota(worker) && c.OperationId(worker, j) == operation
    ensures forall w: nat, i: nat, v: nat, j: nat ::
              w < c.workers && v < c.workers && c.OperationId(w, i) == c.OperationId(v, j) ==> w == v && i == j
  {
    var worker, j := operation % c.workers, operation / c.workers;
    DivMod(operation, c.workers);
    assert c.OperationId(worker, j) == operation;
    QuotaMeansInRange(c, worker, j);
    forall w: nat, i: nat | w < c.workers && i < c.Quota(w) && c.OperationId(w, i) == operation
      ensures operation < c.operations
    {
      QuotaMeansInRange(c, w, i);
    }
    forall w: nat, i: nat, v: nat, j: nat | w < c.workers && v < c.workers && c.OperationId(w, i) == c.OperationId(v, j)
      ensures w == v && i == j
    {
      StrideIsUnique(w, i, v, j, c.workers);
    }
  }

  /** The keys a worker writes in a round, in order. */
  ghost function WorkerKeys(c: Config, worker: nat, round: nat): (keys: seq<nat>)
    requires c.Valid()
    ensures |keys| == c.Quota(worker)
  {
    seq(c.Quota(worker), j requires 0 <= j => c.KeyOf(c.OperationId(worker, j), round))
  }

  ghost function Flatten(batches: seq<seq<nat>>): seq<nat> {
    if batches == [] then [] else Flatten(batches[..|batches| - 1]) + batches[|batches| - 1]
  }

  /** One worker's loop: its quota in batches no deeper than the pipeline. */
  method Worker(c: Config, worker: nat, round: nat) returns (completed: nat, batches: seq<seq<nat>>)
    requires c.Valid()
    ensures completed == c.Quota(worker)
    ensures Flatten(batches) == WorkerKeys(c, worker, round)
    ensures |Flatten(batches)| == completed
    ensures forall j :: 0 <= j < completed ==>
              Flatten(batches)[j] == (j * c.workers + worker + round * 7919) % c.keys
    ensures forall b :: b in batches ==> 0 < |b| <= c.pipeline
  {
    hide Config.Quota, Config.KeyOf;
    completed, batches := 0, [];
    var quota := c.Quota(worker);
    while completed < quota
      invariant completed <= quota
      invariant Flatten(batches) == WorkerKeys(c, worker, round)[..completed]
      invariant forall b :: b in batches ==> 0 < |b| <= c.pipeline
      decreases quota - completed
    {
      var count := if c.pipeline < quota - completed then c.pipeline else quota - completed;
      var indices := seq(count, offset requires 0 <= offset < count =>
        c.KeyOf(c.OperationId(worker, completed + offset), round));
      assert indices == WorkerKeys(c, worker, round)[completed..completed + count];
      assert (batches + [indices])[..|batches|] == batches;
      batches := batches + [indices];
      completed := completed + count;
    }
    forall j | 0 <= j < completed
      ensures Flatten(batches)[j] == (j * c.workers + worker + round * 7919) % c.keys
    {
      KeyIs(c, worker, j, round);
    }
  }

  lemma KeyIs(c: Config, worker: nat, j: nat, round: nat)
    requires c.Valid()
    ensures c.KeyOf(c.OperationId(worker, j), round) == (j * c.workers + worker + round * 7919) % c.keys
  {
  }

  // ------------------------------------------------------------ interleaving

  /** A round in progress: the store and how far each worker is. */
  datatype Progress<V> = Progress(store: seq<V>, done: seq<nat>)

  ghost predicate WellFormed<V>(c: Config, p: Progress<V>) {
    |p.store| == c.keys && |p.done| == c.workers
  }

  /** Worker w performs its next write of the round. */
  ghost function Write<V>(c: Config, round: nat, payload: (nat, nat) -> V, p: Progress<V>, w: nat): (q: Progress<V>)
    requires c.Valid() && WellFormed(c, p) && w < c.workers
    ensures WellFormed(c, q)
  {
    var key := c.KeyOf(c.OperationId(w, p.done[w]), round);
    Progress(p.store[key := payload(key, round + 1)], p.done[w := p.done[w] + 1])
  }

  /** The schedule only runs workers that have quota left. */
  ghost predicate Legal<V>(c: Config, round: nat, payload: (nat, nat) -> V, p: Progress<V>, schedule: seq<nat>)
    requires c.Valid() && WellFormed(c, p)
    decreases |schedule|
  {
    schedule == [] ||
    (schedule[0] < c.workers && p.done[schedule[0]] < c.Quota(schedule[0]) &&
     Legal(c, round, payload, Write(c, round, payload, p, schedule[0]), schedule[1..]))
  }

  ghost function Execute<V>(c: Config, round: nat, payload: (nat, nat) -> V, p: Progress<V>,
                            schedule: seq<nat>): (q: Progress<V>)
    requires c.Valid() && WellFormed(c, p) && Legal(c, round, payload, p, schedule)
    ensures WellFormed(c, q)
    decreases |schedule|
  {
    if schedule == [] then p
    else Execute(c, round, payload, Write(c, round, payload, p, schedule[0]), schedule[1..])
  }

  /** Some write already performed touched the key. */
  ghost predicate Written(c: Config, round: nat, done: seq<nat>, key: nat)
    requires c.Valid()
  {
    exists w: nat, j: nat :: w < |done| && j < done[w] && c.KeyOf(c.OperationId(w, j), round) == key
  }

  /** The store holds this round's payload under every written key and the old
      value elsewhere; no worker is past its quota. */
  ghost predicate RoundInvariant<V>(c: Config, round: nat, payload: (nat, nat) -> V, before: seq<V>, p: Progress<V>)
    requires c.Valid()
  {
    && WellFormed(c, p) && |before| == c.keys
    && (forall w :: 0 <= w < c.workers ==> p.done[w] <= c.Quota(w))
    && (forall k :: 0 <= k < c.keys ==>
          p.store[k] == if Written(c, round, p.done, k) then payload(k, round + 1) else before[k])
  }

  lemma WriteKeepsInvariant<V>(c: Config, round: nat, payload: (nat, nat) -> V, before: seq<V>, p: Progress<V>, w: nat)
    requires c.Valid() && RoundInvariant(c, round, payload, before, p)
    requires w < c.workers && p.done[w] < c.Quota(w)
    ensures RoundInvariant(c, round, payload, before, Write(c, round, payload, p, w))
  {
    hide Config.Quota, Config.KeyOf, Written;
    var q := Write(c, round, payload, p, w);
    forall k | 0 <= k < c.keys
      ensures Written(c, round, q.done, k) <==>
              Written(c, round, p.done, k) || k == c.KeyOf(c.OperationId(w, p.done[w]), round)
    {
      WrittenStep(c, round, p.done, w, k);
    }
  }

  lemma WrittenStep(c: Config, round: nat, done: seq<nat>, w: nat, key: nat)
    requires c.Valid() && w < |done|
    ensures Written(c, round, done[w := done[w] + 1], key) <==>
            Written(c, round, done, key) || key == c.KeyOf(c.OperationId(w, done[w]), round)
  {
    hide Config.KeyOf, Config.OperationId;
    var next := done[w := done[w] + 1];
    if Written(c, round, done, key) {
      var v: nat, j: nat :| v < |done| && j < done[v] && c.KeyOf(c.OperationId(v, j), round) == key;
      assert v < |next| && j < next[v];
    }
    if key == c.KeyOf(c.OperationId(w, done[w]), round) {
      assert done[w] < next[w];
    }
    if Written(c, round, next, key) {
      var v: nat, j: nat :| v < |next| && j < next[v] && c.KeyOf(c.OperationId(v, j), round) == key;
      assert v != w || j != done[w] ==> j < done[v];
    }
  }

  lemma {:induction false} ExecuteKeepsInvariant<V>(c: Config, round: nat, payload: (nat, nat) -> V, before: seq<V>,
                                                    p: Progress<V>, schedule: seq<nat>)
    requires c.Valid() && RoundInvariant(c, round, payload, before, p)
    requires Legal(c, round, payload, p, schedule)
    ensures RoundInvariant(c, round, payload, before, Execute(c, round, payload, p, schedule))
    decreases |schedule|
  {
    hide Written, Write, Config.Quota;
    if schedule != [] {
      WriteKeepsInvariant(c, round, payload, before, p, schedule[0]);
      ExecuteKeepsInvariant(c, round, payload, before, Write(c, round, payload, p, schedule[0]), schedule[1..]);
    }
  }

  ghost predicate AllDone<V>(c: Config, p: Progress<V>)
    requires c.Valid() && WellFormed(c, p)
  {
    forall w :: 0 <= w < c.workers ==> p.done[w] == c.Quota(w)
  }

  lemma DoneMeansTouched<V>(c: Config, round: nat, p: Progress<V>, key: nat)
    requires c.Valid() && WellFormed(c, p) && AllDone(c, p)
    ensures Written(c, round, p.done, key) <==> c.Touched(round, key)
  {
    hide Config.Quota, Config.KeyOf, Config.OperationId;
    if Written(c, round, p.done, key) {
      var w: nat, j: nat :| w < |p.done| && j < p.done[w] && c.KeyOf(c.OperationId(w, j), round) == key;
      QuotaMeansInRange(c, w, j);
    }
    if c.Touched(round, key) {
      var operation: nat :| operation < c.operations && c.KeyOf(operation, round) == key;
      SplitIsExact(c, operation);
      var w: nat, j: nat :| w < c.workers && j < c.Quota(w) && c.OperationId(w, j) == operation;
      assert j < p.done[w];
    }
  }

  ghost function RoundStart<V>(c: Config, store: seq<V>): Progress<V> {
    Progress(store, seq(c.workers, w => 0))
  }

  /** A schedule that runs a whole round to the end. */
  ghost predicate FullRound<V>(c: Config, round: nat, payload: (nat, nat) -> V, store: seq<V>, schedule: seq<nat>)
    requires c.Valid() && |store| == c.keys
  {
    && Legal(c, round, payload, RoundStart(c, store), schedule)
    && AllDone(c, Execute(c, round, payload, RoundStart(c, store), schedule))
  }

  /** However the workers interleave, a round leaves its payload under exactly
      the touched keys. */
  lemma RoundOutcome<V>(c: Config, round: nat, payload: (nat, nat) -> V, store: seq<V>, schedule: seq<nat>, k: nat)
    requires c.Valid() && |store| == c.keys && FullRound(c, round, payload, store, schedule) && k < c.keys
    ensures Execute(c, round, payload, RoundStart(c, store), schedule).store[k] ==
            if c.Touched(round, k) then payload(k, round + 1) else store[k]
  {
    hide Config.Quota, Config.KeyOf, Write, Legal, Execute;
    var start := RoundStart(c, store);
    assert RoundInvariant(c, round, payload, store, start);
    ExecuteKeepsInvariant(c, round, payload, store, start, schedule);
    DoneMeansTouched(c, round, Execute(c, round, payload, start, schedule), k);
  }

  // --------------------------------------------------------------- all rounds

  /** The generation the harness predicts for a key after some rounds. */
  ghost function Generation(c: Config, rounds: nat, key: nat): nat
    requires c.Valid()
  {
    if rounds == 0 then 0
    else if c.Touched(rounds - 1, key) then rounds
    else Generation(c, rounds - 1, key)
  }

  /** It names the last round that touched the key. */
  lemma {:induction false} GenerationIsLatest(c: Config, rounds: nat, key: nat)
    requires c.Valid()
    ensures Generation(c, rounds, key) <= rounds
    ensures Generation(c, rounds, key) > 0 ==> c.Touched(Generation(c, rounds, key) - 1, key)
    ensures forall r :: Generation(c, rounds, key) <= r < rounds ==> !c.Touched(r, key)
  {
    hide Config.Touched;
    if rounds > 0 { GenerationIsLatest(c, rounds - 1, key); }
  }

  /** The round loop's bookkeeping. */
  method Generations(c: Config, rounds: nat) returns (generations: array<nat>)
    requires c.Valid()
    ensures fresh(generations) && generations.Length == c.keys
    ensures forall k :: 0 <= k < c.keys ==> generations[k] == Generation(c, rounds, k)
  {
    generations := new nat[c.keys](i => 0);
    for index := 0 to rounds
      invariant forall k :: 0 <= k < c.keys ==> generations[k] == Generation(c, index, k)
    {
      hide Config.KeyOf, Generation;
      var changed := set operation | 0 <= operation < c.operations :: c.KeyOf(operation, index);
      forall k | 0 <= k < c.keys ensures k in changed <==> c.Touched(index, k) { }
      ghost var before := generations[..];
      var left := changed;
      while left != {}
        invariant left <= changed
        invariant forall k :: 0 <= k < c.keys ==>
                    generations[k] == if k in changed && k !in left then index + 1 else before[k]
        decreases left
      {
        NonEmpty(left);
        var key :| key in left;
        generations[key] := index + 1;
        left := left - {key};
      }
      forall k | 0 <= k < c.keys ensures generations[k] == Generation(c, index + 1, k) {
        GenerationStep(c, index, k);
      }
    }
  }

  lemma GenerationStep(c: Config, round: nat, key: nat)
    requires c.Valid()
    ensures Generation(c, round + 1, key) == if c.Touched(round, key) then round + 1 else Generation(c, round, key)
  {
  }

  /** A whole run: one full round after the other, each interleaved freely. */
  ghost predicate FullRun<V>(c: Config, payload: (nat, nat) -> V, start: seq<V>, schedules: seq<seq<nat>>)
    requires c.Valid() && |start| == c.keys
    decreases |schedules|, 0
  {
    schedules == [] ||
    (var earlier := schedules[..|schedules| - 1];
     && FullRun(c, payload, start, earlier)
     && FullRound(c, |earlier|, payload, FinalStore(c, payload, start, earlier), schedules[|earlier|]))
  }

  ghost function FinalStore<V>(c: Config, payload: (nat, nat) -> V, start: seq<V>,
                               schedules: seq<seq<nat>>): (store: seq<V>)
    requires c.Valid() && |start| == c.keys && FullRun(c, payload, start, schedules)
    ensures |store| == c.keys
    decreases |schedules|, 1
  {
    if schedules == [] then start
    else
      var earlier := schedules[..|schedules| - 1];
      Execute(c, |earlier|, payload, RoundStart(c, FinalStore(c, payload, start, earlier)), schedules[|earlier|]).store
  }

  /** Every interleaving of every round ends in the predicted store: each key
      holds the payload of its predicted generation. */
  lemma {:induction false} InterleavingIndependence<V>(c: Config, payload: (nat, nat) -> V, start: seq<V>,
                                                       schedules: seq<seq<nat>>, k: nat)
    requires c.Valid() && |start| == c.keys && k < c.keys
    requires forall i :: 0 <= i < c.keys ==> start[i] == payload(i, 0)
    requires FullRun(c, payload, start, schedules)
    ensures FinalStore(c, payload, start, schedules)[k] == payload(k, Generation(c, |schedules|, k))
    decreases |schedules|
  {
    hide Config.Touched, Execute, FullRound;
    if schedules != [] {
      var earlier := schedules[..|schedules| - 1];
      InterleavingIndependence(c, payload, start, earlier, k);
      RoundOutcome(c, |earlier|, payload, FinalStore(c, payload, start, earlier), schedules[|earlier|], k);
    }
  }
}
