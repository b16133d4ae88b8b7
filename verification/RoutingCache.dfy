/** The driver's cache of range owners, updated from MOVED redirects that may
    arrive late, repeated and in any order. */
module RoutingCache {
  import opened Prelude

  datatype RangeKey = RangeKey(collection: string, rangeId: nat, slot: Option<nat>)

  datatype CachedOwner = CachedOwner(ownerAddr: string, ownershipEpoch: nat, catalogVersion: nat)

  datatype MovedRedirect = MovedRedirect(
    slot: Option<nat>, collection: string, rangeId: nat,
    ownerAddr: string, ownershipEpoch: nat, catalogVersion: nat, reason: string)

  type Ranges = map<RangeKey, CachedOwner>

  function KeyOf(m: MovedRedirect): RangeKey {
    RangeKey(m.collection, m.rangeId, m.slot)
  }

  function Incoming(m: MovedRedirect): CachedOwner {
    CachedOwner(m.ownerAddr, m.ownershipEpoch, m.catalogVersion)
  }

  /** Neither stamp of a is behind b's. */
  predicate AtLeast(a: CachedOwner, b: CachedOwner) {
    a.catalogVersion >= b.catalogVersion && a.ownershipEpoch >= b.ownershipEpoch
  }

  /** A redirect replaces the entry unless one of its stamps is older. */
  function Apply(ranges: Ranges, m: MovedRedirect): Ranges {
    if KeyOf(m) in ranges && !AtLeast(Incoming(m), ranges[KeyOf(m)]) then ranges
    else ranges[KeyOf(m) := Incoming(m)]
  }

  function ApplyAll(ranges: Ranges, ms: seq<MovedRedirect>): Ranges
    decreases |ms|
  {
    if ms == [] then ranges else ApplyAll(Apply(ranges, ms[0]), ms[1..])
  }

  class Cache {
    var ranges: Ranges

    constructor ()
      ensures ranges == map[]
    {
      ranges := map[];
    }

    method ApplyMoved(m: MovedRedirect) returns (accepted: bool)
      modifies this
      ensures ranges == Apply(old(ranges), m)
      ensures
        var key := RangeKey(m.collection, m.rangeId, m.slot);
        && (accepted <==>
              key in old(ranges) ==>
                m.catalogVersion >= old(ranges)[key].catalogVersion &&
                m.ownershipEpoch >= old(ranges)[key].ownershipEpoch)
        && ranges == if accepted then old(ranges)[key := CachedOwner(m.ownerAddr, m.ownershipEpoch, m.catalogVersion)]
                     else old(ranges)
    {
      var key := RangeKey(m.collection, m.rangeId, m.slot);
      var incoming := CachedOwner(m.ownerAddr, m.ownershipEpoch, m.catalogVersion);
      if key in ranges &&
         (ranges[key].catalogVersion > incoming.catalogVersion ||
          ranges[key].ownershipEpoch > incoming.ownershipEpoch) {
        return false;
      }
      ranges := ranges[key := incoming];
      return true;
    }

    method OwnerFor(collection: string, rangeId: nat, slot: Option<nat>) returns (owner: Option<CachedOwner>)
      ensures
        var key := RangeKey(collection, rangeId, slot);
        owner == if key in ranges then Some(ranges[key]) else None
    {
      var key := RangeKey(collection, rangeId, slot);
      owner := if key in ranges then Some(ranges[key]) else None;
    }

    /** The owner to retry against: always present after the update, and never
        behind the redirect that was just received. */
    method RetryOwnerAfterMoved(m: MovedRedirect) returns (addr: string)
      modifies this
      ensures ranges == Apply(old(ranges), m)
      ensures
        var key := RangeKey(m.collection, m.rangeId, m.slot);
        && key in ranges && addr == ranges[key].ownerAddr
        && (addr == m.ownerAddr ||
            ranges[key].catalogVersion > m.catalogVersion || ranges[key].ownershipEpoch > m.ownershipEpoch)
    {
      var _ := ApplyMoved(m);
      var owner := OwnerFor(m.collection, m.rangeId, m.slot);
      addr := owner.value.ownerAddr;
    }
  }

  // ------------------------------------------------------------- over runs

  /** The entry a range ends with, starting from an empty cache. */
  function Entry(key: RangeKey, ms: seq<MovedRedirect>): Option<CachedOwner> {
    var ranges := ApplyAll(map[], ms);
    if key in ranges then Some(ranges[key]) else None
  }

  lemma {:induction false} ApplyAllAppend(ranges: Ranges, a: seq<MovedRedirect>, b: seq<MovedRedirect>)
    ensures ApplyAll(ranges, a + b) == ApplyAll(ApplyAll(ranges, a), b)
    decreases |a|
  {
    if a == [] {
      assert a + b == b;
    } else {
      assert (a + b)[1..] == a[1..] + b;
      ApplyAllAppend(Apply(ranges, a[0]), a[1..], b);
    }
  }

  /** Whatever arrives, no entry is ever lost and neither of its stamps ever
      goes back. */
  lemma {:induction false} StampsNeverDecrease(ranges: Ranges, ms: seq<MovedRedirect>, key: RangeKey)
    requires key in ranges
    ensures
      && key in ApplyAll(ranges, ms)
      && ApplyAll(ranges, ms)[key].catalogVersion >= ranges[key].catalogVersion
      && ApplyAll(ranges, ms)[key].ownershipEpoch >= ranges[key].ownershipEpoch
    decreases |ms|
  {
    if ms != [] { StampsNeverDecrease(Apply(ranges, ms[0]), ms[1..], key); }
  }

  /** An entry is one of the redirects received for that range. */
  lemma {:induction false} EntryWasReceived(ranges: Ranges, ms: seq<MovedRedirect>, key: RangeKey)
    requires key in ApplyAll(ranges, ms)
    ensures
      var entry := ApplyAll(ranges, ms)[key];
      || (key in ranges && entry == ranges[key])
      || (exists m :: m in ms && KeyOf(m) == key && Incoming(m) == entry)
    decreases |ms|
  {
    if ms != [] { EntryWasReceived(Apply(ranges, ms[0]), ms[1..], key); }
  }

  /** m is ahead of, or level with, every redirect in s, and all that are level
      with it name the same owner. */
  ghost predicate Winner(m: MovedRedirect, s: set<MovedRedirect>) {
    && m in s
    && (forall x :: x in s ==> AtLeast(Incoming(m), Incoming(x)))
    && (forall x :: x in s && AtLeast(Incoming(x), Incoming(m)) ==> x.ownerAddr == m.ownerAddr)
  }

  /** ms delivers every redirect of s at least once, for one range, mixed with
      any traffic for other ranges. */
  ghost predicate Delivers(key: RangeKey, ms: seq<MovedRedirect>, s: set<MovedRedirect>) {
    forall m :: (m in ms && KeyOf(m) == key) <==> m in s
  }

  /** Once the winner has arrived nothing else replaces it. */
  lemma {:induction false} WinnerStays(key: RangeKey, ranges: Ranges, ms: seq<MovedRedirect>, s: set<MovedRedirect>,
                                       w: MovedRedirect)
    requires Winner(w, s)
    requires forall m :: m in ms && KeyOf(m) == key ==> m in s
    requires key in ranges && ranges[key] == Incoming(w)
    ensures key in ApplyAll(ranges, ms) && ApplyAll(ranges, ms)[key] == Incoming(w)
    decreases |ms|
  {
    if ms != [] {
      assert ms[0] in ms;
      assert KeyOf(ms[0]) == key ==> AtLeast(Incoming(w), Incoming(ms[0]));
      WinnerStays(key, Apply(ranges, ms[0]), ms[1..], s, w);
    }
  }

  /** Every delivery order ends at the winner. */
  lemma WinnerPrevails(key: RangeKey, ms: seq<MovedRedirect>, s: set<MovedRedirect>, w: MovedRedirect)
    requires Winner(w, s) && Delivers(key, ms, s)
    ensures Entry(key, ms) == Some(Incoming(w))
  {
    assert w in ms;
    var i :| 0 <= i < |ms| && ms[i] == w;
    var before := ApplyAll(map[], ms[..i]);
    assert KeyOf(w) == key;
    if key in before {
      EntryWasReceived(map[], ms[..i], key);
      var m :| m in ms[..i] && KeyOf(m) == key && Incoming(m) == before[key];
      assert m in ms && m in s;
    }
    assert Apply(before, w)[key] == Incoming(w);
    WinnerStays(key, Apply(before, w), ms[i + 1..], s, w);
    ApplyAllAppend(map[], ms[..i], ms[i..]);
    assert ms == ms[..i] + ms[i..] && ms[i..][1..] == ms[i + 1..];
  }

  /** Delivery order does not matter for s. */
  ghost predicate OrderIrrelevant(key: RangeKey, s: set<MovedRedirect>) {
    forall a, b :: Delivers(key, a, s) && Delivers(key, b, s) ==> Entry(key, a) == Entry(key, b)
  }

  lemma {:induction false} SomeOrder(s: set<MovedRedirect>) returns (ms: seq<MovedRedirect>)
    ensures forall m :: m in ms <==> m in s
    decreases s
  {
    if s == {} {
      ms := [];
    } else {
      var m :| m in s;
      var rest := SomeOrder(s - {m});
      ms := [m] + rest;
    }
  }

  /** A redirect delivered first is never overtaken by an older entry. */
  lemma FirstIsLowerBound(key: RangeKey, m: MovedRedirect, ms: seq<MovedRedirect>)
    requires KeyOf(m) == key
    ensures Entry(key, [m] + ms).Some? && AtLeast(Entry(key, [m] + ms).value, Incoming(m))
  {
    assert ([m] + ms)[1..] == ms;
    StampsNeverDecrease(Apply(map[], m), ms, key);
  }

  /** Exactly when redirects for a range converge: all delivery orders, with any
      repetition, leave the same owner if and only if some redirect is ahead of
      all others and every redirect level with it names the same owner. */
  lemma ConvergesExactly(key: RangeKey, s: set<MovedRedirect>)
    requires s != {} && forall m :: m in s ==> KeyOf(m) == key
    ensures OrderIrrelevant(key, s) <==> exists w :: Winner(w, s)
  {
    if w :| Winner(w, s) {
      forall a, b | Delivers(key, a, s) && Delivers(key, b, s) ensures Entry(key, a) == Entry(key, b) {
        WinnerPrevails(key, a, s, w);
        WinnerPrevails(key, b, s, w);
      }
    }
    if OrderIrrelevant(key, s) {
      ConvergenceHasWinner(key, s);
    }
  }

  lemma ConvergenceHasWinner(key: RangeKey, s: set<MovedRedirect>)
    requires s != {} && forall m :: m in s ==> KeyOf(m) == key
    requires OrderIrrelevant(key, s)
    ensures exists w :: Winner(w, s)
  {
    hide Apply, ApplyAll, Entry;
    var ms := SomeOrder(s);
    assert Delivers(key, ms, s);
    var any :| any in s;
    forall x | x in s
      ensures Entry(key, ms).Some? && AtLeast(Entry(key, ms).value, Incoming(x))
      ensures AtLeast(Incoming(x), Entry(key, ms).value) ==> Entry(key, ms).value == Incoming(x)
    {
      FirstIsLowerBound(key, x, ms);
      assert Delivers(key, [x] + ms, s);
      LastWinsTies(key, ms, x);
      assert Delivers(key, ms + [x], s);
    }
    EntryIsReceived(key, ms);
    var w :| w in ms && KeyOf(w) == key && Incoming(w) == Entry(key, ms).value;
    assert Winner(w, s);
  }

  lemma EntryIsReceived(key: RangeKey, ms: seq<MovedRedirect>)
    requires Entry(key, ms).Some?
    ensures exists m :: m in ms && KeyOf(m) == key && Incoming(m) == Entry(key, ms).value
  {
    EntryWasReceived(map[], ms, key);
  }

  lemma LastWinsTies(key: RangeKey, ms: seq<MovedRedirect>, x: MovedRedirect)
    requires KeyOf(x) == key
    ensures
      var before := Entry(key, ms);
      before.None? || AtLeast(Incoming(x), before.value) ==> Entry(key, ms + [x]) == Some(Incoming(x))
  {
    ApplyAllAppend(map[], ms, [x]);
    assert ApplyAll(ApplyAll(map[], ms), [x]) == Apply(ApplyAll(map[], ms), x);
  }

  /** Stamps that can all be compared, one owner per stamp. */
  ghost predicate Chain(s: set<MovedRedirect>) {
    forall x, y :: x in s && y in s ==>
      && (AtLeast(Incoming(x), Incoming(y)) || AtLeast(Incoming(y), Incoming(x)))
      && (AtLeast(Incoming(x), Incoming(y)) && AtLeast(Incoming(y), Incoming(x)) ==> x.ownerAddr == y.ownerAddr)
  }

  /** Versions issued in order converge: a chain of stamps has a winner. */
  lemma {:induction false} ChainHasWinner(s: set<MovedRedirect>) returns (w: MovedRedirect)
    requires s != {} && Chain(s)
    ensures Winner(w, s)
    decreases s
  {
    w :| w in s;
    if s - {w} == {} {
      assert s == {w};
    } else {
      var v := w;
      w := ChainHasWinner(s - {v});
      if AtLeast(Incoming(v), Incoming(w)) { w := v; }
    }
  }

  lemma ChainConverges(key: RangeKey, s: set<MovedRedirect>)
    requires s != {} && Chain(s) && forall m :: m in s ==> KeyOf(m) == key
    ensures OrderIrrelevant(key, s)
  {
    hide OrderIrrelevant;
    var w := ChainHasWinner(s);
    ConvergesExactly(key, s);
  }
}
