/** All descendants of an issue in a parent-child graph that may have cycles,
    found by a depth-first walk over one shared set of visited nodes. */
module Descendants {
  import opened Prelude

  /** Each node's children, in order and possibly repeated. */
  type Graph = map<int, seq<int>>

  function Children(g: Graph, n: int): seq<int> {
    if n in g then g[n] else []
  }

  /** path leads from n along child edges, one edge per element. */
  ghost predicate IsPath(g: Graph, n: int, path: seq<int>)
    decreases |path|
  {
    path == [] || (n in g && path[0] in g[n] && IsPath(g, path[0], path[1..]))
  }

  /** m is reached from n by one or more child edges. */
  ghost predicate Reaches(g: Graph, n: int, m: int) {
    exists path :: IsPath(g, n, path) && |path| > 0 && path[|path| - 1] == m
  }

  /** Every node that is somebody's child. */
  ghost function AllChildren(g: Graph): set<int> {
    set n, i | n in g && 0 <= i < |g[n]| :: g[n][i]
  }

  ghost predicate Closed(g: Graph, nodes: set<int>, seen: set<int>) {
    forall n, c :: n in nodes && c in Children(g, n) ==> c in seen
  }

  lemma ChildIsReached(g: Graph, n: int, c: int)
    requires c in Children(g, n)
    ensures Reaches(g, n, c)
  {
    assert IsPath(g, n, [c]);
  }

  lemma ReachThroughChild(g: Graph, n: int, c: int, m: int)
    requires c in Children(g, n) && Reaches(g, c, m)
    ensures Reaches(g, n, m)
  {
    var path :| IsPath(g, c, path) && |path| > 0 && path[|path| - 1] == m;
    assert ([c] + path)[1..] == path;
    assert IsPath(g, n, [c] + path);
  }

  lemma {:induction false} ClosedHoldsPath(g: Graph, n: int, path: seq<int>, seen: set<int>)
    requires IsPath(g, n, path) && |path| > 0
    requires Closed(g, seen, seen) && forall c :: c in Children(g, n) ==> c in seen
    ensures path[|path| - 1] in seen
    decreases |path|
  {
    if |path| > 1 { ClosedHoldsPath(g, path[0], path[1..], seen); }
  }

  predicate StrictlySorted(s: seq<int>) {
    forall i, j :: 0 <= i < j < |s| ==> s[i] < s[j]
  }

  method SortedElements(nodes: set<int>) returns (s: seq<int>)
    ensures StrictlySorted(s)
    ensures forall x :: x in s <==> x in nodes
  {
    s := [];
    var left := nodes;
    while left != {}
      invariant StrictlySorted(s) && left <= nodes
      invariant forall x :: x in nodes <==> x in s || x in left
      invariant forall i, y :: 0 <= i < |s| && y in left ==> s[i] < y
      decreases left
    {
      var least := Least(left);
      s := s + [least];
      left := left - {least};
    }
  }

  method Least(nodes: set<int>) returns (least: int)
    requires nodes != {}
    ensures least in nodes && forall x :: x in nodes ==> least <= x
  {
    NonEmpty(nodes);
    least :| least in nodes;
    var left := nodes - {least};
    while left != {}
      invariant least in nodes && left <= nodes
      invariant forall x :: x in nodes ==> least <= x || x in left
      decreases left
    {
      NonEmpty(left);
      var x :| x in left;
      if x < least { least := x; }
      left := left - {x};
    }
  }

  /** The visited set, shared by all calls of one walk. */
  class Seen {
    var nodes: set<int>

    constructor ()
      ensures nodes == {}
    {
      nodes := {};
    }
  }

  /** Walks from a node, marking what it meets.  Terminates on cyclic graphs
      because each call marks a node first. */
  method DescendantsFrom(number: int, g: Graph, seen: Seen) returns (sorted: seq<int>)
    modifies seen
    ensures old(seen.nodes) <= seen.nodes
    ensures forall c :: c in Children(g, number) ==> c in seen.nodes
    ensures Closed(g, seen.nodes - old(seen.nodes), seen.nodes)
    ensures forall m :: m in seen.nodes - old(seen.nodes) ==> Reaches(g, number, m)
    ensures StrictlySorted(sorted) && forall x :: x in sorted <==> x in seen.nodes
    decreases AllChildren(g) - seen.nodes
  {
    hide Reaches, AllChildren;
    var children := Children(g, number);
    for i := 0 to |children|
      invariant old(seen.nodes) <= seen.nodes
      invariant forall j :: 0 <= j < i ==> children[j] in seen.nodes
      invariant Closed(g, seen.nodes - old(seen.nodes), seen.nodes)
      invariant forall m :: m in seen.nodes - old(seen.nodes) ==> Reaches(g, number, m)
    {
      var child := children[i];
      if child in seen.nodes { continue; }
      ghost var before := seen.nodes;
      MarkDecreases(g, number, child, old(seen.nodes), seen.nodes);
      seen.nodes := seen.nodes + {child};
      var _ := DescendantsFrom(child, g, seen);
      ChildIsReached(g, number, child);
      forall m | m in seen.nodes - before ensures Reaches(g, number, m) {
        if m != child { ReachThroughChild(g, number, child, m); }
      }
    }
    sorted := SortedElements(seen.nodes);
  }

  lemma MarkDecreases(g: Graph, n: int, c: int, entry: set<int>, now: set<int>)
    requires c in Children(g, n) && entry <= now && c !in now
    ensures AllChildren(g) - (now + {c}) < AllChildren(g) - entry
  {
    var i :| 0 <= i < |g[n]| && g[n][i] == c;
    assert c in AllChildren(g);
  }

  /** Started on an unmarked graph, the walk returns exactly the nodes reachable
      by one or more edges (the node itself only if it lies on a cycle), in
      order and without repetition. */
  method DescendantsOf(number: int, g: Graph) returns (sorted: seq<int>)
    ensures StrictlySorted(sorted)
    ensures forall m :: m in sorted <==> Reaches(g, number, m)
  {
    var seen := new Seen();
    sorted := DescendantsFrom(number, g, seen);
    forall m | Reaches(g, number, m) ensures m in seen.nodes {
      var path :| IsPath(g, number, path) && |path| > 0 && path[|path| - 1] == m;
      ClosedHoldsPath(g, number, path, seen.nodes);
    }
  }
}
