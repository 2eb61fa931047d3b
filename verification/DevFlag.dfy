/** Marking as development-only every edge whose child no production dependency reaches. */
module DevFlag {
  import opened Models

  /** The start of a production path: a root edge that is not a development dependency. */
  ghost predicate ProductionRoot(edges: seq<Edge>, root: string, k: string) {
    exists e :: e in edges && e.parentKey == root && !e.dev && e.childKey == k
  }

  ghost predicate Below(edges: seq<Edge>, root: string, parent: string, child: string) {
    exists e :: e in edges && e.parentKey != root && e.parentKey == parent && e.childKey == child
  }

  /** A path from a production root that continues through parents other than the root. */
  ghost predicate ProductionPath(edges: seq<Edge>, root: string, p: seq<string>) {
    && p != [] && ProductionRoot(edges, root, p[0])
    && forall i {:trigger LinkAt(edges, root, p, i)} :: 0 < i < |p| ==> LinkAt(edges, root, p, i)
  }

  ghost predicate LinkAt(edges: seq<Edge>, root: string, p: seq<string>, i: nat)
    requires 0 < i < |p|
  {
    Below(edges, root, p[i - 1], p[i])
  }

  ghost predicate InProduction(edges: seq<Edge>, root: string, k: string) {
    exists p :: ProductionPath(edges, root, p) && p[|p| - 1] == k
  }

  ghost predicate Flagged(before: seq<Edge>, root: string, after: seq<Edge>) {
    && |after| == |before|
    && (forall i :: 0 <= i < |before| ==> after[i] == before[i].(dev := after[i].dev))
    && (forall i :: 0 <= i < |before| ==> (after[i].dev <==> !InProduction(before, root, before[i].childKey)))
  }

  lemma RootInProduction(edges: seq<Edge>, root: string, k: string)
    requires ProductionRoot(edges, root, k)
    ensures InProduction(edges, root, k)
  {
    var p := [k];
    assert ProductionPath(edges, root, p) && p[|p| - 1] == k;
  }

  lemma BelowInProduction(edges: seq<Edge>, root: string, parent: string, child: string)
    requires InProduction(edges, root, parent) && Below(edges, root, parent, child)
    ensures InProduction(edges, root, child)
  {
    hide Below, ProductionRoot;
    var p :| ProductionPath(edges, root, p) && p[|p| - 1] == parent;
    var q := p + [child];
    forall i | 0 < i < |q| ensures LinkAt(edges, root, q, i) {
      if i < |p| { assert LinkAt(edges, root, p, i); }
    }
    assert ProductionPath(edges, root, q) && q[|q| - 1] == child;
  }

  ghost predicate ClosedUnderBelow(edges: seq<Edge>, root: string, s: set<string>) {
    && (forall k :: ProductionRoot(edges, root, k) ==> k in s)
    && (forall k, c :: k in s && Below(edges, root, k, c) ==> c in s)
  }

  lemma {:induction false} ClosedHoldsPath(edges: seq<Edge>, root: string, s: set<string>, p: seq<string>)
    requires ClosedUnderBelow(edges, root, s) && ProductionPath(edges, root, p)
    ensures p[|p| - 1] in s
    decreases |p|
  {
    hide Below, ProductionRoot;
    if |p| > 1 {
      var q := p[..|p| - 1];
      forall i | 0 < i < |q| ensures LinkAt(edges, root, q, i) { assert LinkAt(edges, root, p, i); }
      ClosedHoldsPath(edges, root, s, q);
      assert LinkAt(edges, root, p, |p| - 1);
    }
  }

  /** Flagging twice equals flagging once. */
  lemma FlaggedTwice(before: seq<Edge>, root: string, once: seq<Edge>, twice: seq<Edge>)
    requires Flagged(before, root, once) && Flagged(once, root, twice)
    ensures twice == once
  {
    hide Below, ProductionRoot, ProductionPath;
    forall k ensures InProduction(before, root, k) <==> InProduction(once, root, k) {
      SameProduction(before, root, once, k);
    }
    assert forall i :: 0 <= i < |once| ==> once[i].childKey == before[i].childKey;
    assert forall i :: 0 <= i < |once| ==> twice[i] == once[i];
  }

  lemma SameProduction(before: seq<Edge>, root: string, once: seq<Edge>, k: string)
    requires Flagged(before, root, once)
    ensures InProduction(before, root, k) <==> InProduction(once, root, k)
  {
    forall p, c ensures Below(before, root, p, c) <==> Below(once, root, p, c) { SameBelow(before, root, once, p, c); }
    forall c | ProductionRoot(before, root, c) ensures InProduction(once, root, c) {
      RootInProduction(before, root, c);
      var e :| e in before && e.parentKey == root && !e.dev && e.childKey == c;
      var i :| 0 <= i < |before| && before[i] == e;
      assert once[i] in once && ProductionRoot(once, root, c);
      RootInProduction(once, root, c);
    }
    forall c | ProductionRoot(once, root, c) ensures InProduction(before, root, c) {
      var e :| e in once && e.parentKey == root && !e.dev && e.childKey == c;
      var i :| 0 <= i < |once| && once[i] == e;
    }
    hide Flagged, Below, ProductionRoot;
    if InProduction(before, root, k) {
      var p :| ProductionPath(before, root, p) && p[|p| - 1] == k;
      PathAlong(before, root, once, p);
    }
    if InProduction(once, root, k) {
      var p :| ProductionPath(once, root, p) && p[|p| - 1] == k;
      PathAlong(once, root, before, p);
    }
  }

  lemma SameBelow(before: seq<Edge>, root: string, once: seq<Edge>, p: string, c: string)
    requires Flagged(before, root, once)
    ensures Below(before, root, p, c) <==> Below(once, root, p, c)
  {
    hide InProduction;
    if Below(before, root, p, c) {
      var e :| e in before && e.parentKey != root && e.parentKey == p && e.childKey == c;
      var i :| 0 <= i < |before| && before[i] == e;
      assert once[i] in once;
    }
    if Below(once, root, p, c) {
      var e :| e in once && e.parentKey != root && e.parentKey == p && e.childKey == c;
      var i :| 0 <= i < |once| && once[i] == e;
      assert before[i] in before;
    }
  }

  lemma {:induction false} PathAlong(from: seq<Edge>, root: string, to: seq<Edge>, p: seq<string>)
    requires ProductionPath(from, root, p)
    requires forall a, b :: Below(from, root, a, b) ==> Below(to, root, a, b)
    requires forall c :: ProductionRoot(from, root, c) ==> InProduction(to, root, c)
    ensures InProduction(to, root, p[|p| - 1])
    decreases |p|
  {
    hide Below, ProductionRoot, InProduction;
    if |p| > 1 {
      var q := p[..|p| - 1];
      forall i | 0 < i < |q| ensures LinkAt(from, root, q, i) { assert LinkAt(from, root, p, i); }
      PathAlong(from, root, to, q);
      assert LinkAt(from, root, p, |p| - 1);
      BelowInProduction(to, root, q[|q| - 1], p[|p| - 1]);
    }
  }

  // ---- The algorithm

  /** The children listed for every parent other than the root, and the production roots. */
  ghost predicate Indexed(edges: seq<Edge>, root: string, roots: set<string>, adjacency: map<string, seq<string>>) {
    && (forall k :: k in roots <==> ProductionRoot(edges, root, k))
    && (forall k, c :: Below(edges, root, k, c) <==> k in adjacency && c in adjacency[k])
  }

  method IndexEdges(edges: array<Edge>, root: string) returns (roots: set<string>, adjacency: map<string, seq<string>>)
    ensures Indexed(edges[..], root, roots, adjacency)
    ensures roots <= ChildKeys(edges[..])
  {
    roots, adjacency := {}, map[];
    assert edges[..0] == [];
    for i := 0 to edges.Length
      invariant Indexed(edges[..i], root, roots, adjacency)
      invariant roots <= ChildKeys(edges[..i])
    {
      var e := edges[i];
      assert edges[..i + 1] == edges[..i] + [e];
      IndexedNext(edges[..i], root, roots, adjacency, e);
      if e.parentKey == root && !e.dev {
        roots := roots + {e.childKey};
      }
      if e.parentKey != root {
        adjacency := adjacency[e.parentKey := (if e.parentKey in adjacency then adjacency[e.parentKey] else []) + [e.childKey]];
      }
    }
    assert edges[..edges.Length] == edges[..];
  }

  lemma IndexedNext(edges: seq<Edge>, root: string, roots: set<string>, adjacency: map<string, seq<string>>, e: Edge)
    requires Indexed(edges, root, roots, adjacency)
    ensures Indexed(edges + [e], root,
      if e.parentKey == root && !e.dev then roots + {e.childKey} else roots,
      if e.parentKey != root
      then adjacency[e.parentKey := (if e.parentKey in adjacency then adjacency[e.parentKey] else []) + [e.childKey]]
      else adjacency)
  {
    var more := edges + [e];
    assert e in more && forall x :: x in more <==> x in edges || x == e;
    forall k ensures ProductionRoot(more, root, k) <==> ProductionRoot(edges, root, k) || (e.parentKey == root && !e.dev && e.childKey == k) {}
    forall k, c ensures Below(more, root, k, c) <==> Below(edges, root, k, c) || (e.parentKey != root && e.parentKey == k && e.childKey == c) {}
    hide ProductionRoot, Below;
  }

  lemma BelowChild(edges: seq<Edge>, root: string, p: string, c: string)
    requires Below(edges, root, p, c)
    ensures c in ChildKeys(edges)
  {}

  /** Breadth-first search from the production roots, whose order is that of a map. */
  method ProductionReachable(ghost edges: seq<Edge>, root: string, roots: set<string>, adjacency: map<string, seq<string>>)
    returns (reachable: set<string>)
    requires Indexed(edges, root, roots, adjacency) && roots <= ChildKeys(edges)
    ensures forall k :: k in reachable <==> InProduction(edges, root, k)
  {
    hide Below, ProductionRoot, InProduction, ProductionPath;
    reachable := {};
    var queue: seq<string> := [];
    var todo := roots;
    while todo != {}
      invariant todo <= roots && reachable == roots - todo
      invariant forall k :: k in queue <==> k in reachable
    {
      var k :| k in todo;
      queue, reachable, todo := queue + [k], reachable + {k}, todo - {k};
    }
    forall k | k in roots ensures InProduction(edges, root, k) { RootInProduction(edges, root, k); }
    while |queue| > 0
      invariant roots <= reachable <= ChildKeys(edges)
      invariant forall k :: k in queue ==> k in reachable
      invariant forall k :: k in reachable ==> InProduction(edges, root, k)
      invariant forall k, c :: k in reachable && k !in queue && Below(edges, root, k, c) ==> c in reachable
      decreases ChildKeys(edges) - reachable, |queue|
    {
      var cur := queue[0];
      ghost var rest := queue[1..];
      assert forall k :: k in queue <==> k == cur || k in rest;
      queue := queue[1..];
      if cur in adjacency {
        queue, reachable := Enqueue(edges, root, roots, adjacency, cur, queue, reachable);
      }
    }
    assert ClosedUnderBelow(edges, root, reachable);
    forall k | InProduction(edges, root, k) ensures k in reachable { ReachableFound(edges, root, reachable, k); }
  }

  lemma ReachableFound(edges: seq<Edge>, root: string, reachable: set<string>, k: string)
    requires ClosedUnderBelow(edges, root, reachable) && InProduction(edges, root, k)
    ensures k in reachable
  {
    var p :| ProductionPath(edges, root, p) && p[|p| - 1] == k;
    ClosedHoldsPath(edges, root, reachable, p);
  }

  /** Visits the children of one key. */
  method Enqueue(ghost edges: seq<Edge>, root: string, ghost roots: set<string>, adjacency: map<string, seq<string>>,
                 cur: string, queue0: seq<string>, reachable0: set<string>)
    returns (queue: seq<string>, reachable: set<string>)
    requires Indexed(edges, root, roots, adjacency) && cur in adjacency
    requires InProduction(edges, root, cur) && reachable0 <= ChildKeys(edges)
    requires forall k :: k in reachable0 ==> InProduction(edges, root, k)
    ensures reachable0 <= reachable <= ChildKeys(edges)
    ensures reachable == reachable0 ==> queue == queue0
    ensures forall k :: k in queue <==> k in queue0 || k in reachable - reachable0
    ensures forall c :: c in adjacency[cur] ==> c in reachable
    ensures forall k :: k in reachable ==> InProduction(edges, root, k)
  {
    hide Below, ProductionRoot, InProduction;
    queue, reachable := queue0, reachable0;
    var children := adjacency[cur];
    for i := 0 to |children|
      invariant reachable0 <= reachable <= ChildKeys(edges)
      invariant reachable == reachable0 ==> queue == queue0
      invariant forall k :: k in queue <==> k in queue0 || k in reachable - reachable0
      invariant forall j :: 0 <= j < i ==> children[j] in reachable
      invariant forall k :: k in reachable ==> InProduction(edges, root, k)
    {
      var child := children[i];
      assert child in adjacency[cur] && Below(edges, root, cur, child);
      BelowInProduction(edges, root, cur, child);
      BelowChild(edges, root, cur, child);
      if child !in reachable {
        reachable := reachable + {child};
        queue := queue + [child];
      }
    }
  }

  method PropagateDevFlag(edges: array<Edge>, rootKey: string)
    modifies edges
    ensures Flagged(old(edges[..]), rootKey, edges[..])
  {
    hide InProduction;
    ghost var before := edges[..];
    var roots, adjacency := IndexEdges(edges, rootKey);
    var reachable := ProductionReachable(before, rootKey, roots, adjacency);
    for i := 0 to edges.Length
      modifies edges
      invariant forall j :: i <= j < edges.Length ==> edges[j] == before[j]
      invariant forall j :: 0 <= j < i ==> edges[j] == before[j].(dev := before[j].childKey !in reachable)
    {
      edges[i] := edges[i].(dev := edges[i].childKey !in reachable);
    }
  }
}
