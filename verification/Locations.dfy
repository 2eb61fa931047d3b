/** Giving lockfile edges the manifest position of the direct dependency that pulled them in. */
module Locations {
  import opened Wrappers
  import opened Sequences
  import opened Text
  import opened Models

  function TrimPrefix(s: string, prefix: string): string {
    if HasPrefix(s, prefix) then s[|prefix|..] else s
  }

  function NameFromKey(key: string): string {
    var rest := TrimPrefix(key, "package/");
    var i := IndexOf(rest, '/');
    Before(if i < |rest| then rest[i + 1..] else rest, '?')
  }

  /** The position declared for every name; the last declaration of a name counts. */
  ghost function Declared(deps: seq<Dependency>): map<string, Location> {
    if deps == [] then map[]
    else
      var names, d := Declared(deps[..|deps| - 1]), deps[|deps| - 1];
      if d.location.None? then names else names[NameFromKey(d.analysisIdentifier) := d.location.value]
  }

  // ---- Which keys a position reaches

  /** A direct edge whose name is declared. */
  predicate IsSeed(e: Edge, names: map<string, Location>) {
    e.parentKey == "" && NameFromKey(e.childKey) in names
  }

  /** A transitive edge that has no position of its own. */
  predicate IsFree(e: Edge) {
    e.parentKey != "" && e.location.None?
  }

  ghost predicate FreeEdge(edges: seq<Edge>, parent: string, child: string) {
    exists e :: e in edges && IsFree(e) && e.parentKey == parent && e.childKey == child
  }

  /** A chain of keys from a located direct dependency along transitive edges without a position. */
  ghost predicate IsRoute(edges: seq<Edge>, names: map<string, Location>, p: seq<string>) {
    && p != []
    && (exists e :: e in edges && IsSeed(e, names) && e.childKey == p[0])
    && (forall i :: 0 < i < |p| ==> FreeEdge(edges, p[i - 1], p[i]))
  }

  /** `loc` is the position of a direct dependency from which `key` is reached. */
  ghost predicate ReachedWith(edges: seq<Edge>, names: map<string, Location>, key: string, loc: Location) {
    exists p :: IsRoute(edges, names, p) && p[|p| - 1] == key && NameFromKey(p[0]) in names && loc == names[NameFromKey(p[0])]
  }

  ghost predicate Reached(edges: seq<Edge>, names: map<string, Location>, key: string) {
    exists loc :: ReachedWith(edges, names, key, loc)
  }

  // ---- What attaching does

  ghost predicate EdgeAttached(before: seq<Edge>, names: map<string, Location>, e: Edge, f: Edge) {
    && f == e.(location := f.location)
    && (e.parentKey == "" ==>
          f.location == if NameFromKey(e.childKey) in names then Some(names[NameFromKey(e.childKey)]) else e.location)
    && (e.parentKey != "" && e.location.Some? ==> f.location == e.location)
    && (IsFree(e) ==> (f.location.Some? <==> Reached(before, names, e.parentKey)))
    && (IsFree(e) && f.location.Some? ==> ReachedWith(before, names, e.parentKey, f.location.value))
  }

  ghost predicate Attached(before: seq<Edge>, names: map<string, Location>, after: seq<Edge>) {
    |after| == |before| && forall i :: 0 <= i < |before| ==> EdgeAttached(before, names, before[i], after[i])
  }

  lemma SeedReached(edges: seq<Edge>, names: map<string, Location>, e: Edge)
    requires e in edges && IsSeed(e, names)
    ensures ReachedWith(edges, names, e.childKey, names[NameFromKey(e.childKey)])
  {
    var p := [e.childKey];
    assert IsRoute(edges, names, p) && p[|p| - 1] == e.childKey;
  }

  lemma RouteExtends(edges: seq<Edge>, names: map<string, Location>, p: seq<string>, child: string)
    requires IsRoute(edges, names, p) && FreeEdge(edges, p[|p| - 1], child)
    ensures IsRoute(edges, names, p + [child])
  {
    hide FreeEdge, IsSeed;
    var q := p + [child];
    forall i | 0 < i < |q| ensures FreeEdge(edges, q[i - 1], q[i]) {
      if i < |p| { assert q[i] == p[i] && q[i - 1] == p[i - 1]; }
    }
  }

  lemma ReachedFurther(edges: seq<Edge>, names: map<string, Location>, e: Edge, loc: Location)
    requires e in edges && IsFree(e) && ReachedWith(edges, names, e.parentKey, loc)
    ensures ReachedWith(edges, names, e.childKey, loc)
  {
    var p :| IsRoute(edges, names, p) && p[|p| - 1] == e.parentKey && NameFromKey(p[0]) in names && loc == names[NameFromKey(p[0])];
    assert FreeEdge(edges, e.parentKey, e.childKey);
    RouteExtends(edges, names, p, e.childKey);
  }

  /** A set of keys that holds the seeds and is closed under free edges holds everything reached. */
  lemma {:induction false} ClosedHoldsRoute(edges: seq<Edge>, names: map<string, Location>, keys: set<string>, p: seq<string>)
    requires IsRoute(edges, names, p)
    requires forall e :: e in edges && IsSeed(e, names) ==> e.childKey in keys
    requires forall e :: e in edges && IsFree(e) && e.parentKey in keys ==> e.childKey in keys
    ensures p[|p| - 1] in keys
    decreases |p|
  {
    if |p| > 1 {
      var q := p[..|p| - 1];
      assert IsRoute(edges, names, q);
      ClosedHoldsRoute(edges, names, keys, q);
      assert FreeEdge(edges, p[|p| - 2], p[|p| - 1]);
    }
  }

  /** The edges while positions spread: known keys are reached, and located edges have spread to their children. */
  ghost predicate Spreading(before: seq<Edge>, names: map<string, Location>, known: map<string, Location>, now: seq<Edge>) {
    && |now| == |before| && known.Keys <= ChildKeys(before)
    && (forall k :: k in known ==> ReachedWith(before, names, k, known[k]))
    && (forall e :: e in before && IsSeed(e, names) ==> e.childKey in known)
    && (forall i :: 0 <= i < |before| ==> EdgeSpreading(before, names, known, before[i], now[i]))
  }

  ghost predicate EdgeSpreading(before: seq<Edge>, names: map<string, Location>, known: map<string, Location>, e: Edge, f: Edge) {
    if e.parentKey == "" || e.location.Some? then EdgeAttached(before, names, e, f)
    else
      && f == e.(location := f.location)
      && (f.location.Some? ==> ReachedWith(before, names, e.parentKey, f.location.value) && e.childKey in known)
  }

  /** Nothing more can spread: an edge still without a position has an unknown parent. */
  ghost predicate Settled(known: map<string, Location>, now: seq<Edge>, n: nat)
    requires n <= |now|
  {
    forall i :: 0 <= i < n && IsFree(now[i]) ==> now[i].parentKey !in known
  }

  lemma SettledIsAttached(before: seq<Edge>, names: map<string, Location>, known: map<string, Location>, now: seq<Edge>)
    requires Spreading(before, names, known, now) && Settled(known, now, |now|)
    ensures Attached(before, names, now)
  {
    hide ReachedWith;
    forall e | e in before && IsFree(e) && e.parentKey in known ensures e.childKey in known {
      var i :| 0 <= i < |before| && before[i] == e;
      assert EdgeSpreading(before, names, known, before[i], now[i]);
    }
    forall i | 0 <= i < |before| ensures EdgeAttached(before, names, before[i], now[i]) {
      var e, f := before[i], now[i];
      assert EdgeSpreading(before, names, known, e, f);
      if IsFree(e) && f.location.None? {
        forall loc ensures !ReachedWith(before, names, e.parentKey, loc) {
          if ReachedWith(before, names, e.parentKey, loc) {
            RouteKnown(before, names, known, e.parentKey, loc);
          }
        }
      }
    }
  }

  lemma RouteKnown(before: seq<Edge>, names: map<string, Location>, known: map<string, Location>, key: string, loc: Location)
    requires ReachedWith(before, names, key, loc)
    requires forall e :: e in before && IsSeed(e, names) ==> e.childKey in known
    requires forall e :: e in before && IsFree(e) && e.parentKey in known ==> e.childKey in known
    ensures key in known
  {
    var p :| IsRoute(before, names, p) && p[|p| - 1] == key;
    ClosedHoldsRoute(before, names, known.Keys, p);
  }

  /** Attaching a second time changes nothing. */
  lemma AttachedTwice(before: seq<Edge>, names: map<string, Location>, once: seq<Edge>, twice: seq<Edge>)
    requires Attached(before, names, once) && Attached(once, names, twice)
    ensures twice == once
  {
    hide ReachedWith;
    forall i | 0 <= i < |once| ensures twice[i] == once[i] {
      assert EdgeAttached(before, names, before[i], once[i]);
      assert EdgeAttached(once, names, once[i], twice[i]);
      if IsFree(once[i]) && twice[i].location.Some? {
        RouteStillThere(before, names, once, once[i].parentKey, twice[i].location.value);
      }
    }
  }

  lemma RouteStillThere(before: seq<Edge>, names: map<string, Location>, once: seq<Edge>, key: string, loc: Location)
    requires Attached(before, names, once) && ReachedWith(once, names, key, loc)
    ensures ReachedWith(before, names, key, loc)
  {
    hide Reached, NameFromKey;
    var p :| IsRoute(once, names, p) && p[|p| - 1] == key && NameFromKey(p[0]) in names && loc == names[NameFromKey(p[0])];
    var s :| s in once && IsSeed(s, names) && s.childKey == p[0];
    var j :| 0 <= j < |once| && once[j] == s;
    assert EdgeAttached(before, names, before[j], once[j]) && before[j] in before && IsSeed(before[j], names);
    forall i | 0 < i < |p| ensures FreeEdge(before, p[i - 1], p[i]) {
      assert FreeEdge(once, p[i - 1], p[i]);
      var e :| e in once && IsFree(e) && e.parentKey == p[i - 1] && e.childKey == p[i];
      var m :| 0 <= m < |once| && once[m] == e;
      assert EdgeAttached(before, names, before[m], once[m]) && before[m] in before && IsFree(before[m]);
    }
    assert IsRoute(before, names, p);
  }

  // ---- The algorithm

  method LocationsByName(deps: seq<Dependency>) returns (names: map<string, Location>)
    ensures names == Declared(deps)
  {
    names := map[];
    for i := 0 to |deps|
      invariant names == Declared(deps[..i])
    {
      assert deps[..i + 1][..i] == deps[..i];
      if deps[i].location.Some? {
        names := names[NameFromKey(deps[i].analysisIdentifier) := deps[i].location.value];
      }
    }
    assert deps[..|deps|] == deps;
  }

  method LocateDirect(edges: array<Edge>, names: map<string, Location>) returns (known: map<string, Location>)
    modifies edges
    ensures Spreading(old(edges[..]), names, known, edges[..])
  {
    hide ReachedWith, NameFromKey;
    ghost var before := edges[..];
    known := map[];
    for i := 0 to edges.Length
      modifies edges
      invariant forall j :: i <= j < edges.Length ==> edges[j] == before[j]
      invariant forall j :: 0 <= j < i ==> EdgeSpreading(before, names, map[], before[j], edges[j])
      invariant forall j :: 0 <= j < i && IsSeed(before[j], names) ==> before[j].childKey in known
      invariant known.Keys <= ChildKeys(before)
      invariant forall k :: k in known ==> ReachedWith(before, names, k, known[k])
    {
      var e := edges[i];
      assert e == before[i] && e in before;
      if e.parentKey == "" && NameFromKey(e.childKey) in names {
        var loc := names[NameFromKey(e.childKey)];
        SeedReached(before, names, e);
        edges[i] := e.(location := Some(loc));
        known := known[e.childKey := loc];
      }
    }
    forall e | e in before && IsSeed(e, names) ensures e.childKey in known {
      var j :| 0 <= j < |before| && before[j] == e;
    }
    forall j | 0 <= j < |before| ensures EdgeSpreading(before, names, known, before[j], edges[j]) {
      assert EdgeSpreading(before, names, map[], before[j], edges[j]);
    }
  }

  /** One pass over the edges; it reports whether a new key became known. */
  method SpreadOnce(edges: array<Edge>, names: map<string, Location>, known0: map<string, Location>, ghost before: seq<Edge>)
    returns (changed: bool, known: map<string, Location>)
    requires Spreading(before, names, known0, edges[..])
    modifies edges
    ensures Spreading(before, names, known, edges[..])
    ensures changed ==> |known0| < |known|
    ensures !changed ==> known == known0 && Settled(known, edges[..], edges.Length)
  {
    hide ReachedWith, NameFromKey, EdgeAttached, Spreading;
    changed, known := false, known0;
    for i := 0 to edges.Length
      modifies edges
      invariant Spreading(before, names, known, edges[..])
      invariant known0.Keys <= known.Keys && (changed ==> |known0| < |known|)
      invariant !changed ==> known == known0 && Settled(known, edges[..], i)
    {
      var e := edges[i];
      if e.location.None? && e.parentKey != "" && e.parentKey in known {
        var loc := known[e.parentKey];
        ghost var now := edges[..];
        SpreadingStep(before, names, known, now, i);
        edges[i] := e.(location := Some(loc));
        assert edges[..] == now[i := e.(location := Some(loc))];
        if e.childKey !in known {
          LargerMap(known, e.childKey, loc);
          known := known[e.childKey := loc];
          changed := true;
        }
      }
    }
  }

  lemma LargerMap(m: map<string, Location>, k: string, loc: Location)
    requires k !in m
    ensures |m[k := loc]| == |m| + 1 && m.Keys <= m[k := loc].Keys
  {
    assert m[k := loc].Keys == m.Keys + {k};
  }

  lemma SpreadingStep(before: seq<Edge>, names: map<string, Location>, known: map<string, Location>, now: seq<Edge>, i: nat)
    requires Spreading(before, names, known, now)
    requires i < |now| && IsFree(now[i]) && now[i].parentKey in known
    ensures var e, loc := now[i], known[now[i].parentKey];
      Spreading(before, names, if e.childKey in known then known else known[e.childKey := loc], now[i := e.(location := Some(loc))])
  {
    hide ReachedWith, NameFromKey;
    var e, loc := now[i], known[now[i].parentKey];
    assert EdgeSpreading(before, names, known, before[i], e);
    assert before[i] == e && e in before;
    ReachedFurther(before, names, e, loc);
    var more := if e.childKey in known then known else known[e.childKey := loc];
    var next := now[i := e.(location := Some(loc))];
    forall j | 0 <= j < |before| ensures EdgeSpreading(before, names, more, before[j], next[j]) {
      assert EdgeSpreading(before, names, known, before[j], now[j]);
    }
  }

  method AttachManifestLocations(edges: array<Edge>, deps: seq<Dependency>) returns (ghost passes: nat)
    modifies edges
    ensures Attached(old(edges[..]), Declared(deps), edges[..])
    ensures passes <= |ChildKeys(old(edges[..]))| + 1
  {
    hide ReachedWith, NameFromKey, EdgeAttached, EdgeSpreading;
    passes := 0;
    ghost var before := edges[..];
    if edges.Length == 0 || |deps| == 0 {
      NoSeeds(before, Declared(deps));
      return;
    }
    var names := LocationsByName(deps);
    if |names| == 0 {
      NoSeeds(before, names);
      return;
    }
    var known := LocateDirect(edges, names);
    while true
      invariant Spreading(before, names, known, edges[..])
      invariant passes <= |known.Keys|
      decreases |ChildKeys(before)| - |known.Keys|
    {
      var changed;
      ghost var fewer := known;
      changed, known := SpreadOnce(edges, names, known, before);
      passes := passes + 1;
      KnownBounded(before, names, known, edges[..]);
      if !changed {
        break;
      }
    }
    SettledIsAttached(before, names, known, edges[..]);
  }

  lemma KnownBounded(before: seq<Edge>, names: map<string, Location>, known: map<string, Location>, now: seq<Edge>)
    requires Spreading(before, names, known, now)
    ensures |known.Keys| <= |ChildKeys(before)|
  {
    SubsetSize(known.Keys, ChildKeys(before));
  }

  lemma NoSeeds(edges: seq<Edge>, names: map<string, Location>)
    requires edges == [] || names == map[]
    ensures Attached(edges, names, edges)
  {}
}
