/** Dependency chains, cycles and levels of a graph given as node -> dependency keys. */
module DependencyGraph {
  import opened Sequences


  /** The key of a node: its type. */
  datatype TypeKey = TypeKey(nodeType: string)

  type Graph = map<TypeKey, seq<TypeKey>>

  ghost predicate Registered(g: Graph) {
    forall k, d :: k in g && d in g[k] ==> d in g
  }

  /** Each element of `p` is a dependency of the next one. */
  ghost predicate IsChain(g: Graph, p: seq<TypeKey>) {
    && (forall i :: 0 <= i < |p| ==> p[i] in g)
    && (forall i :: 0 < i < |p| ==> p[i - 1] in g[p[i]])
  }

  /** A chain with at least one dependency that comes back to where it started. */
  ghost predicate HasCycle(g: Graph) {
    exists p :: |p| > 1 && IsChain(g, p) && p[0] == p[|p| - 1]
  }

  /** A chain of `n` dependencies leads to `k`. */
  ghost predicate ChainTo(g: Graph, n: nat, k: TypeKey)
    decreases n
  {
    k in g && (n == 0 || exists d :: d in g[k] && ChainTo(g, n - 1, d))
  }

  /** The longest dependency chain of `k` has exactly `n` dependencies. */
  ghost predicate LongestChain(g: Graph, n: nat, k: TypeKey) {
    ChainTo(g, n, k) && !ChainTo(g, n + 1, k)
  }

  lemma {:induction false} ChainToIsPath(g: Graph, n: nat, k: TypeKey)
    ensures ChainTo(g, n, k) <==> exists p :: |p| == n + 1 && IsChain(g, p) && p[n] == k
    decreases n
  {
    if n == 0 {
      if k in g {
        var p := [k];
        assert |p| == 1 && IsChain(g, p) && p[0] == k;
      }
    } else {
      if ChainTo(g, n, k) {
        var d :| d in g[k] && ChainTo(g, n - 1, d);
        ChainToIsPath(g, n - 1, d);
        var p :| |p| == n && IsChain(g, p) && p[n - 1] == d;
        var q := p + [k];
        assert |q| == n + 1 && IsChain(g, q) && q[n] == k;
      }
      if p :| |p| == n + 1 && IsChain(g, p) && p[n] == k {
        var q := p[..n];
        assert |q| == n && IsChain(g, q) && q[n - 1] == p[n - 1];
        ChainToIsPath(g, n - 1, p[n - 1]);
      }
    }
  }

  lemma {:induction false} ChainShorter(g: Graph, m: nat, n: nat, k: TypeKey)
    requires m <= n && ChainTo(g, n, k)
    ensures ChainTo(g, m, k)
    decreases m
  {
    if m > 0 {
      var d :| d in g[k] && ChainTo(g, n - 1, d);
      ChainShorter(g, m - 1, n - 1, d);
    }
  }

  lemma LongestChainUnique(g: Graph, m: nat, n: nat, k: TypeKey)
    requires LongestChain(g, m, k) && LongestChain(g, n, k)
    ensures m == n
  {
    if m < n { ChainShorter(g, m + 1, n, k); }
    if n < m { ChainShorter(g, n + 1, m, k); }
  }

  /** The nodes of a cycle have chains of every length. */
  lemma {:induction false} CycleChains(g: Graph, p: seq<TypeKey>, n: nat, i: nat)
    requires |p| > 1 && IsChain(g, p) && p[0] == p[|p| - 1] && i < |p|
    ensures ChainTo(g, n, p[i])
    decreases n
  {
    if n > 0 {
      var j := if i == 0 then |p| - 1 else i;
      CycleChains(g, p, n - 1, j - 1);
      assert p[j - 1] in g[p[i]];
    }
  }

  ghost predicate DependsWithin(g: Graph, s: set<TypeKey>, k: TypeKey) {
    k in g && exists d :: d in g[k] && d in s
  }

  /** A set in which every node depends on a node of the set has chains of every length inside it. */
  lemma {:induction false} ClosedSetChain(g: Graph, s: set<TypeKey>, k: TypeKey, n: nat) returns (p: seq<TypeKey>)
    requires k in s && s <= g.Keys
    requires forall x {:trigger DependsWithin(g, s, x)} :: x in s ==> DependsWithin(g, s, x)
    ensures |p| == n + 1 && IsChain(g, p) && p[n] == k
    ensures forall i :: 0 <= i < |p| ==> p[i] in s
    decreases n
  {
    if n == 0 {
      p := [k];
    } else {
      assert DependsWithin(g, s, k);
      var d :| d in g[k] && d in s;
      var q := ClosedSetChain(g, s, d, n - 1);
      p := q + [k];
    }
  }

  lemma {:induction false} Pigeonhole(p: seq<TypeKey>, s: set<TypeKey>) returns (i: nat, j: nat)
    requires forall m :: 0 <= m < |p| ==> p[m] in s
    requires |p| > |s|
    ensures i < j < |p| && p[i] == p[j]
    decreases |s|
  {
    var last := |p| - 1;
    if m :| 0 <= m < last && p[m] == p[last] {
      i, j := m, last;
    } else {
      assert |s - {p[last]}| == |s| - 1;
      i, j := Pigeonhole(p[..last], s - {p[last]});
    }
  }

  lemma ClosedSetHasCycle(g: Graph, s: set<TypeKey>)
    requires s != {} && s <= g.Keys
    requires forall x {:trigger DependsWithin(g, s, x)} :: x in s ==> DependsWithin(g, s, x)
    ensures HasCycle(g)
  {
    var k :| k in s;
    var p := ClosedSetChain(g, s, k, |s|);
    var i, j := Pigeonhole(p, s);
    var q := p[i..j + 1];
    assert |q| > 1 && IsChain(g, q) && q[0] == q[|q| - 1];
  }

  // ---- Stages

  ghost predicate Distinct(s: seq<TypeKey>) {
    forall i, j :: 0 <= i < j < |s| ==> s[i] != s[j]
  }

  /** Stage `n` lists, without repetition, exactly the nodes whose longest dependency chain has length `n`. */
  ghost predicate StageAt(g: Graph, n: nat, stage: seq<TypeKey>) {
    Distinct(stage) && forall k :: k in stage <==> LongestChain(g, n, k)
  }

  ghost predicate Canonical(g: Graph, stages: seq<seq<TypeKey>>) {
    && (forall n :: 0 <= n < |stages| ==> StageAt(g, n, stages[n]) && stages[n] != [])
    && (forall k :: k in g ==> exists n :: 0 <= n < |stages| && k in stages[n])
  }

  /** Any grouping of all nodes that runs every dependency in a strictly earlier group. */
  ghost predicate RespectsDependencies(g: Graph, groups: seq<seq<TypeKey>>) {
    && (forall k :: k in g ==> exists n :: 0 <= n < |groups| && k in groups[n])
    && (forall n, k, d {:trigger k in groups[n], d in g[k]} :: 0 <= n < |groups| && k in groups[n] && k in g && d in g[k] ==>
          InEarlier(groups, n, d))
  }

  ghost predicate InEarlier(groups: seq<seq<TypeKey>>, n: nat, d: TypeKey)
    requires n <= |groups|
  {
    exists m :: 0 <= m < n && d in groups[m]
  }

  lemma CanonicalAcyclic(g: Graph, stages: seq<seq<TypeKey>>)
    requires Canonical(g, stages)
    ensures !HasCycle(g)
  {
    if p :| |p| > 1 && IsChain(g, p) && p[0] == p[|p| - 1] {
      var n :| 0 <= n < |stages| && p[0] in stages[n];
      assert StageAt(g, n, stages[n]);
      CycleChains(g, p, n + 1, 0);
    }
  }

  /** Whatever order the maps are iterated in, two canonical results have the same stages as sets. */
  lemma CanonicalUnique(g: Graph, a: seq<seq<TypeKey>>, b: seq<seq<TypeKey>>)
    requires Canonical(g, a) && Canonical(g, b)
    ensures |a| == |b|
    ensures forall n :: 0 <= n < |a| ==> multiset(a[n]) == multiset(b[n])
  {
    CanonicalNotLonger(g, a, b);
    CanonicalNotLonger(g, b, a);
    forall n | 0 <= n < |a| ensures multiset(a[n]) == multiset(b[n]) {
      assert StageAt(g, n, a[n]) && StageAt(g, n, b[n]);
      DistinctCount(a[n]);
      DistinctCount(b[n]);
      forall k ensures multiset(a[n])[k] == multiset(b[n])[k] {
        assert k in a[n] <==> k in b[n];
      }
    }
  }

  lemma {:induction false} DistinctCount(s: seq<TypeKey>)
    requires Distinct(s)
    ensures forall k :: multiset(s)[k] == if k in s then 1 else 0
  {
    if s != [] {
      DistinctCount(s[1..]);
      assert s == [s[0]] + s[1..];
      forall k ensures multiset(s)[k] == if k in s then 1 else 0 {
        assert multiset(s)[k] == multiset([s[0]])[k] + multiset(s[1..])[k];
      }
    }
  }

  lemma {:induction false} DistinctSize(s: seq<TypeKey>)
    requires Distinct(s)
    ensures |Elements(s)| == |s|
  {
    if s != [] {
      DistinctSize(s[1..]);
      assert s == [s[0]] + s[1..];
      assert Elements(s) == {s[0]} + Elements(s[1..]);
    }
  }

  lemma CanonicalNotLonger(g: Graph, a: seq<seq<TypeKey>>, b: seq<seq<TypeKey>>)
    requires Canonical(g, a) && Canonical(g, b)
    ensures |a| <= |b|
  {
    if a == [] { return; }
    var n := |a| - 1;
    assert StageAt(g, n, a[n]) && a[n] != [];
    var k := a[n][0];
    assert k in a[n];
    var m :| 0 <= m < |b| && k in b[m];
    assert StageAt(g, m, b[m]);
    LongestChainUnique(g, m, n, k);
  }

  lemma {:induction false} GroupIndexAtLeastChain(g: Graph, groups: seq<seq<TypeKey>>, n: nat, k: TypeKey, m: nat)
    requires RespectsDependencies(g, groups)
    requires ChainTo(g, n, k) && m < |groups| && k in groups[m]
    ensures n <= m
    decreases n
  {
    if n > 0 {
      var d :| d in g[k] && ChainTo(g, n - 1, d);
      assert InEarlier(groups, m, d);
      var e :| 0 <= e < m && d in groups[e];
      GroupIndexAtLeastChain(g, groups, n - 1, d, e);
    }
  }

  /** No grouping that respects the dependencies has fewer groups than the canonical one. */
  lemma CanonicalMinimal(g: Graph, stages: seq<seq<TypeKey>>, groups: seq<seq<TypeKey>>)
    requires Canonical(g, stages) && RespectsDependencies(g, groups)
    ensures |stages| <= |groups|
  {
    if stages != [] {
      var n := |stages| - 1;
      assert StageAt(g, n, stages[n]);
      var k := stages[n][0];
      assert k in stages[n];
      var m :| 0 <= m < |groups| && k in groups[m];
      GroupIndexAtLeastChain(g, groups, n, k, m);
    }
  }

  /** The canonical stages themselves run every dependency strictly earlier. */
  lemma CanonicalRespectsDependencies(g: Graph, stages: seq<seq<TypeKey>>)
    requires Registered(g) && Canonical(g, stages)
    ensures RespectsDependencies(g, stages)
  {
    hide StageAt, InEarlier;
    forall n, k, d | 0 <= n < |stages| && k in stages[n] && k in g && d in g[k] ensures InEarlier(stages, n, d) {
      assert d in g;
      DependencyInEarlier(g, stages, n, k, d);
    }
  }

  lemma DependencyInEarlier(g: Graph, stages: seq<seq<TypeKey>>, n: nat, k: TypeKey, d: TypeKey)
    requires Canonical(g, stages) && n < |stages| && k in stages[n] && k in g && d in g[k] && d in g
    ensures InEarlier(stages, n, d)
  {
    assert StageAt(g, n, stages[n]);
    var m :| 0 <= m < |stages| && d in stages[m];
    assert StageAt(g, m, stages[m]);
    hide Canonical, StageAt;
    if m >= n {
      assert ChainTo(g, m + 1, k);
      ChainShorter(g, n + 1, m + 1, k);
    }
  }

  /** A node is in one stage only. */
  lemma CanonicalOneStage(g: Graph, stages: seq<seq<TypeKey>>, m: nat, n: nat, k: TypeKey)
    requires Canonical(g, stages) && m < |stages| && n < |stages| && k in stages[m] && k in stages[n]
    ensures m == n
  {
    assert StageAt(g, m, stages[m]) && StageAt(g, n, stages[n]);
    LongestChainUnique(g, m, n, k);
  }
}
