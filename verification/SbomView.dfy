/** Printing the dependency graph of an SBOM as a tree in which every package is expanded once. */
module SbomView {
  import opened Wrappers
  import opened Sequences
  import opened Ordering
  import opened Models

  datatype Package = Package(name: string, version: string, ecosystem: string, deps: seq<string>, location: Option<Location>)

  /** Why a line has no subtree below it, or that it has one. */
  datatype Mark = Leaf | BeyondLimit(hidden: nat) | Deduped | Expanded

  datatype Line = Line(key: string, depth: nat, last: bool, mark: Mark)

  type Index = map<string, Package>

  function DepsOf(byKey: Index, key: string): seq<string> {
    if key in byKey then byKey[key].deps else []
  }

  function SortKey(byKey: Index, key: string): string {
    if key in byKey && byKey[key].name != "" then
      if byKey[key].version != "" then byKey[key].name + "@" + byKey[key].version else byKey[key].name
    else key
  }

  /** The distinct keys, ordered by label; keys with equal labels may come in any order. */
  ghost predicate SortedDistinct(byKey: Index, keys: seq<string>, out: seq<string>) {
    && multiset(out) == multiset(Elements(keys))
    && (forall i, j :: 0 <= i < j < |out| ==> StrLe(SortKey(byKey, out[i]), SortKey(byKey, out[j])))
  }

  lemma SortedDistinctMembers(byKey: Index, keys: seq<string>, out: seq<string>)
    requires SortedDistinct(byKey, keys, out)
    ensures forall k :: k in out <==> k in keys
  {
    forall k ensures k in out <==> k in keys {
      assert k in out <==> k in multiset(out);
    }
  }

  lemma SortedDistinctSize(byKey: Index, keys: seq<string>, out: seq<string>)
    requires SortedDistinct(byKey, keys, out)
    ensures |out| == |Elements(keys)|
  {
    assert |multiset(out)| == |out|;
  }

  method SortedChildren(byKey: Index, keys: seq<string>) returns (out: seq<string>)
    ensures SortedDistinct(byKey, keys, out)
  {
    var seen: set<string> := {};
    out := [];
    for i := 0 to |keys|
      invariant seen == Elements(keys[..i]) && multiset(out) == multiset(seen)
    {
      assert keys[..i + 1] == keys[..i] + [keys[i]];
      if keys[i] !in seen {
        seen := seen + {keys[i]};
        out := out + [keys[i]];
      }
    }
    assert keys[..|keys|] == keys;
    var le := (a: string, b: string) => StrLe(SortKey(byKey, a), SortKey(byKey, b));
    LabelOrder(byKey, le);
    SortContents(out, le);
    SortSorts(out, le);
    out := Sort(out, le);
  }

  lemma LabelOrder(byKey: Index, le: (string, string) -> bool)
    requires forall a, b :: le(a, b) <==> StrLe(SortKey(byKey, a), SortKey(byKey, b))
    ensures TotalPreorder(le)
  {
    hide SortKey;
    forall x, y ensures le(x, y) || le(y, x) { StrLeTotal(SortKey(byKey, x), SortKey(byKey, y)); }
    forall x, y, z | le(x, y) && le(y, z) ensures le(x, z) {
      StrLeTransitive(SortKey(byKey, x), SortKey(byKey, y), SortKey(byKey, z));
    }
  }

  /** No two of the keys carry the same label. */
  ghost predicate LabelsDistinct(byKey: Index, keys: seq<string>) {
    forall x, y :: x in keys && y in keys && SortKey(byKey, x) == SortKey(byKey, y) ==> x == y
  }

  ghost predicate ByLabel(byKey: Index, out: seq<string>) {
    forall i, j :: 0 <= i < j < |out| ==> StrLe(SortKey(byKey, out[i]), SortKey(byKey, out[j]))
  }

  lemma DistinctLabelsOneOrder(byKey: Index, keys: seq<string>, a: seq<string>, b: seq<string>)
    requires LabelsDistinct(byKey, keys) && SortedDistinct(byKey, keys, a) && SortedDistinct(byKey, keys, b)
    ensures a == b
  {
    hide SortKey, StrLe;
    var le := (x: string, y: string) => StrLe(SortKey(byKey, x), SortKey(byKey, y));
    SortedDistinctMembers(byKey, keys, a);
    forall i, j | 0 <= i < |a| && 0 <= j < |a| && le(a[i], a[j]) && le(a[j], a[i]) ensures a[i] == a[j] {
      StrLeAntisymmetric(SortKey(byKey, a[i]), SortKey(byKey, a[j]));
      assert a[i] in keys && a[j] in keys;
    }
    SortedUnique(a, b, le);
  }

  lemma SomeOrder(byKey: Index, keys: seq<string>) returns (a: seq<string>)
    ensures SortedDistinct(byKey, keys, a)
  {
    hide SortKey, StrLe;
    var le := (x: string, y: string) => StrLe(SortKey(byKey, x), SortKey(byKey, y));
    var listed := Listed(Elements(keys));
    LabelOrder(byKey, le);
    SortContents(listed, le);
    SortSorts(listed, le);
    a := Sort(listed, le);
  }

  lemma EqualLabelsTwoOrders(byKey: Index, keys: seq<string>, x: string, y: string) returns (a: seq<string>, b: seq<string>)
    requires x in keys && y in keys && x != y && SortKey(byKey, x) == SortKey(byKey, y)
    ensures SortedDistinct(byKey, keys, a) && SortedDistinct(byKey, keys, b) && a != b
  {
    hide SortKey, StrLe;
    a := SomeOrder(byKey, keys);
    SortedDistinctMembers(byKey, keys, a);
    var i :| 0 <= i < |a| && a[i] == x;
    var j :| 0 <= j < |a| && a[j] == y;
    b := a[i := y][j := x];
    SwappedByLabel(byKey, a, i, j);
    assert multiset(b) == multiset(a);
    assert b[i] != a[i];
  }

  /** The order of siblings is determined, whatever order they were listed in, exactly when their labels differ. */
  lemma SiblingsDeterminedIff(byKey: Index, keys: seq<string>)
    ensures LabelsDistinct(byKey, keys) <==>
      forall a, b :: SortedDistinct(byKey, keys, a) && SortedDistinct(byKey, keys, b) ==> a == b
  {
    hide SortedDistinct, SortKey;
    if LabelsDistinct(byKey, keys) {
      forall a, b | SortedDistinct(byKey, keys, a) && SortedDistinct(byKey, keys, b) ensures a == b {
        DistinctLabelsOneOrder(byKey, keys, a, b);
      }
    } else {
      var x, y :| x in keys && y in keys && SortKey(byKey, x) == SortKey(byKey, y) && x != y;
      var a, b := EqualLabelsTwoOrders(byKey, keys, x, y);
    }
  }

  lemma SwappedByLabel(byKey: Index, a: seq<string>, i: nat, j: nat)
    requires ByLabel(byKey, a) && i < |a| && j < |a| && SortKey(byKey, a[i]) == SortKey(byKey, a[j])
    ensures ByLabel(byKey, a[i := a[j]][j := a[i]])
  {
    hide StrLe, SortKey;
    var b := a[i := a[j]][j := a[i]];
    assert forall k :: 0 <= k < |a| ==> SortKey(byKey, b[k]) == SortKey(byKey, a[k]);
  }

  /** Siblings with a name stand by name and then version; those without, or unknown, by key. */
  lemma SiblingOrder(byKey: Index, keys: seq<string>, out: seq<string>, i: nat, j: nat)
    requires SortedDistinct(byKey, keys, out) && i < j < |out|
    requires out[i] in byKey && out[j] in byKey && byKey[out[i]].name != "" && byKey[out[j]].name != ""
    ensures var a, b := byKey[out[i]], byKey[out[j]];
      StrLe(if a.version == "" then a.name else a.name + "@" + a.version, if b.version == "" then b.name else b.name + "@" + b.version)
  {
    hide StrLe;
  }

  /** Of one package, the entry without a version stands first, and the others in the order of their versions. */
  lemma VersionOrder(byKey: Index, keys: seq<string>, out: seq<string>, i: nat, j: nat)
    requires SortedDistinct(byKey, keys, out) && i < j < |out| && out[i] in byKey && out[j] in byKey
    requires byKey[out[i]].name == byKey[out[j]].name != ""
    ensures StrLe(byKey[out[i]].version, byKey[out[j]].version)
  {
    hide StrLe, SortedDistinct;
    SiblingOrder(byKey, keys, out, i, j);
    VersionsAfterName(byKey[out[i]].name, byKey[out[i]].version, byKey[out[j]].version);
  }

  lemma VersionsAfterName(name: string, v: string, w: string)
    requires StrLe(if v == "" then name else name + "@" + v, if w == "" then name else name + "@" + w)
    ensures StrLe(v, w)
  {
    if v != "" {
      assert name + "@" + v == name + ("@" + v) && ("@" + v)[1..] == v;
      if w == "" {
        StrLongerAfter(name, "@" + v);
      } else {
        assert name + "@" + w == name + ("@" + w) && ("@" + w)[1..] == w;
        SamePrefixOrder(name, "@" + v, "@" + w);
      }
    }
  }

  lemma {:induction false} SamePrefixOrder(prefix: string, a: string, b: string)
    ensures StrLe(prefix + a, prefix + b) <==> StrLe(a, b)
  {
    if prefix == "" {
      assert prefix + a == a && prefix + b == b;
    } else {
      SamePrefixOrder(prefix[1..], a, b);
      assert (prefix + a)[0] == prefix[0] == (prefix + b)[0];
      assert (prefix + a)[1..] == prefix[1..] + a && (prefix + b)[1..] == prefix[1..] + b;
    }
  }

  lemma StrLongerAfter(prefix: string, more: string)
    requires more != ""
    ensures !StrLe(prefix + more, prefix)
  {
    SamePrefixOrder(prefix, more, "");
    assert prefix + "" == prefix;
  }

  // ---- Reachability

  /** A path from one of `starts` along recorded dependencies. */
  ghost predicate IsPath(byKey: Index, starts: seq<string>, p: seq<string>) {
    && p != [] && p[0] in starts
    && forall i {:trigger DependencyAt(byKey, p, i)} :: 0 < i < |p| ==> DependencyAt(byKey, p, i)
  }

  ghost predicate DependencyAt(byKey: Index, p: seq<string>, i: nat)
    requires 0 < i < |p|
  {
    p[i - 1] in byKey && p[i] in byKey[p[i - 1]].deps
  }

  ghost predicate Reachable(byKey: Index, starts: seq<string>, k: string) {
    exists p :: IsPath(byKey, starts, p) && p[|p| - 1] == k
  }

  lemma StartReachable(byKey: Index, starts: seq<string>, k: string)
    requires k in starts
    ensures Reachable(byKey, starts, k)
  {
    var p := [k];
    assert IsPath(byKey, starts, p) && p[|p| - 1] == k;
  }

  lemma DependencyReachable(byKey: Index, starts: seq<string>, k: string, d: string)
    requires Reachable(byKey, starts, k) && d in DepsOf(byKey, k)
    ensures Reachable(byKey, starts, d)
  {
    var p :| IsPath(byKey, starts, p) && p[|p| - 1] == k;
    var q := p + [d];
    forall i | 0 < i < |q| ensures DependencyAt(byKey, q, i) {
      if i < |p| { assert DependencyAt(byKey, p, i); }
    }
    assert IsPath(byKey, starts, q) && q[|q| - 1] == d;
  }

  lemma {:induction false} ClosedHoldsPath(byKey: Index, starts: seq<string>, s: set<string>, p: seq<string>)
    requires IsPath(byKey, starts, p)
    requires forall k :: k in starts ==> k in s
    requires forall k, d :: k in s && d in DepsOf(byKey, k) ==> d in s
    ensures p[|p| - 1] in s
    decreases |p|
  {
    if |p| > 1 {
      var q := p[..|p| - 1];
      forall i | 0 < i < |q| ensures DependencyAt(byKey, q, i) { assert DependencyAt(byKey, p, i); }
      ClosedHoldsPath(byKey, starts, s, q);
      assert DependencyAt(byKey, p, |p| - 1);
    }
  }

  // ---- Facts about printed lines

  ghost function Printed(lines: seq<Line>): set<string> {
    set l | l in lines :: l.key
  }

  ghost function Expansions(lines: seq<Line>, k: string): nat {
    if lines == [] then 0
    else
      var last := lines[|lines| - 1];
      Expansions(lines[..|lines| - 1], k) + if last.mark == Expanded && last.key == k then 1 else 0
  }

  lemma ExpansionsAppend(lines: seq<Line>, l: Line, k: string)
    ensures Expansions(lines + [l], k) == Expansions(lines, k) + if l.mark == Expanded && l.key == k then 1 else 0
    ensures Printed(lines + [l]) == Printed(lines) + {l.key}
  {
    assert (lines + [l])[..|lines|] == lines;
  }

  /** The mark of a line, given whether its key has been expanded further up. */
  ghost function MarkOf(byKey: Index, maxDepth: nat, key: string, depth: nat, expanded: bool): Mark {
    var n := |Elements(DepsOf(byKey, key))|;
    if n == 0 then Leaf
    else if maxDepth > 0 && depth >= maxDepth then BeyondLimit(n)
    else if expanded then Deduped
    else Expanded
  }

  ghost predicate MarkedAt(byKey: Index, maxDepth: nat, lines: seq<Line>, i: nat)
    requires i < |lines|
  {
    var l := lines[i];
    l.mark == MarkOf(byKey, maxDepth, l.key, l.depth, Expansions(lines[..i], l.key) > 0)
  }

  ghost predicate Marked(byKey: Index, maxDepth: nat, lines: seq<Line>) {
    forall i :: 0 <= i < |lines| ==> MarkedAt(byKey, maxDepth, lines, i)
  }

  lemma MarkedAppend(byKey: Index, maxDepth: nat, lines: seq<Line>, l: Line)
    requires Marked(byKey, maxDepth, lines)
    requires l.mark == MarkOf(byKey, maxDepth, l.key, l.depth, Expansions(lines, l.key) > 0)
    ensures Marked(byKey, maxDepth, lines + [l])
  {
    hide MarkOf, Expansions;
    forall i | 0 <= i < |lines| + 1 ensures MarkedAt(byKey, maxDepth, lines + [l], i) {
      assert (lines + [l])[..i] == lines[..i];
      if i < |lines| { assert MarkedAt(byKey, maxDepth, lines, i); } else { assert lines[..i] == lines; }
    }
  }

  lemma ExpandedIsNew(byKey: Index, maxDepth: nat, key: string, depth: nat, expanded: bool)
    ensures var mark := MarkOf(byKey, maxDepth, key, depth, expanded);
      && (mark == Expanded ==> key in byKey && !expanded && DepsOf(byKey, key) != [])
      && (maxDepth == 0 && DepsOf(byKey, key) != [] ==> expanded || mark == Expanded)
  {
    if DepsOf(byKey, key) != [] { assert DepsOf(byKey, key)[0] in Elements(DepsOf(byKey, key)); }
  }

  lemma MarkOfChildren(byKey: Index, maxDepth: nat, key: string, depth: nat, expanded: bool, children: seq<string>)
    requires SortedDistinct(byKey, DepsOf(byKey, key), children)
    ensures MarkOf(byKey, maxDepth, key, depth, expanded) ==
      if |children| == 0 then Leaf
      else if maxDepth > 0 && depth >= maxDepth then BeyondLimit(|children|)
      else if expanded then Deduped
      else Expanded
    ensures children != [] ==> key in byKey
  {
    hide SortedDistinct;
    SortedDistinctSize(byKey, DepsOf(byKey, key), children);
  }

  ghost predicate ExpandedAbove(lines: seq<Line>, i: nat)
    requires i < |lines|
  {
    exists j :: 0 <= j < i && lines[j].mark == Expanded && lines[j].key == lines[i].key
  }

  lemma {:induction false} ExpansionsCount(lines: seq<Line>, k: string)
    ensures Expansions(lines, k) > 0 <==> exists j :: 0 <= j < |lines| && lines[j].mark == Expanded && lines[j].key == k
  {
    if lines != [] {
      var n := |lines| - 1;
      ExpansionsCount(lines[..n], k);
      assert forall j :: 0 <= j < n ==> lines[..n][j] == lines[j];
    }
  }

  /**
   * The marks: a key without dependencies is a leaf; at the depth limit the distinct dependencies are counted instead
   * of shown; above it a key is expanded the first time and marked as repeated from then on.
   */
  lemma MarksMean(byKey: Index, maxDepth: nat, lines: seq<Line>, i: nat)
    requires Marked(byKey, maxDepth, lines) && i < |lines|
    ensures var l := lines[i];
      var deps := if l.key in byKey then byKey[l.key].deps else [];
      var cut := maxDepth > 0 && l.depth >= maxDepth;
      && (l.mark == Leaf <==> deps == [])
      && (l.mark.BeyondLimit? <==> deps != [] && cut)
      && (l.mark.BeyondLimit? ==> l.mark.hidden == |set d | d in deps|)
      && (l.mark == Deduped <==> deps != [] && !cut && ExpandedAbove(lines, i))
      && (l.mark == Expanded <==> deps != [] && !cut && !ExpandedAbove(lines, i))
  {
    var l := lines[i];
    var deps := DepsOf(byKey, l.key);
    ExpansionsCount(lines[..i], l.key);
    assert forall j :: 0 <= j < i ==> lines[..i][j] == lines[j];
    assert MarkedAt(byKey, maxDepth, lines, i);
    assert Elements(deps) == set d | d in deps;
    if deps != [] { assert deps[0] in Elements(deps); }
  }

  // ---- The tree behind the lines

  datatype Tree = Tree(line: Line, below: seq<Tree>)

  ghost function Flatten(t: Tree): seq<Line>
    decreases t
  {
    [t.line] + FlattenAll(t.below)
  }

  ghost function FlattenAll(trees: seq<Tree>): seq<Line>
    decreases trees
  {
    if trees == [] then [] else FlattenAll(trees[..|trees| - 1]) + Flatten(trees[|trees| - 1])
  }

  ghost function KeysOf(trees: seq<Tree>): seq<string> {
    seq(|trees|, i requires 0 <= i < |trees| => trees[i].line.key)
  }

  /** The trees are siblings at a depth, the last of them marked as such. */
  ghost predicate Siblings(trees: seq<Tree>, depth: nat) {
    forall i :: 0 <= i < |trees| ==> trees[i].line.depth == depth && (trees[i].line.last <==> i == |trees| - 1)
  }

  /** Below an expanded key stand its distinct dependencies in label order, one level deeper; below any other nothing. */
  ghost predicate Shaped(byKey: Index, t: Tree)
    decreases t
  {
    if t.line.mark == Expanded then
      && SortedDistinct(byKey, DepsOf(byKey, t.line.key), KeysOf(t.below))
      && Siblings(t.below, t.line.depth + 1)
      && forall i :: 0 <= i < |t.below| ==> Shaped(byKey, t.below[i])
    else t.below == []
  }

  ghost predicate AllShaped(byKey: Index, trees: seq<Tree>) {
    forall i :: 0 <= i < |trees| ==> Shaped(byKey, trees[i])
  }

  /** The trees walked for a list of keys. */
  ghost predicate Walked(byKey: Index, keys: seq<string>, depth: nat, trees: seq<Tree>) {
    KeysOf(trees) == keys && Siblings(trees, depth) && AllShaped(byKey, trees)
  }

  /** The trees walked for the first `n` keys of a list. */
  ghost predicate WalkedFirst(byKey: Index, keys: seq<string>, depth: nat, trees: seq<Tree>, n: nat) {
    && n == |trees| <= |keys| && AllShaped(byKey, trees)
    && forall i :: 0 <= i < n ==>
         trees[i].line.key == keys[i] && trees[i].line.depth == depth && (trees[i].line.last <==> i == |keys| - 1)
  }

  lemma OneMoreWalked(byKey: Index, keys: seq<string>, depth: nat, trees: seq<Tree>, t: Tree)
    requires WalkedFirst(byKey, keys, depth, trees, |trees|) && |trees| < |keys| && Shaped(byKey, t)
    requires t.line.key == keys[|trees|] && t.line.depth == depth && (t.line.last <==> |trees| == |keys| - 1)
    ensures WalkedFirst(byKey, keys, depth, trees + [t], |trees| + 1)
    ensures FlattenAll(trees + [t]) == FlattenAll(trees) + Flatten(t)
  {
    hide Shaped;
    assert (trees + [t])[..|trees|] == trees;
  }

  lemma AllWalked(byKey: Index, keys: seq<string>, depth: nat, trees: seq<Tree>)
    requires WalkedFirst(byKey, keys, depth, trees, |keys|)
    ensures Walked(byKey, keys, depth, trees)
  {
    hide Shaped;
  }

  lemma ExpandedShaped(byKey: Index, line: Line, children: seq<string>, below: seq<Tree>)
    requires line.mark == Expanded && SortedDistinct(byKey, DepsOf(byKey, line.key), children)
    requires Walked(byKey, children, line.depth + 1, below)
    ensures Shaped(byKey, Tree(line, below)) && Flatten(Tree(line, below)) == [line] + FlattenAll(below)
  {
    hide SortedDistinct;
  }

  lemma NothingWalked(byKey: Index, keys: seq<string>, depth: nat)
    ensures WalkedFirst(byKey, keys, depth, [], 0) && FlattenAll([]) == []
  {}

  lemma SingleShaped(byKey: Index, line: Line)
    requires line.mark != Expanded
    ensures Shaped(byKey, Tree(line, [])) && Flatten(Tree(line, [])) == [line]
  {}

  ghost predicate AllReachable(byKey: Index, starts: seq<string>, lines: seq<Line>) {
    forall k :: k in Printed(lines) ==> Reachable(byKey, starts, k)
  }

  /** A key is marked as seen exactly when it has been expanded, and it is expanded once. */
  ghost predicate ExpandedOnce(byKey: Index, seen: set<string>, lines: seq<Line>) {
    seen <= byKey.Keys && forall k :: Expansions(lines, k) == if k in seen then 1 else 0
  }

  /** Printed keys with dependencies have been expanded; the keys in `done` have all their dependencies printed. */
  ghost predicate Complete(byKey: Index, seen: set<string>, lines: seq<Line>, done: set<string>) {
    && (forall k :: k in Printed(lines) && DepsOf(byKey, k) != [] ==> k in seen)
    && (forall k, d :: k in done && d in DepsOf(byKey, k) ==> d in Printed(lines))
  }

  lemma LineAdded(byKey: Index, seen: set<string>, lines: seq<Line>, l: Line, starts: seq<string>)
    requires ExpandedOnce(byKey, seen, lines) && (l.mark == Expanded ==> l.key in byKey && l.key !in seen)
    requires AllReachable(byKey, starts, lines) && Reachable(byKey, starts, l.key)
    ensures ExpandedOnce(byKey, seen + if l.mark == Expanded then {l.key} else {}, lines + [l])
    ensures AllReachable(byKey, starts, lines + [l])
    ensures Printed(lines + [l]) == Printed(lines) + {l.key}
  {
    hide Expansions, Reachable, Printed;
    ExpansionsAppend(lines, l, l.key);
    forall k ensures Expansions(lines + [l], k) == Expansions(lines, k) + if l.mark == Expanded && l.key == k then 1 else 0 {
      ExpansionsAppend(lines, l, k);
    }
  }

  lemma CompleteAdded(byKey: Index, seen: set<string>, more: set<string>, lines: seq<Line>, done: set<string>, l: Line)
    requires Complete(byKey, seen, lines, done) && seen <= more && (DepsOf(byKey, l.key) != [] ==> l.key in more)
    ensures Complete(byKey, more, lines + [l], done)
  {
    hide DepsOf, Printed;
    ExpansionsAppend(lines, l, l.key);
  }

  lemma CompleteWith(byKey: Index, seen: set<string>, lines: seq<Line>, done: set<string>, key: string)
    requires Complete(byKey, seen, lines, done) && forall d :: d in DepsOf(byKey, key) ==> d in Printed(lines)
    ensures Complete(byKey, seen, lines, done + {key})
  {}

  class SbomTree {
    const byKey: Index
    const maxDepth: nat
    var seen: set<string>
    var lines: seq<Line>

    constructor (byKey: Index, maxDepth: nat)
      ensures this.byKey == byKey && this.maxDepth == maxDepth && lines == [] && seen == {}
    {
      this.byKey, this.maxDepth, seen, lines := byKey, maxDepth, {}, [];
    }

    /** Walking has kept the tree consistent, and printed only keys reachable from `starts`. */
    ghost predicate Valid(starts: seq<string>)
      reads this
    {
      ExpandedOnce(byKey, seen, lines) && AllReachable(byKey, starts, lines) && Marked(byKey, maxDepth, lines)
    }

    method Emit(l: Line, ghost starts: seq<string>, ghost done: set<string>)
      requires Valid(starts) && Reachable(byKey, starts, l.key)
      requires l.mark == MarkOf(byKey, maxDepth, l.key, l.depth, l.key in seen)
      requires maxDepth == 0 ==> Complete(byKey, seen, lines, done)
      modifies this
      ensures Valid(starts) && lines == old(lines) + [l]
      ensures Printed(lines) == Printed(old(lines)) + {l.key}
      ensures seen == old(seen) + if l.mark == Expanded then {l.key} else {}
      ensures maxDepth == 0 ==> Complete(byKey, seen, lines, done)
    {
      hide Expansions, Reachable, Complete, DepsOf, MarkOf, Marked;
      ExpandedIsNew(byKey, maxDepth, l.key, l.depth, l.key in seen);
      MarkedAppend(byKey, maxDepth, lines, l);
      LineAdded(byKey, seen, lines, l, starts);
      ghost var more := seen + if l.mark == Expanded then {l.key} else {};
      if maxDepth == 0 { CompleteAdded(byKey, seen, more, lines, done, l); }
      if l.mark == Expanded {
        seen := seen + {l.key};
      }
      assert seen == more;
      lines := lines + [l];
    }

    method Walk(key: string, last: bool, depth: nat, ghost starts: seq<string>, ghost done: set<string>) returns (ghost t: Tree)
      requires Valid(starts) && Reachable(byKey, starts, key)
      requires maxDepth == 0 ==> Complete(byKey, seen, lines, done)
      modifies this
      decreases byKey.Keys - seen, 0
      ensures lines == old(lines) + Flatten(t) && Shaped(byKey, t)
      ensures t.line.key == key && t.line.depth == depth && t.line.last == last
      ensures Valid(starts) && old(seen) <= seen
      ensures Printed(old(lines)) + {key} <= Printed(lines)
      ensures maxDepth == 0 ==> Complete(byKey, seen, lines, done + (seen - old(seen)))
    {
      hide Expansions, Reachable, Complete, AllReachable, Printed, ExpandedOnce, Marked, MarkOf, Shaped, Walked;
      hide Flatten, FlattenAll, SortedDistinct, DepsOf;
      var children := SortedChildren(byKey, DepsOf(byKey, key));
      MarkOfChildren(byKey, maxDepth, key, depth, key in seen, children);
      assert done + {} == done;
      if |children| == 0 || (maxDepth > 0 && depth >= maxDepth) || key in seen {
        var mark := if |children| == 0 then Leaf else if maxDepth > 0 && depth >= maxDepth then BeyondLimit(|children|) else Deduped;
        var line := Line(key, depth, last, mark);
        Emit(line, starts, done);
        assert seen - old(seen) == {};
        SingleShaped(byKey, line);
        t := Tree(line, []);
      } else {
        var line := Line(key, depth, last, Expanded);
        Emit(line, starts, done);
        ghost var below := WalkAll(children, key, depth, starts, done, old(seen));
        ExpandedShaped(byKey, line, children, below);
        t := Tree(line, below);
        assert old(lines) + [line] + FlattenAll(below) == old(lines) + Flatten(t);
      }
    }

    /** The loop over the children of a key that has just been expanded. */
    method WalkAll(children: seq<string>, key: string, depth: nat, ghost starts: seq<string>, ghost done: set<string>, ghost before: set<string>)
      returns (ghost trees: seq<Tree>)
      requires Valid(starts) && Reachable(byKey, starts, key)
      requires seen == before + {key} && key !in before
      requires SortedDistinct(byKey, DepsOf(byKey, key), children)
      requires maxDepth == 0 ==> Complete(byKey, seen, lines, done)
      modifies this
      decreases byKey.Keys - seen, 1
      ensures lines == old(lines) + FlattenAll(trees) && Walked(byKey, children, depth + 1, trees)
      ensures Valid(starts) && before <= seen
      ensures Printed(old(lines)) <= Printed(lines)
      ensures maxDepth == 0 ==> Complete(byKey, seen, lines, done + (seen - before))
    {
      hide Expansions, Reachable, Complete, AllReachable, Printed, DepsOf, ExpandedOnce, Marked, Shaped, Flatten, FlattenAll, WalkedFirst, Walked;
      hide SortedDistinct;
      SortedDistinctMembers(byKey, DepsOf(byKey, key), children);
      ghost var sofar := done;
      trees := [];
      NothingWalked(byKey, children, depth + 1);
      for i := 0 to |children|
        invariant Valid(starts) && before + {key} <= seen
        invariant lines == old(lines) + FlattenAll(trees) && WalkedFirst(byKey, children, depth + 1, trees, i) && |trees| == i
        invariant Printed(old(lines)) <= Printed(lines)
        invariant forall j :: 0 <= j < i ==> children[j] in Printed(lines)
        invariant sofar == done + (seen - (before + {key}))
        invariant maxDepth == 0 ==> Complete(byKey, seen, lines, sofar)
      {
        assert children[i] in children;
        DependencyReachable(byKey, starts, key, children[i]);
        ghost var was := seen;
        ghost var t := Walk(children[i], i == |children| - 1, depth + 1, starts, sofar);
        OneMoreWalked(byKey, children, depth + 1, trees, t);
        trees := trees + [t];
        sofar := sofar + (seen - was);
      }
      AllWalked(byKey, children, depth + 1, trees);
      assert done + (seen - before) == sofar + {key};
      if maxDepth == 0 { CompleteWith(byKey, seen, lines, sofar, key); }
    }

    /**
     * Prints every dependency of the root, grouped by ecosystem: block by block, the trees of the ecosystem's direct
     * dependencies. With no depth limit exactly the reachable keys are printed; in every case each key is expanded
     * at most once.
     */
    method PrintTree(rootDeps: seq<string>) returns (ghost order: seq<string>, ghost blocks: seq<seq<Tree>>)
      requires lines == [] && seen == {}
      modifies this
      ensures lines == FlattenBlocks(blocks) && Marked(byKey, maxDepth, lines)
      ensures IsPrintout(byKey, rootDeps, order, blocks)
      ensures forall k :: Expansions(lines, k) <= 1
      ensures forall k :: k in Printed(lines) ==> Reachable(byKey, rootDeps, k)
      ensures maxDepth == 0 ==> forall k :: k in Printed(lines) <==> Reachable(byKey, rootDeps, k)
      ensures maxDepth == 0 ==> forall k :: k in Printed(lines) && DepsOf(byKey, k) != [] ==> Expansions(lines, k) == 1
    {
      hide Expansions, Reachable, Complete, Printed, ExpandedOnce, AllReachable, DepsOf, SortedDistinct, Marked, MarkOf;
      hide GroupedInOrder, Grouped, FromKeys, InSomeGroup, SortedBy, Walked, FlattenAll;
      var children := SortedChildren(byKey, rootDeps);
      SortedDistinctMembers(byKey, rootDeps, children);
      var groups, ecosystems := GroupByEcosystem(byKey, children);
      NothingPrinted(byKey, maxDepth, rootDeps);
      ghost var walked: set<string> := {};
      order, blocks := ecosystems, [];
      for g := 0 to |ecosystems|
        invariant Valid(rootDeps) && walked <= Printed(lines)
        invariant lines == FlattenBlocks(blocks) && |blocks| == g
        invariant forall j :: 0 <= j < g ==> ecosystems[j] in groups && Walked(byKey, groups[ecosystems[j]], 1, blocks[j])
        invariant forall j :: 0 <= j < g ==> ecosystems[j] in groups && Elements(groups[ecosystems[j]]) <= walked
        invariant maxDepth == 0 ==> Complete(byKey, seen, lines, seen)
      {
        GroupAt(byKey, rootDeps, children, groups, ecosystems, g);
        ghost var trees;
        walked, trees := WalkGroup(groups[ecosystems[g]], rootDeps, walked);
        assert (blocks + [trees])[..g] == blocks;
        blocks := blocks + [trees];
      }
      GroupsPrinted(byKey, rootDeps, children, groups, ecosystems, blocks);
      Finished(byKey, rootDeps, seen, lines);
      GroupsExhausted(byKey, rootDeps, children, groups, ecosystems, walked);
      if maxDepth == 0 {
        forall k | Reachable(byKey, rootDeps, k) ensures k in Printed(lines) {
          AllPrinted(byKey, rootDeps, seen, lines, k);
        }
      }
    }

    /** The loop over the direct dependencies of one ecosystem. */
    method WalkGroup(keys: seq<string>, ghost rootDeps: seq<string>, ghost walked0: set<string>)
      returns (ghost walked: set<string>, ghost trees: seq<Tree>)
      requires Valid(rootDeps) && walked0 <= Printed(lines) && forall k :: k in keys ==> k in rootDeps
      requires maxDepth == 0 ==> Complete(byKey, seen, lines, seen)
      modifies this
      ensures lines == old(lines) + FlattenAll(trees) && Walked(byKey, keys, 1, trees)
      ensures Valid(rootDeps) && walked0 <= walked <= Printed(lines) && Elements(keys) <= walked
      ensures maxDepth == 0 ==> Complete(byKey, seen, lines, seen)
    {
      hide Expansions, Reachable, Complete, Printed, ExpandedOnce, AllReachable, Marked, Shaped, Flatten, FlattenAll, WalkedFirst, Walked;
      walked, trees := walked0, [];
      NothingWalked(byKey, keys, 1);
      for i := 0 to |keys|
        invariant Valid(rootDeps) && walked0 <= walked <= Printed(lines)
        invariant lines == old(lines) + FlattenAll(trees) && WalkedFirst(byKey, keys, 1, trees, i) && |trees| == i
        invariant forall j :: 0 <= j < i ==> keys[j] in walked
        invariant maxDepth == 0 ==> Complete(byKey, seen, lines, seen)
      {
        assert keys[i] in keys;
        StartReachable(byKey, rootDeps, keys[i]);
        ghost var was := seen;
        ghost var t := Walk(keys[i], i == |keys| - 1, 1, rootDeps, seen);
        OneMoreWalked(byKey, keys, 1, trees, t);
        trees := trees + [t];
        assert was + (seen - was) == seen;
        walked := walked + {keys[i]};
      }
      AllWalked(byKey, keys, 1, trees);
    }
  }

  // ---- The whole printout

  ghost function FlattenBlocks(blocks: seq<seq<Tree>>): seq<Line> {
    if blocks == [] then [] else FlattenBlocks(blocks[..|blocks| - 1]) + FlattenAll(blocks[|blocks| - 1])
  }

  /** One block per ecosystem, in order; its trees are those of the ecosystem's direct dependencies, in label order. */
  ghost predicate IsPrintout(byKey: Index, rootDeps: seq<string>, order: seq<string>, blocks: seq<seq<Tree>>) {
    exists children :: SortedDistinct(byKey, rootDeps, children) && IsPrintoutOf(byKey, children, order, blocks)
  }

  ghost predicate IsPrintoutOf(byKey: Index, children: seq<string>, order: seq<string>, blocks: seq<seq<Tree>>) {
    && PairwiseDistinct(order) && SortedBy(order, StrLe)
    && (forall e :: e in order <==> exists k :: k in children && EcosystemOf(byKey, k) == e)
    && |blocks| == |order|
    && forall j :: 0 <= j < |order| ==> Walked(byKey, Only(byKey, children, order[j]), 1, blocks[j])
  }

  lemma GroupsPrinted(byKey: Index, rootDeps: seq<string>, children: seq<string>, groups: map<string, seq<string>>,
                      order: seq<string>, blocks: seq<seq<Tree>>)
    requires SortedDistinct(byKey, rootDeps, children) && GroupedInOrder(byKey, children, groups, order)
    requires |blocks| == |order|
    requires forall j :: 0 <= j < |order| ==> order[j] in groups && Walked(byKey, groups[order[j]], 1, blocks[j])
    ensures IsPrintout(byKey, rootDeps, order, blocks)
  {
    hide Walked, SortedDistinct, Only, EcosystemOf;
    forall e ensures e in order <==> exists k :: k in children && EcosystemOf(byKey, k) == e {
      OnlyMembers(byKey, children, e);
      if k :| k in children && EcosystemOf(byKey, k) == e {
        assert k in Only(byKey, children, e);
      }
      if e in order {
        var only := groups[e];
        assert only == Only(byKey, children, e) && only != [];
        assert only[0] in only;
      }
    }
    assert IsPrintoutOf(byKey, children, order, blocks);
  }

  lemma NothingPrinted(byKey: Index, maxDepth: nat, starts: seq<string>)
    ensures Marked(byKey, maxDepth, []) && FlattenBlocks([]) == []
    ensures ExpandedOnce(byKey, {}, []) && AllReachable(byKey, starts, []) && Complete(byKey, {}, [], {})
    ensures Printed([]) == {}
  {}

  lemma GroupAt(byKey: Index, keys: seq<string>, children: seq<string>, groups: map<string, seq<string>>, order: seq<string>, g: nat)
    requires GroupedInOrder(byKey, children, groups, order) && g < |order|
    requires forall k :: k in children <==> k in keys
    ensures order[g] in groups && forall k :: k in groups[order[g]] ==> k in keys
  {
    hide Grouped, SortedBy;
  }

  lemma GroupsExhausted(byKey: Index, keys: seq<string>, children: seq<string>, groups: map<string, seq<string>>,
                        order: seq<string>, walked: set<string>)
    requires GroupedInOrder(byKey, children, groups, order)
    requires forall k :: k in children <==> k in keys
    requires forall j :: 0 <= j < |order| ==> order[j] in groups && Elements(groups[order[j]]) <= walked
    ensures forall k :: k in keys ==> k in walked
  {
    hide Grouped, SortedBy, FromKeys;
    forall k | k in keys ensures k in walked {
      assert InSomeGroup(groups, order, k);
      var j :| 0 <= j < |order| && order[j] in groups && k in groups[order[j]];
      assert k in Elements(groups[order[j]]);
    }
  }

  lemma Finished(byKey: Index, starts: seq<string>, seen: set<string>, lines: seq<Line>)
    requires ExpandedOnce(byKey, seen, lines) && AllReachable(byKey, starts, lines)
    ensures forall k :: Expansions(lines, k) <= 1
    ensures forall k :: k in Printed(lines) ==> Reachable(byKey, starts, k)
    ensures Complete(byKey, seen, lines, seen) ==>
      forall k :: k in Printed(lines) && DepsOf(byKey, k) != [] ==> Expansions(lines, k) == 1
  {}

  lemma AllPrinted(byKey: Index, starts: seq<string>, seen: set<string>, lines: seq<Line>, k: string)
    requires forall s :: s in starts ==> s in Printed(lines)
    requires Complete(byKey, seen, lines, seen) && Reachable(byKey, starts, k)
    ensures k in Printed(lines)
  {
    hide Printed;
    var p :| IsPath(byKey, starts, p) && p[|p| - 1] == k;
    forall x, d | x in Printed(lines) && d in DepsOf(byKey, x) ensures d in Printed(lines) {
      assert DepsOf(byKey, x) != [];
    }
    ClosedHoldsPath(byKey, starts, Printed(lines), p);
  }

  // ---- Grouping

  function EcosystemOf(byKey: Index, key: string): string {
    if key in byKey && byKey[key].ecosystem != "" then byKey[key].ecosystem else "unknown"
  }

  ghost function Only(byKey: Index, keys: seq<string>, ecosystem: string): seq<string> {
    if keys == [] then []
    else
      var last := keys[|keys| - 1];
      Only(byKey, keys[..|keys| - 1], ecosystem) + if EcosystemOf(byKey, last) == ecosystem then [last] else []
  }

  lemma {:induction false} OnlyMembers(byKey: Index, keys: seq<string>, ecosystem: string)
    ensures forall k :: k in Only(byKey, keys, ecosystem) <==> k in keys && EcosystemOf(byKey, k) == ecosystem
  {
    if keys != [] {
      OnlyMembers(byKey, keys[..|keys| - 1], ecosystem);
      assert keys == keys[..|keys| - 1] + [keys[|keys| - 1]];
    }
  }

  /** The block of an ecosystem holds the keys recorded under it; those without one stand under "unknown". */
  lemma BlockMembers(byKey: Index, keys: seq<string>, ecosystem: string, k: string)
    ensures k in Only(byKey, keys, ecosystem) <==>
      k in keys && if k in byKey && byKey[k].ecosystem != "" then ecosystem == byKey[k].ecosystem else ecosystem == "unknown"
  {
    OnlyMembers(byKey, keys, ecosystem);
  }

  ghost predicate Grouped(byKey: Index, keys: seq<string>, groups: map<string, seq<string>>, order: seq<string>) {
    && PairwiseDistinct(order) && (forall e :: e in order <==> e in groups)
    && (forall e :: e in groups ==> groups[e] == Only(byKey, keys, e) && groups[e] != [])
    && (forall e :: e !in groups ==> Only(byKey, keys, e) == [])
    && (forall j :: 0 <= j < |keys| ==> EcosystemOf(byKey, keys[j]) in groups)
  }

  lemma NothingGrouped(byKey: Index, keys: seq<string>)
    ensures Grouped(byKey, keys[..0], map[], [])
  {}

  lemma OnlyNext(byKey: Index, keys: seq<string>, k: string, e: string)
    ensures Only(byKey, keys + [k], e) == Only(byKey, keys, e) + if EcosystemOf(byKey, k) == e then [k] else []
  {
    assert (keys + [k])[..|keys|] == keys;
  }

  lemma GroupedNext(byKey: Index, keys: seq<string>, groups: map<string, seq<string>>, order: seq<string>, k: string)
    requires Grouped(byKey, keys, groups, order)
    ensures var eco := EcosystemOf(byKey, k);
      if eco in groups then Grouped(byKey, keys + [k], groups[eco := groups[eco] + [k]], order)
      else Grouped(byKey, keys + [k], groups[eco := [k]], order + [eco])
  {
    hide EcosystemOf, Only;
    var next, eco := keys + [k], EcosystemOf(byKey, k);
    var grown := groups[eco := if eco in groups then groups[eco] + [k] else [k]];
    forall e ensures Only(byKey, next, e) == if EcosystemOf(byKey, k) == e then Only(byKey, keys, e) + [k] else Only(byKey, keys, e) {
      OnlyNext(byKey, keys, k, e);
    }
    forall e | e in grown ensures grown[e] == Only(byKey, next, e) {}
    forall e | e !in grown ensures Only(byKey, next, e) == [] {}
    forall j | 0 <= j < |next| ensures EcosystemOf(byKey, next[j]) in grown {
      if j < |keys| { assert next[j] == keys[j]; }
    }
  }

  ghost predicate InSomeGroup(groups: map<string, seq<string>>, order: seq<string>, k: string) {
    exists j :: 0 <= j < |order| && order[j] in groups && k in groups[order[j]]
  }

  /** The ecosystems are listed in order, and every key is in the bucket of its ecosystem, in the incoming order. */
  ghost predicate GroupedInOrder(byKey: Index, keys: seq<string>, groups: map<string, seq<string>>, order: seq<string>) {
    && Grouped(byKey, keys, groups, order) && SortedBy(order, StrLe)
    && (forall j :: 0 <= j < |order| ==> order[j] in groups && FromKeys(groups[order[j]], keys))
    && (forall k {:trigger InSomeGroup(groups, order, k)} :: k in keys ==> InSomeGroup(groups, order, k))
  }

  ghost predicate FromKeys(group: seq<string>, keys: seq<string>) {
    forall k :: k in group ==> k in keys
  }

  lemma GroupFromKeys(byKey: Index, keys: seq<string>, groups: map<string, seq<string>>, order: seq<string>, j: nat)
    requires Grouped(byKey, keys, groups, order) && j < |order|
    ensures order[j] in groups && FromKeys(groups[order[j]], keys)
  {
    assert order[j] in order;
    OnlyMembers(byKey, keys, order[j]);
    hide Only, EcosystemOf;
  }

  lemma KeyInGroup(byKey: Index, keys: seq<string>, groups: map<string, seq<string>>, order: seq<string>, k: string)
    requires Grouped(byKey, keys, groups, order) && k in keys
    ensures InSomeGroup(groups, order, k)
  {
    hide Only, EcosystemOf;
    var i :| 0 <= i < |keys| && keys[i] == k;
    var e := EcosystemOf(byKey, k);
    OnlyMembers(byKey, keys, e);
    assert e in order;
    var j :| 0 <= j < |order| && order[j] == e;
  }

  lemma SortedGroups(byKey: Index, keys: seq<string>, groups: map<string, seq<string>>, order: seq<string>)
    requires Grouped(byKey, keys, groups, order)
    ensures GroupedInOrder(byKey, keys, groups, Sort(order, StrLe))
  {
    var sorted := Sort(order, StrLe);
    SortIsSorted(order);
    MultisetMembers(sorted, order);
    RearrangedDistinct(order, sorted);
    SameOrderMembers(byKey, keys, groups, order, sorted);
    hide Grouped, SortedBy, StrLe, Sort, FromKeys, InSomeGroup;
    forall j | 0 <= j < |sorted| ensures sorted[j] in groups && FromKeys(groups[sorted[j]], keys) {
      GroupFromKeys(byKey, keys, groups, sorted, j);
    }
    forall k | k in keys ensures InSomeGroup(groups, sorted, k) {
      KeyInGroup(byKey, keys, groups, sorted, k);
    }
  }

  lemma SortIsSorted(s: seq<string>)
    ensures SortedBy(Sort(s, StrLe), StrLe) && multiset(Sort(s, StrLe)) == multiset(s)
  {
    StrLeIsTotalPreorder();
    SortContents(s, StrLe);
    SortSorts(s, StrLe);
  }

  lemma SameOrderMembers(byKey: Index, keys: seq<string>, groups: map<string, seq<string>>, order: seq<string>, sorted: seq<string>)
    requires Grouped(byKey, keys, groups, order) && PairwiseDistinct(sorted) && forall e :: e in sorted <==> e in order
    ensures Grouped(byKey, keys, groups, sorted)
  {
    hide Only, EcosystemOf;
  }

  method GroupByEcosystem(byKey: Index, keys: seq<string>) returns (groups: map<string, seq<string>>, order: seq<string>)
    ensures GroupedInOrder(byKey, keys, groups, order)
  {
    hide *;
    groups, order := map[], [];
    NothingGrouped(byKey, keys);
    assert keys[..|keys|] == keys;
    for i := 0 to |keys|
      invariant Grouped(byKey, keys[..i], groups, order)
    {
      var eco := EcosystemOf(byKey, keys[i]);
      GroupedNext(byKey, keys[..i], groups, order, keys[i]);
      assert keys[..i + 1] == keys[..i] + [keys[i]];
      if eco !in groups {
        order := order + [eco];
        groups := groups[eco := [keys[i]]];
      } else {
        groups := groups[eco := groups[eco] + [keys[i]]];
      }
    }
    SortedGroups(byKey, keys, groups, order);
    order := Sort(order, StrLe);
  }
}
