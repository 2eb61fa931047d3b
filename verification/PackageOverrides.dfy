/** Which overrides apply to a package, whatever order the override tables are iterated in. */
module PackageOverrides {
  import opened Sequences
  import opened Ordering
  import opened Text
  import opened Pattern

  datatype PolicyOverride = PolicyOverride(path: string, value: string, reason: string, precedence: string)

  /** An override as the engine takes it; `path` has lost its "output." prefix. */
  datatype Override = Override(path: string, value: string, reason: string, precedence: string)

  type Table = map<string, seq<PolicyOverride>>

  datatype Matched = Matched(pattern: string, override: PolicyOverride)

  function BarePath(path: string): string {
    if HasPrefix(path, "output.") then path[7..] else path
  }

  predicate Applies(pattern: string, key: string) {
    var stripped := Before(key, '?');
    MatchesPattern(pattern, key) || (stripped != key && MatchesPattern(pattern, stripped))
  }

  // ---- A strict total order on patterns

  predicate MoreSpecific(a: string, b: string) {
    if ('*' in a) != ('*' in b) then '*' !in a
    else if |a| != |b| then |a| > |b|
    else StrLess(a, b)
  }

  lemma MoreSpecificIsStrictTotal(a: string, b: string, c: string)
    ensures !MoreSpecific(a, a)
    ensures a != b ==> (MoreSpecific(a, b) <==> !MoreSpecific(b, a))
    ensures MoreSpecific(a, b) && MoreSpecific(b, c) ==> MoreSpecific(a, c)
  {
    StrLeTotal(a, b);
    if StrLe(a, b) && StrLe(b, a) { StrLeAntisymmetric(a, b); }
    if StrLe(a, b) && StrLe(b, c) {
      StrLeTransitive(a, b, c);
      if a == c { StrLeAntisymmetric(a, b); }
    }
  }

  // ---- The winner of a path, said without an order of iteration

  predicate Addresses(items: seq<PolicyOverride>, path: string) {
    exists o :: o in items && BarePath(o.path) == path
  }

  ghost predicate Contends(table: Table, key: string, path: string, pattern: string) {
    pattern in table && Applies(pattern, key) && Addresses(table[pattern], path)
  }

  /** `o` is the first override for the path under the most specific pattern that applies and has one. */
  ghost predicate Wins(table: Table, key: string, path: string, o: PolicyOverride) {
    exists p :: WinsUnder(table, key, path, p, o)
  }

  ghost predicate WinsUnder(table: Table, key: string, path: string, p: string, o: PolicyOverride) {
    && Contends(table, key, path, p)
    && IsFirst(table[p], path, o)
    && forall q :: Contends(table, key, path, q) && q != p ==> MoreSpecific(p, q)
  }

  ghost predicate IsFirst(items: seq<PolicyOverride>, path: string, o: PolicyOverride) {
    exists i :: 0 <= i < |items| && items[i] == o && BarePath(o.path) == path && forall j :: 0 <= j < i ==> BarePath(items[j].path) != path
  }

  lemma WinnerUnique(table: Table, key: string, path: string, a: PolicyOverride, b: PolicyOverride)
    requires Wins(table, key, path, a) && Wins(table, key, path, b)
    ensures a == b
  {
    hide MoreSpecific, Contends, BarePath;
    var p :| WinsUnder(table, key, path, p, a);
    var q :| WinsUnder(table, key, path, q, b);
    if p != q { MoreSpecificIsStrictTotal(p, q, p); }
  }

  /** An exact pattern wins over one with a star, then a longer over a shorter, then the first in string order. */
  lemma WinnerMeans(table: Table, key: string, path: string, p: string, o: PolicyOverride, q: string)
    requires WinsUnder(table, key, path, p, o) && Contends(table, key, path, q)
    ensures '*' !in q ==> '*' !in p
    ensures ('*' in p <==> '*' in q) ==> |p| >= |q|
    ensures ('*' in p <==> '*' in q) && |p| == |q| && p != q ==> StrLess(p, q)
  {
    hide Applies, BarePath, StrLess;
  }

  /** The "output." that policy files write in front of a path is dropped; other paths stay. */
  lemma BarePathMeans(field: string)
    ensures BarePath("output." + field) == field
    ensures !HasPrefix(field, "output.") ==> BarePath(field) == field
  {
    assert ("output." + field)[..7] == "output.";
  }

  // ---- Collecting the matches

  ghost function Items(table: Table, pattern: string): seq<Matched>
    requires pattern in table
  {
    seq(|table[pattern]|, i requires 0 <= i < |table[pattern]| => Matched(pattern, table[pattern][i]))
  }

  /** The overrides of the listed patterns, each pattern's in its own order. */
  ghost function Listing(table: Table, order: seq<string>): seq<Matched>
    requires forall p :: p in order ==> p in table
  {
    if order == [] then [] else Listing(table, order[..|order| - 1]) + Items(table, order[|order| - 1])
  }

  ghost predicate Enumerates(table: Table, key: string, order: seq<string>) {
    && (forall i, j :: 0 <= i < j < |order| ==> order[i] != order[j])
    && (forall p :: p in order <==> p in table && Applies(p, key))
  }

  ghost predicate ListsMatches(table: Table, key: string, matched: seq<Matched>) {
    exists order :: Enumerates(table, key, order) && matched == Listing(table, order)
  }

  method MatchOverrideEntries(table: Table, key: string) returns (matched: seq<Matched>)
    ensures ListsMatches(table, key, matched)
  {
    hide Applies;
    matched := [];
    ghost var order: seq<string> := [];
    var todo := table.Keys;
    while todo != {}
      invariant todo <= table.Keys
      invariant forall i, j :: 0 <= i < j < |order| ==> order[i] != order[j]
      invariant forall p :: p in order <==> p in table && p !in todo && Applies(p, key)
      invariant matched == Listing(table, order)
    {
      var pattern :| pattern in todo;
      todo := todo - {pattern};
      if Applies(pattern, key) {
        var items := table[pattern];
        ghost var before := matched;
        for i := 0 to |items|
          invariant matched == before + Items(table, pattern)[..i]
        {
          matched := matched + [Matched(pattern, items[i])];
        }
        assert Items(table, pattern)[..|items|] == Items(table, pattern);
        assert (order + [pattern])[..|order|] == order;
        order := order + [pattern];
      }
    }
  }

  lemma {:induction false} ListingAt(table: Table, order: seq<string>, i: nat) returns (k: nat, a: nat)
    requires forall p :: p in order ==> p in table
    requires i < |Listing(table, order)|
    ensures k < |order| && a < |table[order[k]]| && i == |Listing(table, order[..k])| + a
    ensures Listing(table, order)[i] == Matched(order[k], table[order[k]][a])
  {
    var n := |order| - 1;
    var init := order[..n];
    if i < |Listing(table, init)| {
      k, a := ListingAt(table, init, i);
      assert init[..k] == order[..k];
    } else {
      k, a := n, i - |Listing(table, init)|;
    }
  }

  lemma {:induction false} ListingHas(table: Table, order: seq<string>, k: nat, a: nat)
    requires forall p :: p in order ==> p in table
    requires k < |order| && a < |table[order[k]]|
    ensures |Listing(table, order[..k])| + a < |Listing(table, order)|
    ensures Listing(table, order)[|Listing(table, order[..k])| + a] == Matched(order[k], table[order[k]][a])
  {
    var n := |order| - 1;
    var init := order[..n];
    if k < n {
      ListingHas(table, init, k, a);
      assert init[..k] == order[..k];
    }
  }

  // ---- One winner per path

  /** Entry `i` beats every earlier entry for its path, and no later one beats it. */
  ghost predicate BestAt(matched: seq<Matched>, path: string, i: nat) {
    && i < |matched| && BarePath(matched[i].override.path) == path
    && (forall j :: 0 <= j < i && BarePath(matched[j].override.path) == path ==> MoreSpecific(matched[i].pattern, matched[j].pattern))
    && (forall j :: i < j < |matched| && BarePath(matched[j].override.path) == path ==> !MoreSpecific(matched[j].pattern, matched[i].pattern))
  }

  ghost predicate Deduped(matched: seq<Matched>, path: string, best: map<string, Matched>) {
    if path in best then exists i: nat :: BestAt(matched, path, i) && best[path] == matched[i]
    else forall j :: 0 <= j < |matched| ==> BarePath(matched[j].override.path) != path
  }

  /** A newcomer that beats the best entry so far beats them all. */
  lemma NewBest(matched: seq<Matched>, path: string, i: nat, m: Matched)
    requires BestAt(matched, path, i) && BarePath(m.override.path) == path && MoreSpecific(m.pattern, matched[i].pattern)
    ensures BestAt(matched + [m], path, |matched|)
  {
    hide MoreSpecific, BarePath;
    var all := matched + [m];
    forall j | 0 <= j < |matched| && BarePath(all[j].override.path) == path ensures MoreSpecific(m.pattern, all[j].pattern) {
      MoreSpecificIsStrictTotal(m.pattern, matched[i].pattern, matched[j].pattern);
      MoreSpecificIsStrictTotal(matched[i].pattern, matched[j].pattern, m.pattern);
    }
  }

  lemma StillBest(matched: seq<Matched>, path: string, i: nat, m: Matched)
    requires BestAt(matched, path, i)
    requires BarePath(m.override.path) == path ==> !MoreSpecific(m.pattern, matched[i].pattern)
    ensures BestAt(matched + [m], path, i)
  {
    hide MoreSpecific, BarePath;
  }

  lemma DedupeStep(matched: seq<Matched>, path: string, best: map<string, Matched>, m: Matched)
    requires Deduped(matched, path, best)
    ensures Deduped(matched + [m], path,
      if BarePath(m.override.path) == path && (path !in best || MoreSpecific(m.pattern, best[path].pattern)) then best[path := m] else best)
  {
    hide MoreSpecific, BarePath;
    var all := matched + [m];
    if path in best {
      var i: nat :| BestAt(matched, path, i) && best[path] == matched[i];
      if BarePath(m.override.path) == path && MoreSpecific(m.pattern, best[path].pattern) {
        NewBest(matched, path, i, m);
        assert all[|matched|] == m;
      } else {
        StillBest(matched, path, i, m);
        assert all[i] == matched[i];
      }
    } else if BarePath(m.override.path) == path {
      assert BestAt(all, path, |matched|);
    }
  }

  /** The override kept for a path is that of its best entry; a path without entries has none. */
  ghost predicate KeepsBest(matched: seq<Matched>, path: string, out: map<string, PolicyOverride>) {
    if path in out then exists i: nat :: BestAt(matched, path, i) && out[path] == matched[i].override
    else forall j :: 0 <= j < |matched| ==> BarePath(matched[j].override.path) != path
  }

  method DedupeByPath(matched: seq<Matched>) returns (out: map<string, PolicyOverride>)
    ensures forall path :: KeepsBest(matched, path, out)
  {
    hide MoreSpecific, BarePath, Deduped, KeepsBest;
    var winners: map<string, Matched> := map[];
    NothingDeduped();
    for i := 0 to |matched|
      invariant forall path :: Deduped(matched[..i], path, winners)
    {
      var m := matched[i];
      var path := BarePath(m.override.path);
      ghost var before := winners;
      ghost var next := matched[..i + 1];
      assert next == matched[..i] + [m];
      if path !in winners || MoreSpecific(m.pattern, winners[path].pattern) {
        winners := winners[path := m];
      }
      forall q ensures Deduped(next, q, winners) {
        DedupeStep(matched[..i], q, before, m);
        if q != path { DedupedOther(next, q, before, winners); }
      }
    }
    assert matched[..|matched|] == matched;
    out := map p | p in winners :: winners[p].override;
    forall path ensures KeepsBest(matched, path, out) { DedupedKeepsBest(matched, path, winners, out); }
  }

  lemma DedupedKeepsBest(matched: seq<Matched>, path: string, best: map<string, Matched>, out: map<string, PolicyOverride>)
    requires Deduped(matched, path, best) && out == map p | p in best :: best[p].override
    ensures KeepsBest(matched, path, out)
  {
    hide BarePath;
    if path in best {
      var i: nat :| BestAt(matched, path, i) && best[path] == matched[i];
      assert out[path] == matched[i].override;
    }
  }

  lemma NothingDeduped()
    ensures forall path :: Deduped([], path, map[])
  {}

  lemma DedupedOther(matched: seq<Matched>, path: string, a: map<string, Matched>, b: map<string, Matched>)
    requires Deduped(matched, path, a) && (path in a <==> path in b) && (path in a ==> a[path] == b[path])
    ensures Deduped(matched, path, b)
  {}

  /** Whatever order the patterns were listed in, the entry kept for a path is the winner. */
  lemma BestIsWinner(table: Table, key: string, order: seq<string>, path: string, i: nat)
    requires Enumerates(table, key, order) && BestAt(Listing(table, order), path, i)
    ensures Wins(table, key, path, Listing(table, order)[i].override)
  {
    hide MoreSpecific, BarePath, Applies;
    var all := Listing(table, order);
    var k, a := ListingAt(table, order, i);
    var p, o := order[k], all[i].override;
    assert p in order && table[p][a] == o;
    forall b | 0 <= b < a ensures BarePath(table[p][b].path) != path {
      ListingHas(table, order, k, b);
      MoreSpecificIsStrictTotal(p, p, p);
    }
    forall q | Contends(table, key, path, q) && q != p ensures MoreSpecific(p, q) {
      var x :| x in table[q] && BarePath(x.path) == path;
      var b :| 0 <= b < |table[q]| && table[q][b] == x;
      var m :| 0 <= m < |order| && order[m] == q;
      ListingHas(table, order, m, b);
      MoreSpecificIsStrictTotal(p, q, p);
      var j := |Listing(table, order[..m])| + b;
      assert all[j] == Matched(q, x);
      assert j != i;
    }
    assert IsFirst(table[p], path, o);
    assert WinsUnder(table, key, path, p, o);
  }

  lemma ContenderListed(table: Table, key: string, order: seq<string>, path: string, p: string)
    requires Enumerates(table, key, order) && Contends(table, key, path, p)
    ensures exists j :: 0 <= j < |Listing(table, order)| && BarePath(Listing(table, order)[j].override.path) == path
  {
    hide BarePath, Applies;
    var x :| x in table[p] && BarePath(x.path) == path;
    var b :| 0 <= b < |table[p]| && table[p][b] == x;
    var m :| 0 <= m < |order| && order[m] == p;
    ListingHas(table, order, m, b);
  }

  /** The winners of a table, path by path. */
  ghost predicate WinnersOf(table: Table, key: string, winners: map<string, PolicyOverride>) {
    && (forall path :: path in winners ==> Wins(table, key, path, winners[path]))
    && (forall path, p :: Contends(table, key, path, p) ==> path in winners)
  }

  method TableWinners(table: Table, key: string) returns (winners: map<string, PolicyOverride>)
    ensures WinnersOf(table, key, winners)
  {
    hide MoreSpecific, BarePath, Applies, Contends, Wins;
    var matched := MatchOverrideEntries(table, key);
    winners := DedupeByPath(matched);
    ghost var order :| Enumerates(table, key, order) && matched == Listing(table, order);
    forall path | path in winners ensures Wins(table, key, path, winners[path]) {
      assert KeepsBest(matched, path, winners);
      var i: nat :| BestAt(matched, path, i) && winners[path] == matched[i].override;
      BestIsWinner(table, key, order, path, i);
    }
    forall path, p | Contends(table, key, path, p) ensures path in winners {
      assert KeepsBest(matched, path, winners);
      ContenderListed(table, key, order, path, p);
    }
  }

  // ---- The list handed to the engine

  function Translate(path: string, o: PolicyOverride): Override {
    Override(path, o.value, o.reason, o.precedence)
  }

  ghost predicate Addressed(table: Table, key: string, path: string) {
    exists p :: Contends(table, key, path, p)
  }

  /** User entries come before built-in ones, path by path. */
  ghost predicate IsResolved(user: Table, known: Table, key: string, o: Override) {
    exists w ::
      && Wins(if Addressed(user, key, o.path) then user else known, key, o.path, w)
      && o.value == w.value && o.reason == w.reason && o.precedence == w.precedence
  }

  ghost predicate Resolution(user: Table, known: Table, key: string, out: seq<Override>) {
    && (forall i, j :: 0 <= i < j < |out| ==> StrLess(out[i].path, out[j].path))
    && (forall i :: 0 <= i < |out| ==> IsResolved(user, known, key, out[i]))
    && (forall path :: Addressed(user, key, path) || Addressed(known, key, path) ==> HasPath(out, path))
  }

  ghost predicate HasPath(out: seq<Override>, path: string) {
    exists i :: 0 <= i < |out| && out[i].path == path
  }

  method PackageOverridesFor(user: Table, known: Table, key: string) returns (out: seq<Override>)
    ensures Resolution(user, known, key, out)
  {
    hide WinnersOf, ListsSorted, Resolution;
    var userByPath := TableWinners(user, key);
    var builtinByPath := TableWinners(known, key);
    var merged := builtinByPath + userByPath;
    var paths := SortedStrings(merged.Keys);
    out := [];
    forall p ensures p in paths <==> p in merged { ListedMember(paths, merged.Keys, p); }
    for i := 0 to |paths|
      invariant |out| == i && forall j :: 0 <= j < i ==> paths[j] in merged && out[j] == Translate(paths[j], merged[paths[j]])
    {
      assert paths[i] in paths;
      out := out + [Translate(paths[i], merged[paths[i]])];
    }
    ListIsResolution(user, known, key, userByPath, builtinByPath, paths, out);
  }

  lemma ListIsResolution(user: Table, known: Table, key: string, userByPath: map<string, PolicyOverride>,
                         builtinByPath: map<string, PolicyOverride>, paths: seq<string>, out: seq<Override>)
    requires WinnersOf(user, key, userByPath) && WinnersOf(known, key, builtinByPath)
    requires ListsSorted(paths, (builtinByPath + userByPath).Keys)
    requires |out| == |paths| && forall j :: 0 <= j < |paths| ==>
      paths[j] in builtinByPath + userByPath && out[j] == Translate(paths[j], (builtinByPath + userByPath)[paths[j]])
    ensures Resolution(user, known, key, out)
  {
    hide ListsSorted, Contends, Wins, StrLess, IsResolved;
    var merged := builtinByPath + userByPath;
    ListedStrictly(paths, merged.Keys);
    forall i | 0 <= i < |out| ensures IsResolved(user, known, key, out[i]) {
      MergedWinner(user, known, key, userByPath, builtinByPath, paths[i]);
    }
    forall path | Addressed(user, key, path) || Addressed(known, key, path) ensures HasPath(out, path) {
      assert path in merged;
      ListedMember(paths, merged.Keys, path);
      var i :| 0 <= i < |paths| && paths[i] == path;
      assert out[i].path == path;
    }
  }

  lemma MergedWinner(user: Table, known: Table, key: string, userByPath: map<string, PolicyOverride>,
                     builtinByPath: map<string, PolicyOverride>, path: string)
    requires WinnersOf(user, key, userByPath) && WinnersOf(known, key, builtinByPath)
    requires path in builtinByPath + userByPath
    ensures IsResolved(user, known, key, Translate(path, (builtinByPath + userByPath)[path]))
  {
    hide Contends;
    if path in userByPath {
      var p :| WinsUnder(user, key, path, p, userByPath[path]);
      assert Addressed(user, key, path);
    }
  }

  // ---- The list is determined

  lemma ResolvedUnique(user: Table, known: Table, key: string, a: Override, b: Override)
    requires IsResolved(user, known, key, a) && IsResolved(user, known, key, b) && a.path == b.path
    ensures a == b
  {
    hide Wins, Addressed;
    var t := if Addressed(user, key, a.path) then user else known;
    var v :| Wins(t, key, a.path, v) && a.value == v.value && a.reason == v.reason && a.precedence == v.precedence;
    var w :| Wins(t, key, a.path, w) && b.value == w.value && b.reason == w.reason && b.precedence == w.precedence;
    WinnerUnique(t, key, a.path, v, w);
  }

  lemma ResolvedAddressed(user: Table, known: Table, key: string, o: Override)
    requires IsResolved(user, known, key, o)
    ensures Addressed(user, key, o.path) || Addressed(known, key, o.path)
  {
    hide Contends;
    var t := if Addressed(user, key, o.path) then user else known;
    var w :| Wins(t, key, o.path, w) && o.value == w.value && o.reason == w.reason && o.precedence == w.precedence;
    var p :| WinsUnder(t, key, o.path, p, w);
  }

  /** Every iteration order of the tables gives the same list, so a hash of the list is stable. */
  lemma {:induction false} ResolutionUnique(user: Table, known: Table, key: string, a: seq<Override>, b: seq<Override>)
    requires Resolution(user, known, key, a) && Resolution(user, known, key, b)
    ensures a == b
  {
    hide IsResolved, Addressed;
    forall path ensures HasPath(a, path) <==> HasPath(b, path) {
      if i :| 0 <= i < |a| && a[i].path == path { ResolvedAddressed(user, known, key, a[i]); }
      if i :| 0 <= i < |b| && b[i].path == path { ResolvedAddressed(user, known, key, b[i]); }
    }
    SamePaths(a, b);
    forall i | 0 <= i < |a| ensures a[i] == b[i] {
      ResolvedUnique(user, known, key, a[i], b[i]);
    }
  }

  ghost predicate Increasing(a: seq<Override>) {
    forall i, j :: 0 <= i < j < |a| ==> StrLess(a[i].path, a[j].path)
  }

  /** Two strictly increasing lists with the same paths list them alike. */
  lemma {:induction false} SamePaths(a: seq<Override>, b: seq<Override>)
    requires Increasing(a) && Increasing(b)
    requires forall path :: HasPath(a, path) <==> HasPath(b, path)
    ensures |a| == |b| && forall i :: 0 <= i < |a| ==> a[i].path == b[i].path
    decreases |a|
  {
    if a == [] {
      if b != [] { assert HasPath(b, b[0].path); }
    } else {
      assert HasPath(a, a[0].path);
      var j :| 0 <= j < |b| && b[j].path == a[0].path;
      assert HasPath(b, b[0].path);
      var i :| 0 <= i < |a| && a[i].path == b[0].path;
      if i > 0 && j > 0 { StrLeAntisymmetric(a[0].path, b[0].path); }
      assert a[0].path == b[0].path;
      forall path ensures HasPath(a[1..], path) <==> HasPath(b[1..], path) {
        TailPaths(a, path);
        TailPaths(b, path);
      }
      SamePaths(a[1..], b[1..]);
    }
  }

  lemma TailPaths(a: seq<Override>, path: string)
    requires a != [] && Increasing(a)
    ensures HasPath(a[1..], path) <==> HasPath(a, path) && path != a[0].path
  {
    hide StrLe;
    if i :| 0 <= i < |a| && a[i].path == path {
      if i > 0 { assert a[1..][i - 1] == a[i]; }
    }
    if i :| 0 <= i < |a| - 1 && a[1..][i].path == path { assert a[i + 1].path == path; }
  }

  // ---- What the cache hash reads

  /** `Hash` marshals its list after sorting it by path, value and reason; a resolution is already in that order. */
  predicate HashLess(a: Override, b: Override) {
    if a.path != b.path then StrLess(a.path, b.path)
    else if a.value != b.value then StrLess(a.value, b.value)
    else StrLess(a.reason, b.reason)
  }

  ghost predicate HashSorted(s: seq<Override>) {
    forall i, j :: 0 <= i < j < |s| ==> !HashLess(s[j], s[i])
  }

  lemma HashReadsTheList(user: Table, known: Table, key: string, out: seq<Override>, sorted: seq<Override>)
    requires Resolution(user, known, key, out)
    requires HashSorted(sorted) && multiset(sorted) == multiset(out)
    ensures sorted == out
  {
    hide Resolution, StrLe, IsResolved, Addressed;
    assert Increasing(out) by { ResolutionIncreasing(user, known, key, out); }
    forall x ensures x in sorted <==> x in out { assert x in multiset(sorted) <==> x in multiset(out); }
    forall i, j | 0 <= i < j < |sorted| ensures StrLess(sorted[i].path, sorted[j].path) {
      DistinctAfterSorting(out, sorted, i, j);
      StrLeTotal(sorted[i].path, sorted[j].path);
      assert !HashLess(sorted[j], sorted[i]);
    }
    forall path ensures HasPath(out, path) <==> HasPath(sorted, path) {
      if i :| 0 <= i < |out| && out[i].path == path { assert out[i] in sorted; }
      if i :| 0 <= i < |sorted| && sorted[i].path == path { assert sorted[i] in out; }
    }
    SamePaths(out, sorted);
    forall i | 0 <= i < |out| ensures sorted[i] == out[i] {
      assert sorted[i] in out;
      var j :| 0 <= j < |out| && out[j] == sorted[i];
      assert out[i].path == out[j].path;
    }
  }

  lemma ResolutionIncreasing(user: Table, known: Table, key: string, out: seq<Override>)
    requires Resolution(user, known, key, out)
    ensures Increasing(out)
  {}

  lemma DistinctAfterSorting(out: seq<Override>, sorted: seq<Override>, i: nat, j: nat)
    requires Increasing(out) && multiset(sorted) == multiset(out) && i < j < |sorted|
    ensures sorted[i].path != sorted[j].path
  {
    hide StrLe;
    RearrangedDistinct(out, sorted);
    MultisetMembers(out, sorted);
    assert sorted[i] in out && sorted[j] in out;
    var m :| 0 <= m < |out| && out[m] == sorted[j];
    var n :| 0 <= n < |out| && out[n] == sorted[i];
    assert sorted[i] != sorted[j];
  }
}
