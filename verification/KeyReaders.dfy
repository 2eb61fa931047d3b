/** The many readers of analysis identifiers, and what each of them finds in the identifiers that are built. */
module KeyReaders {
  import opened Wrappers
  import opened Text
  import opened Pattern
  import opened Models
  import opened Policy
  import opened Evaluation
  import opened PackageKey
  import opened Locations
  import Overrides = PackageOverrides

  /** The identifier of a package at no version and without overrides: the key a policy file is written with. */
  ghost function BareKey(ecosystem: string, name: string): string {
    "package/" + ecosystem + "/" + name
  }

  lemma BareKeyIsIdentifier(ecosystem: string, name: string)
    ensures BareKey(ecosystem, name) == Identifier(ecosystem, name, [], "")
  {
    assert BareKey(ecosystem, name) + "" == BareKey(ecosystem, name);
  }

  /** The query begins at the first question mark of an identifier. */
  lemma QueryStarts(e: string, n: string, v: Bytes, h: string)
    requires Plain(e, n)
    ensures var key, bare := Identifier(e, n, v, h), BareKey(e, n);
      && IndexOf(key, '?') == |bare| && key[..|bare|] == bare
      && (|bare| < |key| <==> v != [] || h != "")
  {
    hide QueryEscape;
    var bare, query := BareKey(e, n), Query(v, h);
    var key := bare + query;
    assert '?' !in bare by { PathRead(e, n); }
    assert key[..|bare|] == bare;
    assert query != "" ==> query[0] == '?' && key[|bare|] == '?';
    IndexOfIs(key, '?', |bare|);
  }

  // ---- Versions and overrides stripped

  lemma StrippedIdentifier(e: string, n: string, v: Bytes, h: string)
    requires Plain(e, n)
    ensures StripQuery(Identifier(e, n, v, h)) == BareKey(e, n) == Before(Identifier(e, n, v, h), '?')
  {
    hide Identifier;
    QueryStarts(e, n, v, h);
    var key, bare := Identifier(e, n, v, h), BareKey(e, n);
    assert |bare| == |key| ==> key == bare;
  }

  /** An acknowledgement under the bare key of a package covers every version of it. */
  lemma BareKeyCoversEveryVersion(table: AckTable, e: string, n: string, v: Bytes, h: string, code: string)
    requires Plain(e, n) && BareKey(e, n) in table
    requires exists x :: x in table[BareKey(e, n)].checks && MatchesPattern(x, code)
    ensures Covers(table, BareKey(e, n), Identifier(e, n, v, h), code)
  {
    hide Identifier;
    var bare := BareKey(e, n);
    assert '?' !in bare by { PathRead(e, n); }
    StrippedIdentifier(e, n, v, h);
    MatchesItself(bare);
    assert bare[0] == 'p';
  }

  /** One under a key with a version covers that version only. */
  lemma VersionKeyCoversThatVersion(table: AckTable, e: string, n: string, w: Bytes, g: string,
                                    f: string, m: string, v: Bytes, h: string, code: string)
    requires Plain(e, n) && Plain(f, m) && w != []
    requires var key := Identifier(e, n, w, g); key in table && '*' !in key
    ensures Covers(table, Identifier(e, n, w, g), Identifier(f, m, v, h), code) <==>
      && (f, m, v, h) == (e, n, w, g)
      && exists x :: x in table[Identifier(e, n, w, g)].checks && MatchesPattern(x, code)
  {
    hide Identifier;
    var key, entity := Identifier(e, n, w, g), Identifier(f, m, v, h);
    QueryStarts(e, n, w, g);
    assert key[IndexOf(key, '?')] == '?';
    assert key[..|BareKey(e, n)|][0] == 'p';
    if key == entity { IdentifiersDistinct(e, n, w, g, f, m, v, h); }
  }

  /** An override under the bare key of a package applies to every version of it. */
  lemma BareKeyAppliesToEveryVersion(e: string, n: string, v: Bytes, h: string)
    requires Plain(e, n)
    ensures Overrides.Applies(BareKey(e, n), Identifier(e, n, v, h))
  {
    hide Identifier;
    StrippedIdentifier(e, n, v, h);
    MatchesItself(BareKey(e, n));
  }

  // ---- The context a package or a source is graded in

  lemma EcosystemOfPackage(e: string, n: string, v: Bytes, h: string)
    requires Plain(e, n)
    ensures ExtractEcosystem(Identifier(e, n, v, h)) == e && ExtractSourcePath(Identifier(e, n, v, h)) == ""
  {
    hide Query;
    var key := Identifier(e, n, v, h);
    var rest := e + "/" + n + Query(v, h);
    assert key == "package/" + rest && key[8..] == rest && key[..8] == "package/";
    assert rest[..|e|] == e && rest[|e|] == '/';
    IndexOfIs(rest, '/', |e|);
    assert key[0] == 'p';
  }

  lemma PathOfSource(path: string, query: string)
    requires path != "" && '?' !in path && (query == "" || query[0] == '?')
    ensures ExtractEcosystem("source/" + path + query) == "source" && ExtractSourcePath("source/" + path + query) == path
  {
    var id, rest := "source/" + path + query, path + query;
    assert id[7..] == rest && id[0] == 's' && id[..7] == "source/";
    assert rest[..|path|] == path && (query != "" ==> rest[|path|] == '?');
    IndexOfIs(rest, '?', |path|);
  }

  /** A package is graded by its ecosystem, the length of its dependency path, its dev flag, and the check's categories. */
  lemma PackageIsGradedIn(s: Setting, a: Analysis, violation: Violation, time: int, e: string, n: string, v: Bytes, h: string)
    requires Plain(e, n) && a.analysisID == Identifier(e, n, v, h)
    ensures var code := violation.checkCode;
      SeverityAt(s, Case(a, violation), time) == SeverityOf(s.Rules(),
        Context("", e, |a.dependencyPath|, a.dev, code, if code in s.categories then s.categories[code] else [], time))
  {
    hide SeverityOf, Identifier;
    EcosystemOfPackage(e, n, v, h);
  }

  /** A source is graded by its path, likewise. */
  lemma SourceIsGradedIn(s: Setting, a: Analysis, violation: Violation, time: int, path: string, query: string)
    requires path != "" && '?' !in path && (query == "" || query[0] == '?') && a.analysisID == "source/" + path + query
    ensures var code := violation.checkCode;
      SeverityAt(s, Case(a, violation), time) == SeverityOf(s.Rules(),
        Context(path, "source", |a.dependencyPath|, a.dev, code, if code in s.categories then s.categories[code] else [], time))
  {
    hide SeverityOf;
    PathOfSource(path, query);
  }

  // ---- The name lockfile positions go by

  lemma NameOfIdentifier(e: string, n: string, v: Bytes, h: string)
    requires Plain(e, n)
    ensures NameFromKey(Identifier(e, n, v, h)) == n
  {
    hide QueryEscape;
    var key, query := Identifier(e, n, v, h), Query(v, h);
    var rest, tail := e + "/" + n + query, n + query;
    assert key == "package/" + rest && key[8..] == rest && key[..8] == "package/";
    assert rest[..|e|] == e && rest[|e|] == '/' && rest[|e| + 1..] == tail;
    IndexOfIs(rest, '/', |e|);
    assert tail[..|n|] == n && (query != "" ==> query[0] == '?' && tail[|n|] == '?');
    IndexOfIs(tail, '?', |n|);
  }

  /** The dependency is declared under another name. */
  ghost predicate OtherName(d: Dependency, n: string) {
    exists e, m, v, h :: Plain(e, m) && m != n && d.analysisIdentifier == Identifier(e, m, v, h)
  }

  /** The last declaration of a name with a position is the one that counts. */
  lemma {:induction false} DeclaredLast(deps: seq<Dependency>, j: nat, e: string, n: string, v: Bytes, h: string)
    requires j < |deps| && Plain(e, n) && deps[j].analysisIdentifier == Identifier(e, n, v, h) && deps[j].location.Some?
    requires forall m :: j < m < |deps| && deps[m].location.Some? ==> OtherName(deps[m], n)
    ensures n in Declared(deps) && Declared(deps)[n] == deps[j].location.value
  {
    hide Identifier, NameFromKey;
    var k := |deps| - 1;
    if j == k {
      NameOfIdentifier(e, n, v, h);
    } else {
      DeclaredLast(deps[..k], j, e, n, v, h);
      if deps[k].location.Some? {
        var f, m, w, g :| Plain(f, m) && m != n && deps[k].analysisIdentifier == Identifier(f, m, w, g);
        NameOfIdentifier(f, m, w, g);
      }
    }
  }

  /**
   * A direct edge to a package, at any version and under any overrides, ends with the position of the last dependency
   * declared under that name with a position, in whatever ecosystem and at whatever version it was declared.
   */
  lemma DirectEdgeLocated(before: seq<Edge>, deps: seq<Dependency>, after: seq<Edge>, i: nat, j: nat, n: string,
                          e: string, v: Bytes, h: string, f: string, w: Bytes, g: string)
    requires Attached(before, Declared(deps), after) && i < |before| && j < |deps| && Plain(e, n) && Plain(f, n)
    requires before[i].parentKey == "" && before[i].childKey == Identifier(e, n, v, h)
    requires deps[j].analysisIdentifier == Identifier(f, n, w, g) && deps[j].location.Some?
    requires forall m :: j < m < |deps| && deps[m].location.Some? ==> OtherName(deps[m], n)
    ensures after[i] == before[i].(location := deps[j].location)
  {
    hide Identifier, NameFromKey, OtherName, Declared;
    DeclaredLast(deps, j, f, n, w, g);
    NameOfIdentifier(e, n, v, h);
    assert EdgeAttached(before, Declared(deps), before[i], after[i]);
  }
}
