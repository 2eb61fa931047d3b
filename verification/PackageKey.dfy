/** Building the identifier of a package analysis, and reading a package back out of it. */
module PackageKey {
  import opened Wrappers
  import opened Text
  import opened AnalysisInput

  /** Go's strings are sequences of bytes; a version is escaped byte by byte. */
  type Byte = c: char | c < '\U{100}' witness '0'
  type Bytes = seq<Byte>

  // ---- Percent-encoding, as in section 2.1 of RFC 3986

  const HEX_DIGITS := "0123456789ABCDEF"

  predicate IsUnreserved(c: char) {
    'a' <= c <= 'z' || 'A' <= c <= 'Z' || '0' <= c <= '9' || c in "-_.~"
  }

  predicate IsHexDigit(c: char) {
    '0' <= c <= '9' || 'a' <= c <= 'f' || 'A' <= c <= 'F'
  }

  function HexValue(c: char): (n: nat)
    requires IsHexDigit(c)
    ensures n < 16
  {
    if c <= '9' then (c - '0') as nat
    else if c <= 'F' then (c - 'A') as nat + 10
    else (c - 'a') as nat + 10
  }

  function EscapedByte(c: Byte): string {
    if c == ' ' then "+"
    else if IsUnreserved(c) then [c]
    else ['%', HEX_DIGITS[c as int / 16], HEX_DIGITS[c as int % 16]]
  }

  function QueryEscape(s: Bytes): string {
    if s == [] then "" else EscapedByte(s[0]) + QueryEscape(s[1..])
  }

  /** None for a '%' that two hexadecimal digits do not follow. */
  function QueryUnescape(s: string): Option<string> {
    if s == "" then Some("")
    else if s[0] == '%' then
      if |s| < 3 || !IsHexDigit(s[1]) || !IsHexDigit(s[2]) then None
      else Prepend((16 * HexValue(s[1]) + HexValue(s[2])) as char, QueryUnescape(s[3..]))
    else Prepend(if s[0] == '+' then ' ' else s[0], QueryUnescape(s[1..]))
  }

  function Prepend(c: char, r: Option<string>): Option<string> {
    match r
    case Some(s) => Some([c] + s)
    case None => None
  }

  lemma ByteEscapeUndone(c: Byte, rest: string)
    ensures QueryUnescape(EscapedByte(c) + rest) == Prepend(c, QueryUnescape(rest))
  {
    var s := EscapedByte(c) + rest;
    if c != ' ' && !IsUnreserved(c) {
      var hi, lo := c as int / 16, c as int % 16;
      HexDigitOf(hi);
      HexDigitOf(lo);
      assert s[3..] == rest;
    } else {
      assert s[1..] == rest;
    }
  }

  lemma HexDigitOf(n: nat)
    requires n < 16
    ensures IsHexDigit(HEX_DIGITS[n]) && HexValue(HEX_DIGITS[n]) == n
  {
    assert HEX_DIGITS[n] == if n < 10 then '0' + n as char else 'A' + (n - 10) as char;
  }

  lemma {:induction false} UnescapeEscape(s: Bytes)
    ensures QueryUnescape(QueryEscape(s)) == Some(s)
  {
    if s != [] {
      UnescapeEscape(s[1..]);
      ByteEscapeUndone(s[0], QueryEscape(s[1..]));
      assert s == [s[0]] + s[1..];
    }
  }

  lemma ByteHasNoDelimiter(c: Byte)
    ensures '&' !in EscapedByte(c) && '?' !in EscapedByte(c) && EscapedByte(c) != ""
  {
    HexDigitOf(c as int / 16);
    HexDigitOf(c as int % 16);
  }

  lemma {:induction false} EscapeHasNoDelimiter(s: Bytes)
    ensures '&' !in QueryEscape(s) && '?' !in QueryEscape(s)
    ensures s != [] ==> QueryEscape(s) != ""
  {
    hide EscapedByte;
    if s != [] {
      ByteHasNoDelimiter(s[0]);
      EscapeHasNoDelimiter(s[1..]);
    }
  }

  // ---- The identifier

  function VersionText(version: Option<Bytes>): Bytes {
    match version
    case Some(v) => v
    case None => []
  }

  ghost function Query(version: Bytes, overridesHash: string): string {
    if version != [] then
      "?version=" + QueryEscape(version) + (if overridesHash != "" then "&overrides=" + overridesHash else "")
    else if overridesHash != "" then "?overrides=" + overridesHash
    else ""
  }

  ghost function Identifier(ecosystem: string, name: string, version: Bytes, overridesHash: string): string {
    "package/" + ecosystem + "/" + name + Query(version, overridesHash)
  }

  method NewPackageInputWithVersion(ecosystem: string, name: string, version: Option<Bytes>, overridesHash: string)
    returns (input: InputValue)
    ensures input.identity.analysisIdentifier == Identifier(ecosystem, name, VersionText(version), overridesHash)
    ensures input.packages == [PackageInfo(ecosystem, name, VersionText(version), false)]
    ensures input.identity.version == (match version case Some(v) => Some(v) case None => None)
    ensures input.identity.overridesHash == overridesHash && input.sourceURL == None && input.sourceDirectory == None
    ensures input.identity.commit == None && !input.identity.trusted && !input.identity.noFetch && !input.identity.writeFetchOnly
  {
    var id, text := "package/" + ecosystem + "/" + name, VersionText(version);
    ghost var path := id;
    if text != [] {
      id := id + "?version=" + QueryEscape(text);
      if overridesHash != "" {
        id := id + "&overrides=" + overridesHash;
      }
    } else if overridesHash != "" {
      id := id + "?overrides=" + overridesHash;
    }
    assert id == path + Query(text, overridesHash);
    var kept: Option<string> := match version case Some(v) => Some(v) case None => None;
    input := InputValue(Identity(id, None, kept, false, overridesHash, false, false), None, None,
                        [PackageInfo(ecosystem, name, text, false)]);
  }

  // ---- Reading it back

  datatype KeyIdentity = KeyIdentity(ecosystem: string, name: string, version: string)

  predicate GivesVersion(param: string) {
    HasPrefix(param, "version=")
  }

  /** The version a parameter gives: its text unescaped, or as it is if that fails. */
  function GivenVersion(param: string): string
    requires GivesVersion(param)
  {
    match QueryUnescape(param[8..])
    case Some(decoded) => decoded
    case None => param[8..]
  }

  function VersionAfter(param: string, version: string): string {
    if GivesVersion(param) then GivenVersion(param) else version
  }

  ghost function LastVersion(params: seq<string>, version: string): string {
    if params == [] then version
    else VersionAfter(params[|params| - 1], LastVersion(params[..|params| - 1], version))
  }

  function CutPath(path: string): Option<(string, string)> {
    if !HasPrefix(path, "package/") then None else
      var rest := path[8..];
      var i := IndexOf(rest, '/');
      if i == |rest| || i == 0 || i + 1 == |rest| then None else Some((rest[..i], rest[i + 1..]))
  }

  ghost function IdentityOf(key: string): KeyIdentity {
    var i := IndexOf(key, '?');
    match CutPath(key[..i])
    case Some((ecosystem, name)) =>
      KeyIdentity(ecosystem, name, if i == |key| then "" else LastVersion(Split(key[i + 1..], '&'), ""))
    case None => KeyIdentity("", "", "")
  }

  method ParseKeyIdentity(key: string) returns (k: KeyIdentity)
    ensures k == IdentityOf(key)
  {
    hide CutPath, VersionAfter, Split;
    var i, version := IndexOf(key, '?'), "";
    if i < |key| {
      var params := Split(key[i + 1..], '&');
      for j := 0 to |params|
        invariant version == LastVersion(params[..j], "")
      {
        assert params[..j + 1][..j] == params[..j];
        version := VersionAfter(params[j], version);
      }
      assert params[..|params|] == params;
    }
    match CutPath(key[..i]) {
      case Some((ecosystem, name)) => k := KeyIdentity(ecosystem, name, version);
      case None => k := KeyIdentity("", "", "");
    }
  }

  /** Whatever the key, the ecosystem and the name read from it hold no delimiter of theirs. */
  lemma IdentityShape(key: string)
    ensures var k := IdentityOf(key);
      && '/' !in k.ecosystem && '?' !in k.ecosystem && '?' !in k.name
      && (k.ecosystem == "" <==> k.name == "") && (k.ecosystem == "" ==> k.version == "")
  {
    var path := key[..IndexOf(key, '?')];
    if HasPrefix(path, "package/") {
      var rest := path[8..];
      assert forall c :: c in rest ==> c in path;
      assert forall c :: c in rest[..IndexOf(rest, '/')] ==> c in rest;
    }
  }

  // ---- The round trip

  predicate Plain(ecosystem: string, name: string) {
    ecosystem != "" && '/' !in ecosystem && '?' !in ecosystem && name != "" && '?' !in name
  }

  /** No parameter after the first `&` of the hash gives a version, or the last one that does gives this version. */
  ghost predicate KeepsVersion(overridesHash: string, version: string) {
    var params := Split(overridesHash, '&');
    || (forall j :: 1 <= j < |params| ==> !GivesVersion(params[j]))
    || (exists i :: 1 <= i < |params| && LastGiver(params, i) && GivenVersion(params[i]) == version)
  }

  ghost predicate LastGiver(params: seq<string>, i: nat)
    requires i < |params|
  {
    GivesVersion(params[i]) && forall j :: i < j < |params| ==> !GivesVersion(params[j])
  }

  lemma {:induction false} LastGiverDecides(params: seq<string>, version: string)
    ensures (forall j :: 0 <= j < |params| ==> !GivesVersion(params[j])) ==> LastVersion(params, version) == version
    ensures forall i :: 0 <= i < |params| && LastGiver(params, i) ==> LastVersion(params, version) == GivenVersion(params[i])
    ensures (exists i :: 0 <= i < |params| && GivesVersion(params[i])) ==> exists i :: 0 <= i < |params| && LastGiver(params, i)
  {
    hide GivesVersion, GivenVersion;
    if params != [] {
      var n := |params| - 1;
      var init := params[..n];
      LastGiverDecides(init, version);
      if GivesVersion(params[n]) {
        assert LastGiver(params, n);
      } else {
        forall i | 0 <= i < n ensures LastGiver(params, i) <==> LastGiver(init, i) {}
      }
    }
  }

  /** The parser's loop over the parameters agrees with that reading of the hash. */
  lemma KeepsVersionIff(overridesHash: string, version: string)
    ensures KeepsVersion(overridesHash, version) <==> LastVersion(Split(overridesHash, '&')[1..], version) == version
  {
    hide GivesVersion, GivenVersion, LastVersion, Split;
    var params := Split(overridesHash, '&');
    var rest := params[1..];
    LastGiverDecides(rest, version);
    forall i | 1 <= i < |params| ensures LastGiver(params, i) <==> LastGiver(rest, i - 1) {
      assert params[i] == rest[i - 1];
    }
    if i :| 0 <= i < |rest| && LastGiver(rest, i) {
      assert LastGiver(params, i + 1) && params[i + 1] == rest[i];
    }
  }

  lemma {:induction false} LastVersionFrom(first: seq<string>, rest: seq<string>, version: string)
    ensures LastVersion(first + rest, version) == LastVersion(rest, LastVersion(first, version))
  {
    if rest == [] {
      assert first + rest == first;
    } else {
      var n := |rest| - 1;
      LastVersionFrom(first, rest[..n], version);
      assert (first + rest)[..|first| + n] == first + rest[..n];
    }
  }

  /** The first parameter of "name=text&more" with the rest as they are. */
  lemma SplitAfterPrefix(prefix: string, text: string, c: char)
    requires c !in prefix
    ensures var parts := Split(text, c); Split(prefix + text, c) == [prefix + parts[0]] + parts[1..]
  {
    var i, s := IndexOf(text, c), prefix + text;
    if i == |text| {
      assert text[..i] == text;
      IndexOfIs(s, c, |s|);
    } else {
      var head := text[..i];
      assert text == head + [c] + text[i + 1..];
      assert s == (prefix + head) + [c] + text[i + 1..];
      SplitHead(head, c, text[i + 1..]);
      SplitHead(prefix + head, c, text[i + 1..]);
    }
  }

  lemma OneVersion(first: string, rest: seq<string>, version: string)
    ensures LastVersion([first] + rest, version) == LastVersion(rest, VersionAfter(first, version))
  {
    LastVersionFrom([first], rest, version);
    assert [first][..0] == [];
  }

  lemma OverridesParam(overridesHash: string, version: string)
    ensures LastVersion(Split("overrides=" + overridesHash, '&'), version)
         == LastVersion(Split(overridesHash, '&')[1..], version)
  {
    var parts := Split(overridesHash, '&');
    SplitAfterPrefix("overrides=", overridesHash, '&');
    OneVersion("overrides=" + parts[0], parts[1..], version);
    assert ("overrides=" + parts[0])[0] == 'o';
  }

  lemma VersionRead(version: Bytes, before: string)
    ensures VersionAfter("version=" + QueryEscape(version), before) == version
  {
    hide QueryUnescape, QueryEscape;
    UnescapeEscape(version);
    assert GivesVersion("version=" + QueryEscape(version));
    assert ("version=" + QueryEscape(version))[8..] == QueryEscape(version);
  }

  lemma NoParams(version: string)
    ensures LastVersion([], version) == version
    ensures Split("", '&')[1..] == []
  {}

  lemma QueryRead(version: Bytes, overridesHash: string)
    requires Query(version, overridesHash) != ""
    ensures var q := Query(version, overridesHash);
      q[0] == '?' && LastVersion(Split(q[1..], '&'), "") == LastVersion(Split(overridesHash, '&')[1..], version)
  {
    hide LastVersion, Split, VersionAfter, QueryEscape;
    var q, param := Query(version, overridesHash), "version=" + QueryEscape(version);
    EscapeHasNoDelimiter(version);
    VersionRead(version, "");
    if version == [] {
      assert q[1..] == "overrides=" + overridesHash;
      OverridesParam(overridesHash, "");
    } else if overridesHash == "" {
      assert q[1..] == param;
      SplitParam(param);
      OneVersion(param, [], "");
      NoParams(version);
    } else {
      var rest := "overrides=" + overridesHash;
      assert q[1..] == param + ['&'] + rest;
      SplitHead(param, '&', rest);
      OneVersion(param, Split(rest, '&'), "");
      OverridesParam(overridesHash, version);
    }
  }

  lemma SplitParam(param: string)
    requires '&' !in param
    ensures Split(param, '&') == [param] + []
  {
    assert param[..|param|] == param;
    IndexOfIs(param, '&', |param|);
  }

  lemma PathRead(ecosystem: string, name: string)
    requires Plain(ecosystem, name)
    ensures CutPath("package/" + ecosystem + "/" + name) == Some((ecosystem, name))
    ensures '?' !in "package/" + ecosystem + "/" + name
  {
    var rest := ecosystem + "/" + name;
    assert ("package/" + ecosystem + "/" + name)[8..] == rest;
    assert rest[..|ecosystem|] == ecosystem && rest[|ecosystem|] == '/' && rest[|ecosystem| + 1..] == name;
    IndexOfIs(rest, '/', |ecosystem|);
  }

  /** What is read from an identifier with plain parts, whatever the hash holds. */
  lemma IdentifierRead(ecosystem: string, name: string, version: Bytes, overridesHash: string)
    requires Plain(ecosystem, name)
    ensures IdentityOf(Identifier(ecosystem, name, version, overridesHash))
         == KeyIdentity(ecosystem, name, LastVersion(Split(overridesHash, '&')[1..], version))
  {
    hide CutPath, LastVersion, Split, Query;
    var path, q := "package/" + ecosystem + "/" + name, Query(version, overridesHash);
    var key := path + q;
    PathRead(ecosystem, name);
    if q == "" {
      QueryEmpty(version, overridesHash);
      assert key == path && key[..|key|] == path;
      IndexOfIs(key, '?', |key|);
    } else {
      QueryRead(version, overridesHash);
      assert key[..|path|] == path && key[|path|] == '?' && key[|path| + 1..] == q[1..];
      IndexOfIs(key, '?', |path|);
    }
  }

  lemma QueryEmpty(version: Bytes, overridesHash: string)
    requires Query(version, overridesHash) == ""
    ensures version == [] && overridesHash == ""
    ensures LastVersion(Split(overridesHash, '&')[1..], version) == ""
  {}

  /** The identifier gives back the ecosystem, the name and the version in exactly these cases. */
  lemma RoundTripIff(ecosystem: string, name: string, version: Bytes, overridesHash: string)
    ensures IdentityOf(Identifier(ecosystem, name, version, overridesHash)) == KeyIdentity(ecosystem, name, version)
       <==> if ecosystem == "" then name == "" && version == []
            else Plain(ecosystem, name) && KeepsVersion(overridesHash, version)
  {
    hide LastVersion, Query, IdentityOf, KeepsVersion;
    var key := Identifier(ecosystem, name, version, overridesHash);
    IdentityShape(key);
    KeepsVersionIff(overridesHash, version);
    if Plain(ecosystem, name) {
      IdentifierRead(ecosystem, name, version, overridesHash);
    } else if ecosystem == "" {
      NoEcosystem(name, version, overridesHash);
    }
  }

  lemma NoEcosystem(name: string, version: Bytes, overridesHash: string)
    ensures IdentityOf(Identifier("", name, version, overridesHash)) == KeyIdentity("", "", "")
  {
    var key := Identifier("", name, version, overridesHash);
    var i := IndexOf(key, '?');
    assert key[..9] == "package//";
    assert i >= 9;
    var rest := key[..i][8..];
    assert rest[0] == '/';
  }

  /** A hash without '&', such as the hexadecimal one the engine computes, never disturbs the version. */
  lemma PlainHashKeepsVersion(overridesHash: string, version: string)
    requires '&' !in overridesHash
    ensures KeepsVersion(overridesHash, version)
  {
    SplitParam(overridesHash);
  }

  /** A hash that carries a version parameter of its own overrules the real version. */
  lemma HashCanChangeVersion(hash: string, smuggled: Bytes, version: string)
    requires '&' !in hash && smuggled != version
    ensures !KeepsVersion(hash + "&version=" + QueryEscape(smuggled), version)
  {
    hide LastVersion, Split, VersionAfter, QueryEscape, KeepsVersion;
    var param := "version=" + QueryEscape(smuggled);
    KeepsVersionIff(hash + "&version=" + QueryEscape(smuggled), version);
    assert hash + "&version=" + QueryEscape(smuggled) == hash + ['&'] + param;
    EscapeHasNoDelimiter(smuggled);
    SplitHead(hash, '&', param);
    SplitParam(param);
    assert ([hash] + ([param] + []))[1..] == [param] + [];
    OneVersion(param, [], version);
    VersionRead(smuggled, version);
    NoParams(smuggled);
  }

  // ---- Distinct analyses have distinct identifiers

  lemma QueryDistinct(v: Bytes, g: string, w: Bytes, h: string)
    requires Query(v, g) == Query(w, h)
    ensures v == w && g == h
  {
    hide QueryEscape, QueryUnescape;
    var p, q := Query(v, g), Query(w, h);
    EscapeHasNoDelimiter(v);
    EscapeHasNoDelimiter(w);
    if v != [] { assert p[1] == 'v'; } else if g != "" { assert p[1] == 'o'; }
    if w != [] { assert q[1] == 'v'; } else if h != "" { assert q[1] == 'o'; }
    if v != [] {
      VersionPart(v, g);
      VersionPart(w, h);
      UnescapeEscape(v);
      UnescapeEscape(w);
      var e := QueryEscape(v);
      assert p[9 + |e|..] == q[9 + |e|..];
      if g != "" { assert p[9 + |e|..][11..] == g; }
      if h != "" { assert q[9 + |e|..][11..] == h; }
    } else if g != "" {
      assert p[11..] == g && q[11..] == h;
    }
  }

  lemma VersionPart(v: Bytes, g: string)
    requires v != []
    ensures var p, e := Query(v, g), QueryEscape(v);
      |p| >= 9 + |e| && p[9..9 + IndexOf(p[9..], '&')] == e && p[9 + |e|..] == if g == "" then "" else "&overrides=" + g
  {
    var p, e := Query(v, g), QueryEscape(v);
    EscapeHasNoDelimiter(v);
    hide QueryEscape;
    var tail := if g == "" then "" else "&overrides=" + g;
    assert p == "?version=" + e + tail;
    assert p[9..] == e + tail && (e + tail)[..|e|] == e;
    IndexOfIs(p[9..], '&', |e|);
  }

  lemma IdentifiersDistinct(e: string, n: string, v: Bytes, g: string, f: string, m: string, w: Bytes, h: string)
    requires '/' !in e && '/' !in f && '?' !in n && '?' !in m
    requires Identifier(e, n, v, g) == Identifier(f, m, w, h)
    ensures (e, n, v, g) == (f, m, w, h)
  {
    hide Query;
    var x, y := n + Query(v, g), m + Query(w, h);
    var s, t := e + "/" + x, f + "/" + y;
    assert Identifier(e, n, v, g)[8..] == s && Identifier(f, m, w, h)[8..] == t;
    CutAt(e, '/', x);
    CutAt(f, '/', y);
    assert x == s[|e| + 1..] == y;
    NameCut(n, v, g);
    NameCut(m, w, h);
    assert Query(v, g) == x[|n|..] && Query(w, h) == y[|m|..];
    QueryDistinct(v, g, w, h);
  }

  lemma CutAt(before: string, c: char, rest: string)
    requires c !in before
    ensures var s := before + [c] + rest; IndexOf(s, c) == |before| && s[..|before|] == before && s[|before| + 1..] == rest
  {
    var s := before + [c] + rest;
    assert s[..|before|] == before && s[|before| + 1..] == rest;
    IndexOfIs(s, c, |before|);
  }

  lemma NameCut(name: string, version: Bytes, hash: string)
    requires '?' !in name
    ensures var s := name + Query(version, hash); IndexOf(s, '?') == |name| && s[..|name|] == name
  {
    var q := Query(version, hash);
    var s := name + q;
    assert s[..|name|] == name;
    if q != "" { assert q[0] == '?' && s[|name|] == '?'; }
    IndexOfIs(s, '?', |name|);
  }
}
