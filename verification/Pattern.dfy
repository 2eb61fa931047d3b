/** Patterns in which `*` stands for any run of characters other than a slash. */
module Pattern {

  /** What the anchored regular expression built from the pattern accepts. */
  predicate Glob(pattern: string, value: string)
    decreases |pattern| + |value|
  {
    if pattern == "" then value == ""
    else if pattern[0] == '*' then
      Glob(pattern[1..], value) || (value != "" && value[0] != '/' && Glob(pattern, value[1..]))
    else value != "" && value[0] == pattern[0] && Glob(pattern[1..], value[1..])
  }

  predicate MatchesPattern(pattern: string, value: string) {
    if '*' !in pattern then pattern == value else Glob(pattern, value)
  }

  // ---- An independent reading: replace every star by a slash-free string

  function Stars(pattern: string): nat {
    if pattern == "" then 0 else (if pattern[0] == '*' then 1 else 0) + Stars(pattern[1..])
  }

  function Filled(pattern: string, fills: seq<string>): string
    requires |fills| == Stars(pattern)
  {
    if pattern == "" then ""
    else if pattern[0] == '*' then fills[0] + Filled(pattern[1..], fills[1..])
    else [pattern[0]] + Filled(pattern[1..], fills)
  }

  predicate SlashFree(fills: seq<string>) {
    forall f :: f in fills ==> '/' !in f
  }

  ghost predicate IsFilling(pattern: string, fills: seq<string>, value: string) {
    |fills| == Stars(pattern) && SlashFree(fills) && value == Filled(pattern, fills)
  }

  lemma {:induction false} GlobFills(pattern: string, value: string) returns (fills: seq<string>)
    requires Glob(pattern, value)
    ensures IsFilling(pattern, fills, value)
    decreases |pattern| + |value|
  {
    if pattern == "" {
      fills := [];
    } else if pattern[0] == '*' {
      if Glob(pattern[1..], value) {
        var rest := GlobFills(pattern[1..], value);
        fills := [""] + rest;
        assert fills[1..] == rest;
      } else {
        var more := GlobFills(pattern, value[1..]);
        fills := [[value[0]] + more[0]] + more[1..];
        assert more[0] in more;
        assert fills[1..] == more[1..];
        assert value == [value[0]] + value[1..];
      }
    } else {
      fills := GlobFills(pattern[1..], value[1..]);
      assert value == [value[0]] + value[1..];
    }
  }

  lemma {:induction false} FilledGlobs(pattern: string, fills: seq<string>)
    requires |fills| == Stars(pattern) && SlashFree(fills)
    ensures Glob(pattern, Filled(pattern, fills))
    decreases |pattern|, if fills == [] then 0 else |fills[0]|
  {
    if pattern != "" {
      var value := Filled(pattern, fills);
      if pattern[0] == '*' {
        var rest := Filled(pattern[1..], fills[1..]);
        if fills[0] == "" {
          FilledGlobs(pattern[1..], fills[1..]);
          assert value == rest;
        } else {
          var shorter := [fills[0][1..]] + fills[1..];
          assert fills[0] in fills && fills[0][0] in fills[0];
          assert forall f :: f in shorter ==> '/' !in f;
          FilledGlobs(pattern, shorter);
          assert shorter[1..] == fills[1..];
          assert value[1..] == fills[0][1..] + rest;
        }
      } else {
        FilledGlobs(pattern[1..], fills);
        assert value[1..] == Filled(pattern[1..], fills);
      }
    }
  }

  lemma {:induction false} NoStars(pattern: string)
    ensures Stars(pattern) == 0 <==> '*' !in pattern
    ensures Stars(pattern) == 0 ==> Filled(pattern, []) == pattern
  {
    if pattern != "" {
      NoStars(pattern[1..]);
      assert pattern == [pattern[0]] + pattern[1..];
    }
  }

  /** A pattern matches exactly the strings obtained by filling its stars with slash-free strings. */
  lemma MatchesIffFilled(pattern: string, value: string)
    ensures MatchesPattern(pattern, value) <==> exists fills :: IsFilling(pattern, fills, value)
  {
    NoStars(pattern);
    if '*' !in pattern {
      if pattern == value { assert IsFilling(pattern, [], value); }
    } else {
      if Glob(pattern, value) { var fills := GlobFills(pattern, value); }
      if fills :| IsFilling(pattern, fills, value) { FilledGlobs(pattern, fills); }
    }
  }

  lemma {:induction false} StarsForStars(pattern: string) returns (fills: seq<string>)
    ensures |fills| == Stars(pattern) && SlashFree(fills) && Filled(pattern, fills) == pattern
  {
    if pattern == "" {
      fills := [];
    } else {
      fills := StarsForStars(pattern[1..]);
      if pattern[0] == '*' {
        fills := ["*"] + fills;
        assert fills[1..][..] == fills[1..];
      }
      assert pattern == [pattern[0]] + pattern[1..];
    }
  }

  /** Every pattern matches itself, stars included. */
  lemma MatchesItself(pattern: string)
    ensures MatchesPattern(pattern, pattern)
  {
    var fills := StarsForStars(pattern);
    assert IsFilling(pattern, fills, pattern);
    MatchesIffFilled(pattern, pattern);
  }
}
