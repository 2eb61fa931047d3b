/** What the text of a severity rule means, read off its segments, and how specific the text is. */
module RuleText {
  import opened Wrappers
  import opened Text
  import opened Pattern
  import opened SeverityPath
  import opened Policy
  import opened PolicyLoader

  // ---- The meaning of a text

  /** A depth, a depth followed by "+", or two depths with a "-" between them. */
  predicate DepthHolds(text: string, depth: nat) {
    if '-' in text then
      var i := IndexOf(text, '-');
      AllDigits(text[..i]) && AllDigits(text[i + 1..]) && DecimalValue(text[..i]) <= depth <= DecimalValue(text[i + 1..])
    else if text != "" && text[|text| - 1] == '+' then
      AllDigits(text[..|text| - 1]) && DecimalValue(text[..|text| - 1]) <= depth
    else AllDigits(text) && depth == DecimalValue(text)
  }

  predicate SegmentHolds(keyword: string, value: string, ctx: Context) {
    if keyword == "ecosystem" then MatchesPattern(value, ctx.ecosystem)
    else if keyword == "depth" then DepthHolds(value, ctx.depth)
    else if keyword == "env" then if ctx.dev then value == "dev" else value == "prod"
    else if keyword == "category" then exists c :: c in ctx.categories && MatchesPattern(value, c)
    else keyword == "check" && MatchesPattern(value, ctx.checkCode)
  }

  /** Every keyword holds with the value that follows it. */
  predicate SegmentsHold(segments: seq<string>, ctx: Context) {
    |segments| < 2 || (SegmentHolds(segments[0], segments[1], ctx) && SegmentsHold(segments[2..], ctx))
  }

  /** One for every keyword, but none for a category. */
  function SegmentsWeight(segments: seq<string>): nat {
    if |segments| < 2 then 0 else (if segments[0] == "category" then 0 else 1) + SegmentsWeight(segments[2..])
  }

  // ---- The parser finds that meaning

  lemma DepthMeans(text: string, depth: nat)
    requires ParseDepthRange(text).Ok?
    ensures ParseDepthRange(text).value.Contains(depth) <==> DepthHolds(text, depth)
  {
    var n := LeadingDigits(text);
    var rest := text[n..];
    assert text == text[..n] + rest;
    assert forall c :: c in text[..n] ==> IsDigit(c);
    if rest == "" {
      assert text[..n] == text;
    } else if rest == "+" {
      assert text[..|text| - 1] == text[..n];
    } else {
      assert text[n] == '-';
      IndexOfIs(text, '-', n);
      assert text[n + 1..] == rest[1..];
    }
  }

  /** What the parts read so far ask of a context, the target aside. */
  predicate PartsHold(p: Path, ctx: Context) {
    && (p.sourcePath.Some? ==> MatchesPattern(p.sourcePath.value, ctx.sourcePath))
    && (p.ecosystem.Some? ==> MatchesPattern(p.ecosystem.value, ctx.ecosystem))
    && (p.depthRange.Some? ==> p.depthRange.value.Contains(ctx.depth))
    && (p.env.Some? ==> p.env.value == ctx.dev)
  }

  function PartsWeight(p: Path): nat {
    (if p.sourcePath.Some? then 2 else 0) + (if p.ecosystem.Some? then 1 else 0) + (if p.depthRange.Some? then 1 else 0)
    + (if p.env.Some? then 1 else 0)
  }

  /** A step moves what the text says from the segments into the path. */
  ghost predicate SameMeaning(p: Progress, q: Progress, ctx: Context) {
    && (PartsHold(p.path, ctx) && SegmentsHold(p.rest, ctx) <==> PartsHold(q.path, ctx) && SegmentsHold(q.rest, ctx))
    && PartsWeight(p.path) + SegmentsWeight(p.rest) == PartsWeight(q.path) + SegmentsWeight(q.rest)
  }

  lemma EcosystemMeans(p: Progress, ctx: Context)
    requires p.path.ecosystem.None? && ParseEcosystem(p).Ok?
    ensures SameMeaning(p, ParseEcosystem(p).value, ctx)
  {
    hide MatchesPattern, DepthHolds;
  }

  lemma DepthStepMeans(p: Progress, ctx: Context)
    requires p.path.depthRange.None? && ParseDepth(p).Ok?
    ensures SameMeaning(p, ParseDepth(p).value, ctx)
  {
    hide MatchesPattern, DepthHolds, ParseDepthRange;
    if p.rest != [] && p.rest[0] == "depth" { DepthMeans(p.rest[1], ctx.depth); }
  }

  lemma EnvMeans(p: Progress, ctx: Context)
    requires p.path.env.None? && ParseEnv(p).Ok?
    ensures SameMeaning(p, ParseEnv(p).value, ctx)
  {
    hide MatchesPattern, DepthHolds;
  }

  lemma TargetMeans(p: Progress, r: SeverityRule, ctx: Context)
    requires ParseTarget(p).Ok? && ParseTarget(p).value.rest == [] && r.path == ParseTarget(p).value.path
    ensures Matches(r, ctx) <==> PartsHold(p.path, ctx) && SegmentsHold(p.rest, ctx)
    ensures ComputeSpecificity(r.path) == PartsWeight(p.path) + SegmentsWeight(p.rest)
  {
    hide MatchesPattern, DepthHolds;
    assert p.rest[2..] == [];
  }

  /** A rule matches a context exactly when its source pattern, if any, and each of its segments does. */
  lemma SegmentsMean(source: Option<string>, segments: seq<string>, r: SeverityRule, ctx: Context)
    requires ParseSegments(NOTHING.(sourcePath := source), segments) == Ok(r.path)
    ensures Matches(r, ctx) <==> (source.Some? ==> MatchesPattern(source.value, ctx.sourcePath)) && SegmentsHold(segments, ctx)
    ensures ComputeSpecificity(r.path) == (if source.Some? then 2 else 0) + SegmentsWeight(segments)
  {
    hide Matches, ComputeSpecificity, SegmentsHold, SegmentsWeight, MatchesPattern, ParseDepthRange;
    var start := Progress(NOTHING.(sourcePath := source), segments);
    EcosystemMeans(start, ctx);
    var a := ParseEcosystem(start).value;
    DepthStepMeans(a, ctx);
    var b := ParseDepth(a).value;
    EnvMeans(b, ctx);
    var c := ParseEnv(b).value;
    TargetMeans(c, r, ctx);
  }

  /** What a step leaves of the segments ends as they did, and the source pattern stays. */
  ghost predicate SameEnd(p: Progress, q: Progress) {
    q.path.sourcePath == p.path.sourcePath && |q.rest| <= |p.rest| && (q.rest != [] ==> q.rest[|q.rest| - 1] == p.rest[|p.rest| - 1])
  }

  lemma StepsKeepEnd(p: Progress)
    ensures ParseEcosystem(p).Ok? ==> SameEnd(p, ParseEcosystem(p).value)
    ensures ParseDepth(p).Ok? ==> SameEnd(p, ParseDepth(p).value)
    ensures ParseEnv(p).Ok? ==> SameEnd(p, ParseEnv(p).value)
    ensures ParseTarget(p).Ok? && ParseTarget(p).value.rest == [] ==>
      p.rest != [] && ParseTarget(p).value.path.sourcePath == p.path.sourcePath
      && ParseTarget(p).value.path.target.name == p.rest[|p.rest| - 1]
  {
    hide ParseDepthRange;
  }

  /** The target's name is the last segment, and the parts before it leave the source pattern alone. */
  lemma TargetIsLast(source: Option<string>, segments: seq<string>)
    requires ParseSegments(NOTHING.(sourcePath := source), segments).Ok?
    ensures var p := ParseSegments(NOTHING.(sourcePath := source), segments).value;
      segments != [] && p.target.name == segments[|segments| - 1] && p.sourcePath == source
  {
    hide ParseEcosystem, ParseDepth, ParseEnv, ParseTarget;
    var start := Progress(NOTHING.(sourcePath := source), segments);
    StepsKeepEnd(start);
    var a := ParseEcosystem(start).value;
    StepsKeepEnd(a);
    var b := ParseDepth(a).value;
    StepsKeepEnd(b);
    var c := ParseEnv(b).value;
    StepsKeepEnd(c);
  }

  lemma {:induction false} StarsCounted(s: string)
    ensures StarCount(s) == multiset(s)['*']
  {
    if s != "" {
      StarsCounted(s[1..]);
      assert s == [s[0]] + s[1..];
    }
  }

  /** The text of a rule without a source pattern. */
  lemma TextMeans(text: string, value: SeverityValue, ctx: Context)
    requires !HasPrefix(text, "source/") && RuleOf(text, value).Ok?
    ensures var r := RuleOf(text, value).value;
      && r.value == value && !r.isOverlay && !r.isOverride
      && (Matches(r, ctx) <==> SegmentsHold(Split(text, '/'), ctx))
      && r.specificity == SegmentsWeight(Split(text, '/'))
      && r.wildcardCount == multiset(Split(text, '/')[|Split(text, '/')| - 1])['*']
  {
    hide ParseSegments, Matches, SegmentsHold, SegmentsWeight, ComputeSpecificity, StarCount;
    TargetIsLast(None, Split(text, '/'));
    StarsCounted(Split(text, '/')[|Split(text, '/')| - 1]);
    SegmentsMean(None, Split(text, '/'), RuleOf(text, value).value, ctx);
  }

  /** The text of a rule with a source pattern. */
  lemma SourceTextMeans(source: string, tail: string, value: SeverityValue, ctx: Context)
    requires '"' !in source && source != ""
    requires RuleOf("source/\"" + source + "\"/" + tail, value).Ok?
    ensures var r := RuleOf("source/\"" + source + "\"/" + tail, value).value;
      && r.value == value && !r.isOverlay && !r.isOverride
      && (Matches(r, ctx) <==> MatchesPattern(source, ctx.sourcePath) && SegmentsHold(Split(tail, '/'), ctx))
      && r.specificity == 2 + SegmentsWeight(Split(tail, '/'))
      && r.wildcardCount == multiset(source)['*'] + multiset(Split(tail, '/')[|Split(tail, '/')| - 1])['*']
  {
    hide ParseSegments, Matches, SegmentsHold, SegmentsWeight, ComputeSpecificity, ParseSeverityPath, MatchesPattern, StarCount;
    var text := "source/\"" + source + "\"/" + tail;
    SourceParses(source, tail);
    assert text == "source/" + ("\"" + source + "\"") + ['/'] + tail;
    TargetIsLast(Some(source), Split(tail, '/'));
    StarsCounted(source);
    StarsCounted(Split(tail, '/')[|Split(tail, '/')| - 1]);
    SegmentsMean(Some(source), Split(tail, '/'), RuleOf(text, value).value, ctx);
  }

  /** No other text that begins with "source/" is accepted. */
  lemma SourceTextShape(text: string)
    requires HasPrefix(text, "source/") && ParseSeverityPath(text).Ok?
    ensures exists source, tail :: '"' !in source && source != "" && text == "source/\"" + source + "\"/" + tail
  {
    hide ParseSegments;
    var remaining := text[7..];
    var end := IndexOf(remaining[1..], '"');
    var source, tail := remaining[1..][..end], remaining[end + 2..][1..];
    assert remaining == "\"" + source + "\"/" + tail;
    assert text == "source/" + remaining;
    assert text == "source/\"" + source + "\"/" + tail;
  }
}
