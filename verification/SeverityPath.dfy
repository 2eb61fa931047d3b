/** The path language of severity rules: its parser, its printer, and when printing can be undone. */
module SeverityPath {
  import opened Wrappers
  import opened Text

  const MAX_INT: int := 0x7fff_ffff_ffff_ffff

  /** `max == -1` stands for no upper bound. */
  datatype DepthRange = DepthRange(min: int, max: int) {
    predicate Contains(depth: int) {
      min <= depth && (max == -1 || depth <= max)
    }
  }

  datatype PathTarget = PathTarget(isCategory: bool, name: string)

  datatype Path = Path(
    sourcePath: Option<string>, ecosystem: Option<string>, depthRange: Option<DepthRange>, env: Option<bool>, target: PathTarget)

  datatype PathError =
    | UnquotedSource | UnclosedQuote | EmptySource | NoSlashAfterSource | TooFewSegments
    | InvalidDepthRange | DepthOutOfRange | MaxBelowMin | InvalidEnv | MissingName | MissingTarget | UnknownTarget | TrailingSegments

  // ---- The parser

  function ParseDepthRange(s: string): Result<DepthRange, PathError> {
    var n := LeadingDigits(s);
    var rest := s[n..];
    if n == 0 then Err(InvalidDepthRange)
    else if rest == "" || rest == "+" then
      var min := DecimalValue(s[..n]);
      if min > MAX_INT then Err(DepthOutOfRange)
      else Ok(DepthRange(min, if rest == "" then min else -1))
    else if rest[0] == '-' && rest != "-" && AllDigits(rest[1..]) then
      var min, max := DecimalValue(s[..n]), DecimalValue(rest[1..]);
      if min > MAX_INT || max > MAX_INT then Err(DepthOutOfRange)
      else if max < min then Err(MaxBelowMin)
      else Ok(DepthRange(min, max))
    else Err(InvalidDepthRange)
  }

  datatype Progress = Progress(path: Path, rest: seq<string>)

  const NOTHING := Path(None, None, None, None, PathTarget(false, ""))

  function ParseEcosystem(p: Progress): Result<Progress, PathError> {
    if p.rest == [] || p.rest[0] != "ecosystem" then Ok(p)
    else if |p.rest| == 1 then Err(MissingName)
    else Ok(Progress(p.path.(ecosystem := Some(p.rest[1])), p.rest[2..]))
  }

  function ParseDepth(p: Progress): Result<Progress, PathError> {
    if p.rest == [] || p.rest[0] != "depth" then Ok(p)
    else if |p.rest| == 1 then Err(MissingName)
    else match ParseDepthRange(p.rest[1])
      case Err(e) => Err(e)
      case Ok(range) => Ok(Progress(p.path.(depthRange := Some(range)), p.rest[2..]))
  }

  function ParseEnv(p: Progress): Result<Progress, PathError> {
    if p.rest == [] || p.rest[0] != "env" then Ok(p)
    else if |p.rest| == 1 then Err(MissingName)
    else if p.rest[1] == "dev" then Ok(Progress(p.path.(env := Some(true)), p.rest[2..]))
    else if p.rest[1] == "prod" then Ok(Progress(p.path.(env := Some(false)), p.rest[2..]))
    else Err(InvalidEnv)
  }

  function ParseTarget(p: Progress): Result<Progress, PathError> {
    if p.rest == [] then Err(MissingTarget)
    else if p.rest[0] != "category" && p.rest[0] != "check" then Err(UnknownTarget)
    else if |p.rest| == 1 then Err(MissingName)
    else Ok(Progress(p.path.(target := PathTarget(p.rest[0] == "category", p.rest[1])), p.rest[2..]))
  }

  function Then(r: Result<Progress, PathError>, next: Progress -> Result<Progress, PathError>): Result<Progress, PathError> {
    match r
    case Err(e) => Err(e)
    case Ok(p) => next(p)
  }

  function ParseSegments(path: Path, segments: seq<string>): Result<Path, PathError> {
    if |segments| < 2 then Err(TooFewSegments)
    else
      var parsed := Then(Then(Then(ParseEcosystem(Progress(path, segments)), ParseDepth), ParseEnv), ParseTarget);
      match parsed
      case Err(e) => Err(e)
      case Ok(p) => if p.rest == [] then Ok(p.path) else Err(TrailingSegments)
  }

  function ParseSeverityPath(text: string): Result<Path, PathError> {
    if HasPrefix(text, "source/") then
      var remaining := text[7..];
      if !HasPrefix(remaining, "\"") then Err(UnquotedSource)
      else
        var end := IndexOf(remaining[1..], '"');
        if end == |remaining[1..]| then Err(UnclosedQuote)
        else if end == 0 then Err(EmptySource)
        else
          var after := remaining[end + 2..];
          if !HasPrefix(after, "/") then Err(NoSlashAfterSource)
          else ParseSegments(NOTHING.(sourcePath := Some(remaining[1..end + 1])), Split(after[1..], '/'))
    else ParseSegments(NOTHING, Split(text, '/'))
  }

  // ---- The printer

  function HexDigit(n: nat): char
    requires n < 16
  {
    "0123456789abcdef"[n]
  }

  function Hex(n: nat, digits: nat): (s: string)
    ensures |s| == digits && '"' !in s
    decreases digits
  {
    if digits == 0 then "" else Hex(n / 16, digits - 1) + [HexDigit(n % 16)]
  }

  function EscapedChar(c: char): (s: string)
    ensures |s| > 1
    ensures c != '"' ==> '"' !in s
  {
    if c == '"' || c == '\\' then ['\\', c]
    else if c == '\U{0007}' then "\\a"
    else if c == '\U{0008}' then "\\b"
    else if c == '\U{000C}' then "\\f"
    else if c == '\n' then "\\n"
    else if c == '\r' then "\\r"
    else if c == '\t' then "\\t"
    else if c == '\U{000B}' then "\\v"
    else if c < ' ' || c == '\U{007F}' then "\\x" + Hex(c as nat, 2)
    else if c < '\U{10000}' then "\\u" + Hex(c as nat, 4)
    else "\\U" + Hex(c as nat, 8)
  }

  /** `%q` escapes the character; `isPrint` is Unicode's table of printable characters. */
  predicate IsEscaped(c: char, isPrint: char -> bool) {
    c == '"' || c == '\\' || !isPrint(c)
  }

  function QuotedBody(s: string, isPrint: char -> bool): string {
    if s == "" then ""
    else (if IsEscaped(s[0], isPrint) then EscapedChar(s[0]) else [s[0]]) + QuotedBody(s[1..], isPrint)
  }

  function Quote(s: string, isPrint: char -> bool): string {
    "\"" + QuotedBody(s, isPrint) + "\""
  }

  function DepthRangeToString(r: DepthRange): string {
    if r.min == r.max then SignedDecimal(r.min)
    else if r.max == -1 then SignedDecimal(r.min) + "+"
    else SignedDecimal(r.min) + "-" + SignedDecimal(r.max)
  }

  /** The shape of every path the parser produces. */
  predicate IsParsed(p: Path) {
    && (p.sourcePath.Some? ==> p.sourcePath.value != "" && '"' !in p.sourcePath.value)
    && (p.ecosystem.Some? ==> '/' !in p.ecosystem.value)
    && (p.depthRange.Some? ==> ValidRange(p.depthRange.value))
    && '/' !in p.target.name
  }

  predicate ValidRange(r: DepthRange) {
    0 <= r.min <= MAX_INT && (r.max == -1 || r.min <= r.max <= MAX_INT)
  }

  function EcosystemSegments(p: Path): seq<string> {
    if p.ecosystem.Some? then ["ecosystem", p.ecosystem.value] else []
  }

  function DepthSegments(p: Path): seq<string> {
    if p.depthRange.Some? then ["depth", DepthRangeToString(p.depthRange.value)] else []
  }

  function EnvSegments(p: Path): seq<string> {
    if p.env.Some? then ["env", if p.env.value then "dev" else "prod"] else []
  }

  function OptionalSegments(p: Path): seq<string> {
    EcosystemSegments(p) + DepthSegments(p) + EnvSegments(p)
  }

  function TargetSegments(p: Path): seq<string> {
    [if p.target.isCategory then "category" else "check", p.target.name]
  }

  function SeverityPathToString(p: Path, isPrint: char -> bool): string {
    var source := if p.sourcePath.Some? then ["source/" + Quote(p.sourcePath.value, isPrint)] else [];
    Join(source + OptionalSegments(p) + TargetSegments(p), '/')
  }

  // ---- Round trips

  lemma DepthRangeRoundTrip(r: DepthRange)
    requires ValidRange(r)
    ensures ParseDepthRange(DepthRangeToString(r)) == Ok(r)
    ensures '/' !in DepthRangeToString(r)
  {
    hide Decimal, DecimalValue, LeadingDigits;
    var min := Decimal(r.min);
    DecimalRoundTrip(r.min);
    if r.min == r.max {
      DigitsThen(min, "");
      assert min + "" == min;
    } else if r.max == -1 {
      DigitsThen(min, "+");
    } else {
      DecimalRoundTrip(r.max);
      var max := Decimal(r.max);
      DigitsThen(min, "-" + max);
      assert min + "-" + max == min + ("-" + max);
      assert ("-" + max)[1..] == max;
    }
  }

  lemma DigitsThen(digits: string, rest: string)
    requires AllDigits(digits) && (rest == "" || !IsDigit(rest[0]))
    ensures LeadingDigits(digits + rest) == |digits|
    ensures (digits + rest)[..|digits|] == digits && (digits + rest)[|digits|..] == rest
  {
    LeadingDigitsIs(digits + rest, |digits|);
  }

  lemma DepthRangeParsed(s: string)
    ensures ParseDepthRange(s).Ok? ==> ValidRange(ParseDepthRange(s).value)
  {}

  lemma Keywords()
    ensures "ecosystem" != "depth" && "ecosystem" != "env" && "ecosystem" != "category" && "ecosystem" != "check"
    ensures "depth" != "env" && "depth" != "category" && "depth" != "check"
    ensures "env" != "category" && "env" != "check" && "category" != "check" && "dev" != "prod"
  {
    assert "depth"[0] != "check"[0];
    assert |"ecosystem"| == 9 && |"depth"| == |"check"| == 5 && |"env"| == |"dev"| == 3 && |"category"| == 8 && |"prod"| == 4;
  }

  lemma EcosystemParses(path: Path, p: Path, rest: seq<string>)
    requires rest != [] && rest[0] != "ecosystem" && path.ecosystem.None?
    ensures ParseEcosystem(Progress(path, EcosystemSegments(p) + rest)) == Ok(Progress(path.(ecosystem := p.ecosystem), rest))
  {
    var all := EcosystemSegments(p) + rest;
    if p.ecosystem.Some? { assert all[2..] == rest; } else { assert all == rest; }
  }

  lemma DepthParses(path: Path, p: Path, rest: seq<string>)
    requires IsParsed(p) && rest != [] && rest[0] != "depth" && path.depthRange.None?
    ensures ParseDepth(Progress(path, DepthSegments(p) + rest)) == Ok(Progress(path.(depthRange := p.depthRange), rest))
  {
    hide ParseDepthRange, DepthRangeToString;
    var all := DepthSegments(p) + rest;
    if p.depthRange.Some? {
      DepthRangeRoundTrip(p.depthRange.value);
      assert all[2..] == rest;
    } else {
      assert all == rest;
    }
  }

  lemma EnvParses(path: Path, p: Path, rest: seq<string>)
    requires rest != [] && rest[0] != "env" && path.env.None?
    ensures ParseEnv(Progress(path, EnvSegments(p) + rest)) == Ok(Progress(path.(env := p.env), rest))
  {
    Keywords();
    var all := EnvSegments(p) + rest;
    if p.env.Some? { assert all[2..] == rest; } else { assert all == rest; }
  }

  lemma TargetParses(path: Path, p: Path)
    ensures ParseTarget(Progress(path, TargetSegments(p))) == Ok(Progress(path.(target := p.target), []))
  {
    Keywords();
    assert TargetSegments(p)[2..] == [];
  }

  lemma FirstKeywords(p: Path)
    requires IsParsed(p)
    ensures TargetSegments(p)[0] != "env"
    ensures (EnvSegments(p) + TargetSegments(p))[0] != "depth"
    ensures (DepthSegments(p) + (EnvSegments(p) + TargetSegments(p)))[0] != "ecosystem"
  {
    Keywords();
  }

  lemma SegmentsParse(source: Option<string>, p: Path)
    requires IsParsed(p)
    ensures ParseSegments(NOTHING.(sourcePath := source), OptionalSegments(p) + TargetSegments(p)) == Ok(p.(sourcePath := source))
  {
    hide ParseEcosystem, ParseDepth, ParseEnv, ParseTarget, EcosystemSegments, DepthSegments, EnvSegments;
    FirstKeywords(p);
    var target := TargetSegments(p);
    var afterDepth := EnvSegments(p) + target;
    var afterEco := DepthSegments(p) + afterDepth;
    assert OptionalSegments(p) + target == EcosystemSegments(p) + afterEco;
    var start := NOTHING.(sourcePath := source);
    EcosystemParses(start, p, afterEco);
    DepthParses(start.(ecosystem := p.ecosystem), p, afterDepth);
    EnvParses(start.(ecosystem := p.ecosystem, depthRange := p.depthRange), p, target);
    TargetParses(start.(ecosystem := p.ecosystem, depthRange := p.depthRange, env := p.env), p);
  }

  lemma SegmentsSlashFree(p: Path)
    requires IsParsed(p)
    ensures forall x :: x in OptionalSegments(p) + TargetSegments(p) ==> '/' !in x
  {
    if p.depthRange.Some? { DepthRangeRoundTrip(p.depthRange.value); }
  }

  lemma {:induction false} QuotedBodyFacts(s: string, isPrint: char -> bool)
    requires '"' !in s
    ensures '"' !in QuotedBody(s, isPrint)
    ensures |QuotedBody(s, isPrint)| >= |s|
    ensures QuotedBody(s, isPrint) == s <==> forall c :: c in s ==> !IsEscaped(c, isPrint)
    ensures |QuotedBody(s, isPrint)| == |s| <==> forall c :: c in s ==> !IsEscaped(c, isPrint)
  {
    if s != "" {
      QuotedBodyFacts(s[1..], isPrint);
      assert s == [s[0]] + s[1..];
      assert s[0] in s;
      assert forall c :: c in s <==> c == s[0] || c in s[1..];
    }
  }

  lemma SourceParses(body: string, tail: string)
    requires body != "" && '"' !in body
    ensures ParseSeverityPath("source/" + ("\"" + body + "\"") + ['/'] + tail) ==
      ParseSegments(NOTHING.(sourcePath := Some(body)), Split(tail, '/'))
  {
    hide ParseSegments, Split;
    var remaining := "\"" + body + "\"" + "/" + tail;
    var text := "source/" + ("\"" + body + "\"") + ['/'] + tail;
    assert text == "source/" + remaining;
    assert text[7..] == remaining;
    assert remaining[1..][..|body|] == body && remaining[1..][|body|] == '"';
    IndexOfIs(remaining[1..], '"', |body|);
    assert remaining[1..|body| + 1] == body;
    assert remaining[|body| + 2..] == "/" + tail;
    assert remaining[|body| + 2..][1..] == tail;
  }

  /** Reading back a printed path gives the same path, except that the source pattern comes back as it was printed. */
  lemma PrintedParses(p: Path, isPrint: char -> bool)
    requires IsParsed(p)
    ensures ParseSeverityPath(SeverityPathToString(p, isPrint)) ==
      Ok(p.(sourcePath := if p.sourcePath.Some? then Some(QuotedBody(p.sourcePath.value, isPrint)) else None))
  {
    hide DepthRangeToString, ParseSegments, Split, Join, OptionalSegments;
    var segments := OptionalSegments(p) + TargetSegments(p);
    SegmentsSlashFree(p);
    SplitJoin(segments, '/');
    if p.sourcePath.None? {
      SegmentsParse(None, p);
      assert [] + OptionalSegments(p) + TargetSegments(p) == segments;
      NoSourcePrefix(p);
    } else {
      var body := QuotedBody(p.sourcePath.value, isPrint);
      QuotedBodyFacts(p.sourcePath.value, isPrint);
      var first := "source/" + Quote(p.sourcePath.value, isPrint);
      assert [first] + OptionalSegments(p) + TargetSegments(p) == [first] + segments;
      JoinCons(first, segments, '/');
      SourceParses(body, Join(segments, '/'));
      SegmentsParse(Some(body), p);
    }
  }

  lemma NoSourcePrefix(p: Path)
    requires IsParsed(p)
    ensures !HasPrefix(Join(OptionalSegments(p) + TargetSegments(p), '/'), "source/")
  {
    var segments := OptionalSegments(p) + TargetSegments(p);
    var text := Join(segments, '/');
    assert segments[0] in ["ecosystem", "depth", "env", "category", "check"];
    assert text[..|segments[0]|] == segments[0];
    assert segments[0] == "env" ==> text[0] == 'e';
    assert "source/"[0] == 's';
  }

  /** The parser produces only paths of the described shape. */
  lemma ParserShape(text: string)
    ensures ParseSeverityPath(text).Ok? ==> IsParsed(ParseSeverityPath(text).value)
  {
    hide ParseDepthRange, Split;
    if HasPrefix(text, "source/") && HasPrefix(text[7..], "\"") {
      var remaining := text[7..];
      var end := IndexOf(remaining[1..], '"');
      if 0 < end < |remaining[1..]| {
        assert remaining[1..end + 1] == remaining[1..][..end];
        if HasPrefix(remaining[end + 2..], "/") {
          SegmentsShape(NOTHING.(sourcePath := Some(remaining[1..end + 1])), remaining[end + 2..][1..]);
        }
      }
    } else if !HasPrefix(text, "source/") {
      SegmentsShape(NOTHING, text);
    }
  }

  /** A parsing step keeps the shape of the path, and what it leaves are segments it was given. */
  ghost predicate KeepsShape(segments: seq<string>, r: Result<Progress, PathError>) {
    r.Ok? ==> IsParsed(r.value.path) && forall x :: x in r.value.rest ==> x in segments
  }

  lemma StepsKeepShape(p: Progress)
    requires IsParsed(p.path) && forall x :: x in p.rest ==> '/' !in x
    ensures KeepsShape(p.rest, ParseEcosystem(p)) && KeepsShape(p.rest, ParseDepth(p))
    ensures KeepsShape(p.rest, ParseEnv(p)) && KeepsShape(p.rest, ParseTarget(p))
  {
    hide ParseDepthRange;
    if |p.rest| > 1 {
      DepthRangeParsed(p.rest[1]);
      assert p.rest[1] in p.rest;
    }
  }

  lemma SegmentsShape(path: Path, text: string)
    requires IsParsed(path)
    ensures var r := ParseSegments(path, Split(text, '/')); r.Ok? ==> IsParsed(r.value)
  {
    hide ParseEcosystem, ParseDepth, ParseEnv, ParseTarget, Split, IsParsed;
    var segments := Split(text, '/');
    SplitParts(text, '/');
    var p0 := Progress(path, segments);
    StepsKeepShape(p0);
    var p1 := ParseEcosystem(p0);
    if p1.Ok? {
      StepsKeepShape(p1.value);
      var p2 := ParseDepth(p1.value);
      if p2.Ok? {
        StepsKeepShape(p2.value);
        var p3 := ParseEnv(p2.value);
        if p3.Ok? {
          StepsKeepShape(p3.value);
        }
      }
    }
  }

  predicate NeedsNoEscape(p: Path, isPrint: char -> bool) {
    p.sourcePath.Some? ==> forall c :: c in p.sourcePath.value ==> !IsEscaped(c, isPrint)
  }

  /** Printing a path the parser accepts and parsing the result is the identity exactly when `%q` escapes nothing. */
  lemma RoundTripIff(text: string, isPrint: char -> bool)
    requires ParseSeverityPath(text).Ok?
    ensures var p := ParseSeverityPath(text).value;
      && IsParsed(p)
      && (ParseSeverityPath(SeverityPathToString(p, isPrint)) == Ok(p) <==> NeedsNoEscape(p, isPrint))
  {
    ParserShape(text);
    var p := ParseSeverityPath(text).value;
    PrintedParses(p, isPrint);
    if p.sourcePath.Some? {
      QuotedBodyFacts(p.sourcePath.value, isPrint);
    }
  }

  // ---- Quoting loses nothing

  function HexBound(digits: nat): nat {
    if digits == 0 then 1 else 16 * HexBound(digits - 1)
  }

  lemma {:induction false} HexInjective(m: nat, n: nat, digits: nat)
    requires m < HexBound(digits) && n < HexBound(digits) && Hex(m, digits) == Hex(n, digits)
    ensures m == n
  {
    if digits > 0 {
      var a, b := Hex(m / 16, digits - 1), Hex(n / 16, digits - 1);
      assert Hex(m, digits)[..digits - 1] == a && Hex(n, digits)[..digits - 1] == b;
      assert Hex(m, digits)[digits - 1] == HexDigit(m % 16) && Hex(n, digits)[digits - 1] == HexDigit(n % 16);
      HexInjective(m / 16, n / 16, digits - 1);
      HexDigitInjective(m % 16, n % 16);
    }
  }

  lemma HexDigitInjective(m: nat, n: nat)
    requires m < 16 && n < 16 && HexDigit(m) == HexDigit(n)
    ensures m == n
  {
    assert forall k :: 0 <= k < 16 ==> "0123456789abcdef"[k] == if k < 10 then '0' + k as char else 'a' + (k - 10) as char;
  }

  function HexDigits(letter: char): nat {
    if letter == 'x' then 2 else if letter == 'u' then 4 else if letter == 'U' then 8 else 0
  }

  /** The letter after the backslash says how many hexadecimal digits follow. */
  lemma EscapeShape(c: char)
    ensures var e, n := EscapedChar(c), HexDigits(EscapedChar(c)[1]);
      && e[0] == '\\' && |e| == 2 + n
      && (n > 0 ==> c as nat < HexBound(n) && e[2..] == Hex(c as nat, n))
  {
    assert HexBound(2) == 0x100 && HexBound(4) == 0x1_0000 && HexBound(8) == 0x1_0000_0000 by {
      assert HexBound(3) == 16 * HexBound(2) && HexBound(5) == 16 * HexBound(4) && HexBound(7) == 16 * HexBound(6);
    }
  }

  lemma EscapeInjective(c: char, d: char, x: string, y: string)
    requires EscapedChar(c) + x == EscapedChar(d) + y
    ensures c == d
  {
    var e, f := EscapedChar(c), EscapedChar(d);
    EscapeShape(c);
    EscapeShape(d);
    assert (e + x)[1] == e[1] && (f + y)[1] == f[1];
    var n := HexDigits(e[1]);
    assert (e + x)[2..2 + n] == e[2..] && (f + y)[2..2 + n] == f[2..];
    hide HexDigits, Hex, HexBound;
    if n > 0 { HexInjective(c as nat, d as nat, n); } else { ShortEscape(c); ShortEscape(d); }
  }

  /** Without digits, the letter alone tells the character. */
  function Unescaped(letter: char): char {
    match letter
    case 'a' => '\U{0007}'
    case 'b' => '\U{0008}'
    case 'f' => '\U{000C}'
    case 'n' => '\n'
    case 'r' => '\r'
    case 't' => '\t'
    case 'v' => '\U{000B}'
    case other => other
  }

  lemma ShortEscape(c: char)
    requires HexDigits(EscapedChar(c)[1]) == 0
    ensures c == Unescaped(EscapedChar(c)[1])
  {}

  /** Different source patterns are never printed alike, whatever has to be escaped in them. */
  lemma {:induction false} QuoteInjective(s: string, t: string, isPrint: char -> bool)
    requires QuotedBody(s, isPrint) == QuotedBody(t, isPrint)
    ensures s == t
  {
    hide EscapedChar;
    if s != "" && t != "" {
      var x, y := QuotedBody(s[1..], isPrint), QuotedBody(t[1..], isPrint);
      EscapeShape(s[0]);
      EscapeShape(t[0]);
      if IsEscaped(s[0], isPrint) && IsEscaped(t[0], isPrint) {
        EscapeInjective(s[0], t[0], x, y);
      } else {
        assert QuotedBody(s, isPrint)[0] == QuotedBody(t, isPrint)[0];
      }
      assert s[0] == t[0];
      var e := if IsEscaped(s[0], isPrint) then EscapedChar(s[0]) else [s[0]];
      assert (e + x)[|e|..] == x && (e + y)[|e|..] == y;
      QuoteInjective(s[1..], t[1..], isPrint);
      assert s == [s[0]] + s[1..] && t == [t[0]] + t[1..];
    }
  }

  // ---- Specificity

  function ComputeSpecificity(p: Path): nat {
    (if p.sourcePath.Some? then 2 else 0) + (if p.ecosystem.Some? then 1 else 0) + (if p.depthRange.Some? then 1 else 0)
    + (if p.env.Some? then 1 else 0) + (if p.target.isCategory then 0 else 1)
  }

  function StarCount(s: string): nat {
    if s == "" then 0 else (if s[0] == '*' then 1 else 0) + StarCount(s[1..])
  }

  function CountWildcards(p: Path): nat {
    (if p.sourcePath.Some? then StarCount(p.sourcePath.value) else 0) + StarCount(p.target.name)
  }
}
