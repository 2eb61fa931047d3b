/** The text of a SARIF result, and taking it apart again. */
module Message {
  import opened Wrappers
  import opened Text

  const EVIDENCE_MARK := "\n\nEvidence:"
  const NOTE_MARK := "\n\nNote: "

  datatype Parts = Parts(rationale: string, evidence: seq<string>, note: string)

  // ---- The printer

  function EvidenceLines(evidence: seq<string>): string {
    if evidence == [] then "" else "\n- " + evidence[0] + EvidenceLines(evidence[1..])
  }

  function EvidenceBlock(evidence: seq<string>): string {
    if evidence == [] then "" else EVIDENCE_MARK + EvidenceLines(evidence)
  }

  function NoteBlock(note: string): string {
    if note == "" then "" else NOTE_MARK + note
  }

  function MessageText(p: Parts): string {
    p.rationale + EvidenceBlock(p.evidence) + NoteBlock(p.note)
  }

  method BuildMessage(p: Parts) returns (text: string)
    ensures text == MessageText(p)
  {
    text := p.rationale;
    if |p.evidence| > 0 {
      text := text + EVIDENCE_MARK;
      for i := 0 to |p.evidence|
        invariant text + EvidenceLines(p.evidence[i..]) == p.rationale + EvidenceBlock(p.evidence)
      {
        assert p.evidence[i..][1..] == p.evidence[i + 1..];
        assert text + "\n- " + p.evidence[i] + EvidenceLines(p.evidence[i + 1..]) == text + EvidenceLines(p.evidence[i..]);
        text := text + "\n- " + p.evidence[i];
      }
    }
    if p.note != "" {
      text := text + NOTE_MARK + p.note;
    }
  }

  // ---- The parser

  /** White space as `strings.TrimSpace` sees it. */
  predicate IsSpace(c: char) {
    || c == ' ' || '\t' <= c <= '\r' || c == '\U{85}' || c == '\U{A0}' || c == '\U{1680}' || '\U{2000}' <= c <= '\U{200A}'
    || c == '\U{2028}' || c == '\U{2029}' || c == '\U{202F}' || c == '\U{205F}' || c == '\U{3000}'
  }

  predicate Trimmed(s: string) {
    s == "" || (!IsSpace(s[0]) && !IsSpace(s[|s| - 1]))
  }

  function TrimSpace(s: string): (t: string)
    ensures Trimmed(t) && |t| <= |s|
    ensures Trimmed(s) ==> t == s
    ensures forall c :: c in t ==> c in s
    ensures t == "" ==> forall c :: c in s ==> IsSpace(c)
  {
    if s == "" then s
    else if IsSpace(s[0]) then TrimSpace(s[1..])
    else if IsSpace(s[|s| - 1]) then TrimSpace(s[..|s| - 1])
    else s
  }

  predicate OccursAt(s: string, mark: string, i: nat) {
    i + |mark| <= |s| && s[i..i + |mark|] == mark
  }

  ghost predicate Occurs(s: string, mark: string) {
    exists i: nat :: OccursAt(s, mark, i)
  }

  /** The last place at or before `i` where the mark occurs. */
  function LastIndexUpTo(s: string, mark: string, i: nat): (r: Option<nat>)
    ensures r.Some? ==> r.value <= i && OccursAt(s, mark, r.value)
    ensures forall j: nat :: j <= i && (r.None? || r.value < j) ==> !OccursAt(s, mark, j)
  {
    if OccursAt(s, mark, i) then Some(i)
    else if i == 0 then None
    else LastIndexUpTo(s, mark, i - 1)
  }

  function LastIndex(s: string, mark: string): (r: Option<nat>)
    ensures r.Some? ==> OccursAt(s, mark, r.value)
    ensures forall j: nat :: r.None? || r.value < j ==> !OccursAt(s, mark, j)
  {
    LastIndexUpTo(s, mark, |s|)
  }

  /** What one line of the evidence block stands for; "" for a line that stands for nothing. */
  function ItemOf(line: string): string {
    var trimmed := TrimSpace(line);
    TrimSpace(if HasPrefix(trimmed, "- ") then trimmed[2..] else trimmed)
  }

  ghost function ItemsOf(lines: seq<string>): seq<string> {
    if lines == [] then [] else
      var items, item := ItemsOf(lines[..|lines| - 1]), ItemOf(lines[|lines| - 1]);
      if item == "" then items else items + [item]
  }

  ghost function WithoutNote(text: string): (string, string) {
    match LastIndex(text, NOTE_MARK)
    case Some(i) => (text[..i], TrimSpace(text[i + |NOTE_MARK|..]))
    case None => (text, "")
  }

  ghost function PartsOf(text: string): Parts {
    var (rest, note) := WithoutNote(text);
    match LastIndex(rest, EVIDENCE_MARK)
    case Some(i) => Parts(TrimSpace(rest[..i]), ItemsOf(Split(rest[i + |EVIDENCE_MARK|..], '\n')), note)
    case None => Parts(TrimSpace(rest), [], note)
  }

  method SplitMessageParts(text: string) returns (p: Parts)
    ensures p == PartsOf(text)
  {
    var rest, evidence, note := text, [], "";
    var at := LastIndex(rest, NOTE_MARK);
    if at.Some? {
      note := TrimSpace(rest[at.value + |NOTE_MARK|..]);
      rest := rest[..at.value];
    }
    at := LastIndex(rest, EVIDENCE_MARK);
    if at.Some? {
      var lines := Split(rest[at.value + |EVIDENCE_MARK|..], '\n');
      rest := rest[..at.value];
      for i := 0 to |lines|
        invariant evidence == ItemsOf(lines[..i])
      {
        assert lines[..i + 1][..i] == lines[..i];
        var item := ItemOf(lines[i]);
        if item != "" {
          evidence := evidence + [item];
        }
      }
      assert lines[..|lines|] == lines;
    }
    p := Parts(TrimSpace(rest), evidence, note);
  }

  // ---- When the parser undoes the printer

  predicate CleanItem(x: string) {
    Trimmed(x) && x != "" && '\n' !in x
  }

  predicate Tidy(p: Parts) {
    Trimmed(p.rationale) && Trimmed(p.note) && forall x :: x in p.evidence ==> CleanItem(x)
  }

  /** A mark in a part is harmless where the part's own mark, printed after it, is found first. */
  ghost predicate Unambiguous(p: Parts) {
    && !Occurs(p.note, NOTE_MARK)
    && (p.note == "" ==> !Occurs(p.rationale, NOTE_MARK))
    && (p.evidence == [] ==> !Occurs(p.rationale, EVIDENCE_MARK))
  }

  predicate BlankLineAt(s: string, i: nat) {
    i + 1 < |s| && s[i] == '\n' && s[i + 1] == '\n'
  }

  lemma MarksOpenWithBlankLine(s: string, i: nat)
    ensures OccursAt(s, NOTE_MARK, i) ==> BlankLineAt(s, i) && i + 8 <= |s| && s[i + 2] == 'N' && s[i + 7] == ' '
    ensures OccursAt(s, EVIDENCE_MARK, i) ==> BlankLineAt(s, i) && i + 11 <= |s| && s[i + 2] == 'E'
  {
    if OccursAt(s, NOTE_MARK, i) {
      var w := s[i..i + 8];
      assert s[i] == w[0] && s[i + 1] == w[1] && s[i + 2] == w[2] && s[i + 7] == w[7];
    }
    if OccursAt(s, EVIDENCE_MARK, i) {
      var w := s[i..i + 11];
      assert s[i] == w[0] && s[i + 1] == w[1] && s[i + 2] == w[2];
    }
  }

  /** An occurrence of the note mark holds no newline after its first two characters. */
  lemma NoteMarkNewlines(s: string, i: nat, k: nat)
    requires OccursAt(s, NOTE_MARK, i) && i + 1 < k < i + 8
    ensures s[k] != '\n'
  {
    assert s[k] == s[i..i + 8][k - i];
  }

  lemma {:induction false} LinesHaveNoBlank(evidence: seq<string>, i: nat)
    requires forall x :: x in evidence ==> CleanItem(x)
    ensures !BlankLineAt(EvidenceLines(evidence), i)
  {
    if evidence != [] {
      var x, rest := evidence[0], EvidenceLines(evidence[1..]);
      var s := EvidenceLines(evidence);
      assert CleanItem(x) && s == "\n- " + x + rest;
      assert s[3..3 + |x|] == x && s[3 + |x|..] == rest;
      if i >= 3 + |x| {
        LinesHaveNoBlank(evidence[1..], i - 3 - |x|);
      } else if i >= 3 {
        assert s[i] == x[i - 3];
      }
    }
  }

  lemma BlockHasOneBlank(evidence: seq<string>, i: nat)
    requires forall x :: x in evidence ==> CleanItem(x)
    requires BlankLineAt(EvidenceBlock(evidence), i)
    ensures i == 0
  {
    var s, lines := EvidenceBlock(evidence), EvidenceLines(evidence);
    assert s == EVIDENCE_MARK + lines;
    assert forall k :: 0 <= k < |lines| ==> s[11 + k] == lines[k];
    if i >= 11 { LinesHaveNoBlank(evidence, i - 11); }
  }

  /** In the text before the note, a blank line lies in the rationale or opens the evidence. */
  lemma BlankBeforeNote(p: Parts, i: nat)
    requires Tidy(p) && BlankLineAt(p.rationale + EvidenceBlock(p.evidence), i)
    ensures i <= |p.rationale|
    ensures i == |p.rationale| ==> p.evidence != []
  {
    hide EvidenceBlock, CleanItem, Trimmed;
    var r, e := p.rationale, EvidenceBlock(p.evidence);
    if i >= |r| {
      assert (r + e)[i] == e[i - |r|] && (r + e)[i + 1] == e[i + 1 - |r|];
      BlockHasOneBlank(p.evidence, i - |r|);
      assert p.evidence != [] by { BlockOpens(p.evidence); }
    }
  }

  lemma BlockOpens(evidence: seq<string>)
    ensures var e := EvidenceBlock(evidence);
      if evidence == [] then e == "" else OccursAt(e, EVIDENCE_MARK, 0) && e[0] == '\n' && e[2] == 'E'
  {
    if evidence != [] {
      var e := EvidenceBlock(evidence);
      assert e[..11] == EVIDENCE_MARK;
      MarksOpenWithBlankLine(e, 0);
    }
  }

  lemma NoteMarkBeforeNote(p: Parts, i: nat)
    requires Tidy(p) && OccursAt(p.rationale + EvidenceBlock(p.evidence), NOTE_MARK, i)
    ensures OccursAt(p.rationale, NOTE_MARK, i)
  {
    hide EvidenceBlock, CleanItem;
    var r, e := p.rationale, EvidenceBlock(p.evidence);
    MarksOpenWithBlankLine(r + e, i);
    BlankBeforeNote(p, i);
    BlockOpens(p.evidence);
    if i + 8 <= |r| {
      assert r[i..i + 8] == (r + e)[i..i + 8];
    } else if i + 1 < |r| {
      NoteMarkNewlines(r + e, i, |r|);
    }
  }

  lemma EvidenceMarkBeforeNote(p: Parts)
    requires Tidy(p) && p.evidence != []
    ensures LastIndex(p.rationale + EvidenceBlock(p.evidence), EVIDENCE_MARK) == Some(|p.rationale|)
  {
    hide EvidenceBlock, CleanItem, Trimmed, OccursAt;
    var s := p.rationale + EvidenceBlock(p.evidence);
    EvidenceMarkIn(p);
    var i := LastIndex(s, EVIDENCE_MARK).value;
    MarksOpenWithBlankLine(s, i);
    BlankBeforeNote(p, i);
  }

  lemma EvidenceMarkIn(p: Parts)
    requires p.evidence != []
    ensures OccursAt(p.rationale + EvidenceBlock(p.evidence), EVIDENCE_MARK, |p.rationale|)
  {
    hide EvidenceBlock;
    var r, e := p.rationale, EvidenceBlock(p.evidence);
    BlockOpens(p.evidence);
    assert (r + e)[|r|..|r| + 11] == e[..11];
  }

  /** After its own mark, the note is the only place where the mark can occur again. */
  lemma MarkInNote(before: string, note: string, i: nat)
    requires i > |before| && OccursAt(before + NOTE_MARK + note, NOTE_MARK, i)
    ensures i >= |before| + 8 && OccursAt(note, NOTE_MARK, i - |before| - 8)
  {
    var text, n := before + NOTE_MARK + note, |before|;
    MarksOpenWithBlankLine(text, i);
    assert text[n..n + 8] == NOTE_MARK;
    if i < n + 8 {
      MarksOpenWithBlankLine(text, n);
      NoteMarkNewlines(text, n, i + 1);
    }
    assert note[i - n - 8..i - n] == text[i..i + 8];
  }

  lemma NoteMarkIn(before: string, note: string, j: nat)
    ensures OccursAt(before + NOTE_MARK + note, NOTE_MARK, |before|)
    ensures OccursAt(note, NOTE_MARK, j) ==> OccursAt(before + NOTE_MARK + note, NOTE_MARK, |before| + 8 + j)
  {
    var text, n := before + NOTE_MARK + note, |before|;
    assert text[n..n + 8] == NOTE_MARK;
    if OccursAt(note, NOTE_MARK, j) { assert text[n + 8 + j..n + 16 + j] == note[j..j + 8]; }
  }

  lemma NoteFound(before: string, note: string)
    requires Trimmed(note) && note != ""
    ensures !Occurs(note, NOTE_MARK) ==> WithoutNote(before + NOTE_MARK + note) == (before, note)
    ensures Occurs(note, NOTE_MARK) ==> |WithoutNote(before + NOTE_MARK + note).1| < |note|
  {
    hide OccursAt, IsSpace;
    var text, n := before + NOTE_MARK + note, |before|;
    NoteMarkIn(before, note, 0);
    var i := LastIndex(text, NOTE_MARK).value;
    assert i >= n && i + 8 <= |text| by { MarksOpenWithBlankLine(text, i); }
    if i > n {
      MarkInNote(before, note, i);
    } else {
      assert text[n + 8..] == note && text[..n] == before;
      if j: nat :| OccursAt(note, NOTE_MARK, j) { NoteMarkIn(before, note, j); }
    }
  }

  // ---- Evidence lines

  ghost function Dashed(evidence: seq<string>): (lines: seq<string>)
    ensures |lines| == |evidence| && forall i :: 0 <= i < |lines| ==> lines[i] == "- " + evidence[i]
  {
    seq(|evidence|, i requires 0 <= i < |evidence| => "- " + evidence[i])
  }

  lemma {:induction false} LinesJoined(evidence: seq<string>)
    requires evidence != []
    ensures EvidenceLines(evidence) == "\n" + Join(Dashed(evidence), '\n')
  {
    var first, rest := "- " + evidence[0], evidence[1..];
    if rest == [] {
      assert EvidenceLines(rest) == "";
      assert Dashed(evidence) == [first];
    } else {
      LinesJoined(rest);
      assert Dashed(evidence) == [first] + Dashed(rest);
      JoinCons(first, Dashed(rest), '\n');
    }
  }

  lemma BlankIsNoItem()
    ensures ItemOf("") == ""
  {}

  lemma ItemRead(x: string)
    requires CleanItem(x)
    ensures ItemOf("- " + x) == x && x != ""
  {
    var line := "- " + x;
    assert Trimmed(line) && line[2..] == x;
  }

  lemma {:induction false} ItemsAfterBlank(evidence: seq<string>)
    requires forall x :: x in evidence ==> CleanItem(x)
    ensures ItemsOf([""] + Dashed(evidence)) == evidence
  {
    hide CleanItem, ItemOf;
    var lines, n := [""] + Dashed(evidence), |evidence|;
    if n == 0 {
      assert lines == [""] && lines[..0] == [];
      BlankIsNoItem();
    } else {
      var init, x := evidence[..n - 1], evidence[n - 1];
      ItemsAfterBlank(init);
      assert lines[..n] == [""] + Dashed(init);
      assert x in evidence;
      ItemRead(x);
      assert evidence == init + [x];
    }
  }

  lemma EvidenceRead(evidence: seq<string>)
    requires evidence != [] && forall x :: x in evidence ==> CleanItem(x)
    ensures ItemsOf(Split(EvidenceLines(evidence), '\n')) == evidence
  {
    var lines := [""] + Dashed(evidence);
    LinesJoined(evidence);
    JoinCons("", Dashed(evidence), '\n');
    assert Join(lines, '\n') == "" + ['\n'] + Join(Dashed(evidence), '\n');
    forall l | l in lines ensures '\n' !in l {
      var i :| 0 <= i < |lines| && lines[i] == l;
      if i > 0 { assert evidence[i - 1] in evidence; }
    }
    SplitJoin(lines, '\n');
    ItemsAfterBlank(evidence);
  }

  lemma {:induction false} ItemsAreClean(lines: seq<string>)
    requires forall l :: l in lines ==> '\n' !in l
    ensures forall x :: x in ItemsOf(lines) ==> CleanItem(x)
  {
    if lines != [] {
      var init, line := lines[..|lines| - 1], lines[|lines| - 1];
      ItemsAreClean(init);
      assert line in lines;
      var trimmed := TrimSpace(line);
      var body := if HasPrefix(trimmed, "- ") then trimmed[2..] else trimmed;
      assert '\n' !in trimmed && '\n' !in body;
    }
  }

  /** Whatever the text, the parts read from it are tidy. */
  lemma PartsAreTidy(text: string)
    ensures Tidy(PartsOf(text))
  {
    var (rest, note) := WithoutNote(text);
    match LastIndex(rest, EVIDENCE_MARK) {
      case Some(i) =>
        var lines := Split(rest[i + |EVIDENCE_MARK|..], '\n');
        SplitParts(rest[i + |EVIDENCE_MARK|..], '\n');
        ItemsAreClean(lines);
      case None =>
    }
  }

  // ---- The round trip

  lemma RestRead(p: Parts, text: string)
    requires Tidy(p) && WithoutNote(text) == (p.rationale + EvidenceBlock(p.evidence), p.note)
    ensures PartsOf(text) == p <==> (p.evidence == [] ==> !Occurs(p.rationale, EVIDENCE_MARK))
  {
    hide ItemsOf, WithoutNote;
    var r, e := p.rationale, EvidenceBlock(p.evidence);
    if p.evidence == [] {
      assert r + e == r;
    } else {
      EvidenceMarkBeforeNote(p);
      EvidenceRead(p.evidence);
      assert (r + e)[..|r|] == r && (r + e)[|r| + 11..] == EvidenceLines(p.evidence);
    }
  }

  lemma {:induction false} LinesEnd(evidence: seq<string>)
    requires evidence != [] && forall x :: x in evidence ==> CleanItem(x)
    ensures var s := EvidenceLines(evidence); s != "" && !IsSpace(s[|s| - 1])
  {
    if |evidence| == 1 {
      assert CleanItem(evidence[0]);
      assert EvidenceLines(evidence) == "\n- " + evidence[0] + EvidenceLines([]);
    } else {
      LinesEnd(evidence[1..]);
    }
  }

  /** A text that ends in a visible character cannot end in the note mark and white space. */
  lemma NoteNotEmpty(text: string)
    requires text != "" && !IsSpace(text[|text| - 1]) && Occurs(text, NOTE_MARK)
    ensures WithoutNote(text).1 != ""
  {
    var i := LastIndex(text, NOTE_MARK).value;
    MarksOpenWithBlankLine(text, i);
    var tail := text[i + 8..];
    if tail != "" { assert tail[|tail| - 1] in tail; }
  }

  lemma NoNote(p: Parts)
    requires Tidy(p) && p.note == ""
    ensures Occurs(p.rationale, NOTE_MARK) ==> PartsOf(MessageText(p)).note != ""
    ensures !Occurs(p.rationale, NOTE_MARK) ==> WithoutNote(MessageText(p)) == (p.rationale + EvidenceBlock(p.evidence), "")
  {
    var r, e := p.rationale, EvidenceBlock(p.evidence);
    assert MessageText(p) == r + e;
    if i: nat :| OccursAt(r, NOTE_MARK, i) {
      assert (r + e)[i..i + 8] == r[i..i + 8];
      assert OccursAt(r + e, NOTE_MARK, i);
      if p.evidence != [] { LinesEnd(p.evidence); }
      NoteNotEmpty(r + e);
    } else if j: nat :| OccursAt(r + e, NOTE_MARK, j) {
      NoteMarkBeforeNote(p, j);
    }
  }

  /** Splitting undoes building for exactly the tidy, unambiguous parts. */
  lemma RoundTripIff(p: Parts)
    ensures PartsOf(MessageText(p)) == p <==> Tidy(p) && Unambiguous(p)
  {
    hide OccursAt, EvidenceBlock, WithoutNote, IsSpace, ItemsOf;
    var text := MessageText(p);
    PartsAreTidy(text);
    if Tidy(p) {
      if p.note == "" {
        NoNote(p);
        if !Occurs(p.rationale, NOTE_MARK) { RestRead(p, text); }
        EmptyHasNoMark();
      } else {
        var before := p.rationale + EvidenceBlock(p.evidence);
        assert text == before + NOTE_MARK + p.note;
        NoteFound(before, p.note);
        if !Occurs(p.note, NOTE_MARK) { RestRead(p, text); }
      }
    }
  }

  lemma EmptyHasNoMark()
    ensures !Occurs("", NOTE_MARK)
  {}
}
