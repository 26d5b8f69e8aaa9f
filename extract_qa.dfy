/**
 * The flashcard extractor of the vanilla-JS client (`extractQA` in
 * preppal/frontend/assets/app.js): a line scanner over question markers
 * (`Q`, `質問`, `設問`) and answer markers (`A`, `回答`, `解答`), each
 * followed by a half- or full-width colon, optionally narrowed to the
 * `復習用Q&A` section of a summary.
 */
module QAExtract {
  import opened Wrappers
  import opened Text
  import Seqs

  datatype QA = QA(q: string, a: string)

  /** What a trimmed line is, as decided by the two marker patterns (question tested first). */
  datatype LineKind = Question(text: string) | Answer(text: string) | Other

  const ReviewSection := "復習用Q&A"
  /** The headings that end the review section (`見出し|要点|…` in the source's pattern). */
  const SectionHeadings := ["見出し", "要点", "キーワード", "ToDo", "学習用付録", "用語メモ", "重要引用", "未決事項"]
  /** `(?:Q|質問|設問)` under the `i` flag. */
  const QuestionMarkers := ["Q", "q", "質問", "設問"]
  /** `(?:A|回答|解答)` under the `i` flag. */
  const AnswerMarkers := ["A", "a", "回答", "解答"]
  const MissingQuestion := "(質問が抽出できませんでした)"
  const MissingAnswer := "(回答が抽出できませんでした)"

  predicate IsColon(c: char) { c == ':' || c == '：' }

  predicate IsAsciiSpace(c: char) { c == ' ' }

  /**
   * `\s*[:：]\s*(.+)$` applied to what follows a marker, with the capture
   * trimmed.  Lines reaching here are already trimmed, so `(.+)$` takes
   * everything after the leading white space provided it holds no line
   * terminator (which `.` does not match).
   */
  function AfterMarker(rest: string): (r: Option<string>)
    ensures r.Some? ==> r.value != [] && IsTrimmed(r.value, IsJsSpace)
    ensures r.Some? ==> ColonNext(rest)
    ensures r.Some? ==> OneLine(r.value)
  {
    var r1 := TrimStart(rest, IsJsSpace);
    if r1 == [] || !IsColon(r1[0]) then None
    else
      var g := TrimStart(r1[1..], IsJsSpace);
      if g == [] || !OneLine(g) then None
      else
        CaptureTrimmed(g);
        ColonNextTrim(rest);
        Some(TrimEnd(g, IsJsSpace))
  }

  /**
   * The capture starts after the white space, so trimming it only removes
   * trailing white space; it stays non-empty, trimmed and on one line.
   */
  lemma CaptureTrimmed(g: string)
    requires g != [] && !IsJsSpace(g[0]) && OneLine(g)
    ensures var r := TrimEnd(g, IsJsSpace);
      r == JsTrim(g) && r != [] && IsTrimmed(r, IsJsSpace) && OneLine(r)
  {
    var r := TrimEnd(g, IsJsSpace);
    assert r != [] && r[0] == g[0];
    assert TrimStart(g, IsJsSpace) == g;
    forall i | 0 <= i < |r| ensures !IsLineTerminator(r[i]) {
      assert r[i] == g[i];
    }
  }

  /** Text free of line terminators: what `(.+)$` can capture. */
  predicate OneLine(t: string) {
    forall i :: 0 <= i < |t| ==> !IsLineTerminator(t[i])
  }

  /** Optional white space, a colon, optional white space, then the capture. */
  lemma AfterMarkerOf(ws1: string, c: char, ws2: string, t: string)
    requires AllSpace(ws1, IsJsSpace) && IsColon(c) && AllSpace(ws2, IsJsSpace)
    requires t != [] && IsTrimmed(t, IsJsSpace) && OneLine(t)
    ensures AfterMarker(ws1 + [c] + ws2 + t) == Some(t)
  {
    var tail := ws2 + t;
    assert ws1 + [c] + ws2 + t == ws1 + ([c] + tail);
    SkipToColon(ws1, c, tail);
    SkipToText(ws2, t);
    AfterMarkerSteps(ws1 + ([c] + tail), c, tail, t);
  }

  /**
   * The converse of `AfterMarkerOf`: a capture is always the text after
   * white space, a colon and white space, with only white space after it.
   * With `OneLine` on the capture, nothing after the colon, or a capture
   * across a line terminator, gives `None`.
   */
  lemma AfterMarkerOnly(rest: string)
    ensures AfterMarker(rest).Some? ==>
      exists ws1, c, ws2, ws3 :: AllSpace(ws1, IsJsSpace) && IsColon(c) && AllSpace(ws2, IsJsSpace) &&
        AllSpace(ws3, IsJsSpace) && rest == ws1 + [c] + ws2 + AfterMarker(rest).value + ws3
  {
    if AfterMarker(rest).Some? {
      AfterMarkerSome(rest);
      var r1 := TrimStart(rest, IsJsSpace);
      var g := TrimStart(r1[1..], IsJsSpace);
      var ws1 := LeadSplit(rest, IsJsSpace);
      var ws2 := LeadSplit(r1[1..], IsJsSpace);
      var ws3 := TailSplit(g, IsJsSpace);
      MarkerParts(rest, ws1, r1, ws2, g, TrimEnd(g, IsJsSpace), ws3);
    }
  }

  /** The two skips and the final trim that `AfterMarker` performs when it captures. */
  lemma AfterMarkerSome(rest: string)
    requires AfterMarker(rest).Some?
    ensures var r1 := TrimStart(rest, IsJsSpace);
      r1 != [] && IsColon(r1[0]) && AfterMarker(rest).value == TrimEnd(TrimStart(r1[1..], IsJsSpace), IsJsSpace)
  {
  }

  lemma MarkerParts(rest: string, ws1: string, r1: string, ws2: string, g: string, v: string, ws3: string)
    requires rest == ws1 + r1 && r1 != [] && r1[1..] == ws2 + g && g == v + ws3
    ensures rest == ws1 + [r1[0]] + ws2 + v + ws3
  {
    assert r1 == [r1[0]] + r1[1..];
  }

  /** Leading white space is skipped up to the colon. */
  lemma SkipToColon(ws: string, c: char, tail: string)
    requires AllSpace(ws, IsJsSpace) && IsColon(c)
    ensures TrimStart(ws + ([c] + tail), IsJsSpace) == [c] + tail
  {
    TrimStartSpaces(ws, [c] + tail, IsJsSpace);
    assert !IsJsSpace(c);
  }

  /** White space after the colon is skipped up to the text. */
  lemma SkipToText(ws: string, t: string)
    requires AllSpace(ws, IsJsSpace) && t != [] && !IsJsSpace(t[0])
    ensures TrimStart(ws + t, IsJsSpace) == t
  {
    TrimStartSpaces(ws, t, IsJsSpace);
  }

  /** `AfterMarker` from the two white-space skips it performs. */
  lemma AfterMarkerSteps(rest: string, c: char, tail: string, t: string)
    requires IsColon(c) && TrimStart(rest, IsJsSpace) == [c] + tail
    requires TrimStart(tail, IsJsSpace) == t
    requires t != [] && IsTrimmed(t, IsJsSpace) && OneLine(t)
    ensures AfterMarker(rest) == Some(t)
  {
    assert ([c] + tail)[1..] == tail;
    assert TrimEnd(t, IsJsSpace) == t;
  }

  /** A line whose first character differs from a marker's does not start with it. */
  lemma NotStartsWith(line: string, marker: string)
    requires line != [] && marker != [] && line[0] != marker[0]
    ensures !StartsWith(line, marker)
  {
    if |marker| <= |line| {
      assert line[..|marker|][0] == line[0];
    }
  }

  /** The alternation tries the markers in order; the first one that fits decides. */
  lemma {:induction false} MatchMarkerAt(line: string, markers: seq<string>, j: nat)
    requires j < |markers|
    requires forall i :: 0 <= i < j ==> !StartsWith(line, markers[i])
    requires StartsWith(line, markers[j]) && AfterMarker(line[|markers[j]|..]).Some?
    ensures MatchMarker(line, markers) == AfterMarker(line[|markers[j]|..])
    decreases j
  {
    if j > 0 {
      assert markers[1..][j - 1] == markers[j];
      assert !StartsWith(line, markers[0]);
      MatchMarkerAt(line, markers[1..], j - 1);
    }
  }

  /** When no marker starts the line, the alternation fails. */
  lemma {:induction false} MatchMarkerNone(line: string, markers: seq<string>)
    requires forall i :: 0 <= i < |markers| ==> !StartsWith(line, markers[i])
    ensures MatchMarker(line, markers).None?
    decreases |markers|
  {
    if markers != [] {
      MatchMarkerNone(line, markers[1..]);
    }
  }

  /** The question markers begin with pairwise different characters. */
  lemma QuestionHeads(i: nat, j: nat)
    requires i < j < |QuestionMarkers|
    ensures QuestionMarkers[i] != [] && QuestionMarkers[i][0] != QuestionMarkers[j][0]
  {
  }

  /**
   * No question marker begins like an answer marker, and the answer markers
   * begin with pairwise different characters.
   */
  lemma AnswerHeads(i: nat, j: nat)
    requires i < |QuestionMarkers| && j < |AnswerMarkers|
    ensures QuestionMarkers[i] != [] && QuestionMarkers[i][0] != AnswerMarkers[j][0]
    ensures i < j ==> AnswerMarkers[i] != [] && AnswerMarkers[i][0] != AnswerMarkers[j][0]
  {
  }

  /**
   * A question marker (either case), optional white space, a half- or
   * full-width colon, optional white space and a one-line text make a
   * question line with that text.
   */
  lemma ClassifyQuestion(m: string, ws1: string, c: char, ws2: string, t: string)
    requires m in QuestionMarkers
    requires AllSpace(ws1, IsJsSpace) && IsColon(c) && AllSpace(ws2, IsJsSpace)
    requires t != [] && IsTrimmed(t, IsJsSpace) && OneLine(t)
    ensures Classify(m + ws1 + [c] + ws2 + t) == Question(t)
  {
    var rest := ws1 + [c] + ws2 + t;
    var line := m + rest;
    assert line[..|m|] == m && line[|m|..] == rest;
    assert m + ws1 + [c] + ws2 + t == line;
    var j :| 0 <= j < |QuestionMarkers| && QuestionMarkers[j] == m;
    AfterMarkerOf(ws1, c, ws2, t);
    assert line[0] == m[0];
    forall i | 0 <= i < j ensures !StartsWith(line, QuestionMarkers[i]) {
      QuestionHeads(i, j);
      NotStartsWith(line, QuestionMarkers[i]);
    }
    MatchMarkerAt(line, QuestionMarkers, j);
  }

  /** The same with an answer marker makes an answer line with that text. */
  lemma ClassifyAnswer(m: string, ws1: string, c: char, ws2: string, t: string)
    requires m in AnswerMarkers
    requires AllSpace(ws1, IsJsSpace) && IsColon(c) && AllSpace(ws2, IsJsSpace)
    requires t != [] && IsTrimmed(t, IsJsSpace) && OneLine(t)
    ensures Classify(m + ws1 + [c] + ws2 + t) == Answer(t)
  {
    var rest := ws1 + [c] + ws2 + t;
    var line := m + rest;
    assert line[..|m|] == m && line[|m|..] == rest;
    assert m + ws1 + [c] + ws2 + t == line;
    var j :| 0 <= j < |AnswerMarkers| && AnswerMarkers[j] == m;
    AfterMarkerOf(ws1, c, ws2, t);
    assert line[0] == m[0];
    forall i | 0 <= i < |QuestionMarkers| ensures !StartsWith(line, QuestionMarkers[i]) {
      AnswerHeads(i, j);
      NotStartsWith(line, QuestionMarkers[i]);
    }
    MatchMarkerNone(line, QuestionMarkers);
    forall i | 0 <= i < j ensures !StartsWith(line, AnswerMarkers[i]) {
      AnswerHeads(i, j);
      NotStartsWith(line, AnswerMarkers[i]);
    }
    MatchMarkerAt(line, AnswerMarkers, j);
  }

  /** The alternation `(?:m1|m2|…)` anchored at the start of `line`, followed by `AfterMarker`. */
  function MatchMarker(line: string, markers: seq<string>): (r: Option<string>)
    ensures r.Some? ==> r.value != []
    decreases |markers|
  {
    if markers == [] then None
    else if StartsWith(line, markers[0]) && AfterMarker(line[|markers[0]|..]).Some? then
      AfterMarker(line[|markers[0]|..])
    else MatchMarker(line, markers[1..])
  }

  function Classify(line: string): (k: LineKind)
    ensures k.Question? <==> MatchMarker(line, QuestionMarkers).Some?
    ensures k != Other ==> k.text != []
  {
    match MatchMarker(line, QuestionMarkers)
    case Some(q) => Question(q)
    case None =>
      match MatchMarker(line, AnswerMarkers)
      case Some(a) => Answer(a)
      case None => Other
  }

  /** `\s*[:：]`: a colon after optional white space. */
  predicate ColonNext(v: string) {
    v != [] && (IsColon(v[0]) || (IsJsSpace(v[0]) && ColonNext(v[1..])))
  }

  /** `ColonNext` reads past the white space `TrimStart` removes. */
  lemma {:induction false} ColonNextTrim(v: string)
    ensures ColonNext(v) <==> TrimStart(v, IsJsSpace) != [] && IsColon(TrimStart(v, IsJsSpace)[0])
  {
    if v != [] && IsJsSpace(v[0]) {
      SpaceNotColon(v[0]);
      assert ColonNext(v) == ColonNext(v[1..]);
      ColonNextTrim(v[1..]);
    }
  }

  lemma SpaceNotColon(c: char)
    requires IsJsSpace(c)
    ensures !IsColon(c)
  {
  }

  /** The lookahead `(?= *(見出し|…)\s*[:：])`: spaces, then a heading and its colon. */
  predicate HeadingFollows(t: string) {
    StartsHeading(t, SectionHeadings) || (t != [] && IsAsciiSpace(t[0]) && HeadingFollows(t[1..]))
  }

  /** One of `headings`, then `\s*[:：]`, at the start of `u`. */
  predicate StartsHeading(u: string, headings: seq<string>) {
    exists i :: 0 <= i < |headings| && StartsWith(u, headings[i]) && ColonNext(u[|headings[i]|..])
  }

  /** `tail.search(/\n(?=…)/)` from position `from`, for the lookahead `follows`. */
  /** Position `j` of `tail` is a line break that `follows` accepts. */
  predicate IsBreak(tail: string, j: nat, follows: string -> bool) {
    j < |tail| && tail[j] == '\n' && follows(tail[j + 1..])
  }

  function NextBreak(tail: string, from: nat, follows: string -> bool): (r: Option<nat>)
    requires from <= |tail|
    ensures r.Some? ==> from <= r.value < |tail| && IsBreak(tail, r.value, follows)
    ensures r.Some? ==> forall j :: from <= j < r.value ==> !IsBreak(tail, j, follows)
    ensures r.None? ==> forall j :: from <= j < |tail| ==> !IsBreak(tail, j, follows)
    decreases |tail| - from
  {
    if from == |tail| then None
    else if IsBreak(tail, from, follows) then Some(from)
    else NextBreak(tail, from + 1, follows)
  }

  /**
   * The text the scanner reads: the whole text, or, when it contains
   * `復習用Q&A`, the part from that marker up to the next line that starts
   * a known heading.
   */
  function ReviewTarget(text: string): (r: string)
    ensures IndexOf(text, ReviewSection).None? ==> r == text
    ensures IndexOf(text, ReviewSection).Some? ==>
      var k := IndexOf(text, ReviewSection).value;
      StartsWith(r, ReviewSection) && k + |r| <= |text| && r == text[k..k + |r|]
    ensures IndexOf(text, ReviewSection).Some? ==>
      var k := IndexOf(text, ReviewSection).value;
      var cut := NextBreak(text[k..], 0, HeadingFollows);
      (cut.Some? ==> r == text[k..k + cut.value]) && (cut.None? ==> r == text[k..])
  {
    assert '\n' !in ReviewSection;
    Section(text, ReviewSection, HeadingFollows)
  }

  /** From the first `marker` up to the first line break that `follows` accepts. */
  function Section(text: string, marker: string, follows: string -> bool): (r: string)
    requires '\n' !in marker
    ensures IndexOf(text, marker).None? ==> r == text
    ensures IndexOf(text, marker).Some? ==>
      var k := IndexOf(text, marker).value;
      StartsWith(r, marker) && k + |r| <= |text| && r == text[k..k + |r|]
    ensures IndexOf(text, marker).Some? ==>
      var k := IndexOf(text, marker).value;
      var cut := NextBreak(text[k..], 0, follows);
      (cut.Some? ==> r == text[k..k + cut.value]) && (cut.None? ==> r == text[k..])
  {
    match IndexOf(text, marker)
    case None => text
    case Some(k) =>
      var tail := text[k..];
      assert tail[..|marker|] == marker;
      match NextBreak(tail, 0, follows)
      case None => tail
      case Some(j) =>
        assert forall i :: 0 <= i < |marker| ==> tail[i] == marker[i] && tail[i] != '\n';
        tail[..j]
  }

  /** The trimmed non-empty lines the scanner visits. */
  function QALines(text: string): seq<string> {
    var t := JsTrim(NormalizeNewlines(text));
    if t == [] then [] else TrimmedPieces(ReviewTarget(t), '\n', IsJsSpace)
  }

  /** One iteration of the scanning loop, for a line of the given kind. */
  function Step(out: seq<QA>, kind: LineKind): seq<QA> {
    match kind
    case Question(q) => out + [QA(q, "")]
    case Answer(a) =>
      if out != [] then out[|out| - 1 := out[|out| - 1].(a := a)] else out + [QA("", a)]
    case Other => out
  }

  /**
   * The pairs before finalisation, after scanning `lines` in order with the
   * line classifier `kind` (the model is generic in it; the extractor uses
   * `Classify`).
   */
  function Scan(lines: seq<string>, kind: string -> LineKind): seq<QA>
    decreases |lines|
  {
    if lines == [] then [] else Step(Scan(lines[..|lines| - 1], kind), kind(lines[|lines| - 1]))
  }

  predicate HasSide(p: QA) { p.q != "" || p.a != "" }

  function Fill(p: QA): QA {
    QA(if p.q != "" then p.q else MissingQuestion, if p.a != "" then p.a else MissingAnswer)
  }

  function QOf(p: QA): string { p.q }

  /** Drops pairs with neither side and fills a missing side with its placeholder. */
  function Finalize(raw: seq<QA>): (r: seq<QA>)
    ensures |r| <= |raw|
    ensures forall i :: 0 <= i < |r| ==> r[i].q != "" && r[i].a != ""
    ensures forall p :: p in raw && p.q != "" && p.a != "" ==> p in r
  {
    var kept := Seqs.Filter(raw, HasSide);
    var r := Seqs.Map(kept, Fill);
    forall p | p in raw && p.q != "" && p.a != "" ensures p in r {
      assert p in kept;
      var k :| 0 <= k < |kept| && kept[k] == p;
      assert r[k] == p;
    }
    r
  }

  /** The value `extractQA` returns. */
  function QAPairs(text: string): (r: seq<QA>)
    ensures forall i :: 0 <= i < |r| ==> r[i].q != "" && r[i].a != ""
  {
    Finalize(Scan(QALines(text), Classify))
  }

  /** `extractQA`: the scanning loop pushes a pair per question line and fills answers in place. */
  method ExtractQA(summaryText: string) returns (pairs: seq<QA>)
    ensures pairs == QAPairs(summaryText)
  {
    var text := JsTrim(NormalizeNewlines(summaryText));
    if text == [] {
      return [];
    }
    var lines := TrimmedPieces(ReviewTarget(text), '\n', IsJsSpace);
    assert lines == QALines(summaryText);
    var out := ScanLines(lines, Classify);
    pairs := Finalize(out);
  }

  /** The loop of `extractQA` over the trimmed non-empty lines. */
  method ScanLines(lines: seq<string>, kind: string -> LineKind) returns (out: seq<QA>)
    ensures out == Scan(lines, kind)
  {
    out := [];
    var i := 0;
    while i < |lines|
      invariant 0 <= i <= |lines|
      invariant out == Scan(lines[..i], kind)
    {
      var line := lines[i];
      match kind(line) {
        case Question(q) =>
          out := out + [QA(q, "")];
        case Answer(a) =>
          if |out| > 0 {
            out := out[|out| - 1 := out[|out| - 1].(a := a)];
          } else {
            out := out + [QA("", a)];
          }
        case Other =>
      }
      assert lines[..i + 1][..i] == lines[..i];
      i := i + 1;
    }
    assert lines[..i] == lines;
  }

  // ---------------------------------------------------------------------
  // Properties of the extractor

  /** The texts of the question lines, in order. */
  function QuestionTexts(lines: seq<string>): (r: seq<string>)
    ensures forall i :: 0 <= i < |r| ==> r[i] != ""
    decreases |lines|
  {
    if lines == [] then []
    else
      var init := QuestionTexts(lines[..|lines| - 1]);
      match Classify(lines[|lines| - 1])
      case Question(q) => init + [q]
      case _ => init
  }

  /** Empty or white-space-only input yields no pairs. */
  lemma QAPairsOfBlank(text: string)
    requires forall i :: 0 <= i < |text| ==> IsJsSpace(text[i])
    ensures QAPairs(text) == []
  {
    var n := NormalizeNewlines(text);
    forall i | 0 <= i < |n| ensures IsJsSpace(n[i]) {
      assert n[i] in n;
    }
  }

  /**
   * How one more line changes the scan: a question line (the question
   * pattern is tried first) always opens a new pair; an answer line
   * overwrites the answer of the latest pair, or opens a pair with an empty
   * question when there is none; any other line changes nothing.
   */
  lemma ScanAppend(lines: seq<string>, line: string)
    ensures Classify(line).Question? ==>
      Scan(lines + [line], Classify) == Scan(lines, Classify) + [QA(Classify(line).text, "")]
    ensures Classify(line).Answer? && Scan(lines, Classify) == [] ==>
      Scan(lines + [line], Classify) == [QA("", Classify(line).text)]
    ensures Classify(line).Answer? && Scan(lines, Classify) != [] ==>
      var before, after := Scan(lines, Classify), Scan(lines + [line], Classify);
      |after| == |before| && after[..|before| - 1] == before[..|before| - 1] &&
      after[|before| - 1] == QA(before[|before| - 1].q, Classify(line).text)
    ensures Classify(line).Other? ==> Scan(lines + [line], Classify) == Scan(lines, Classify)
  {
    assert (lines + [line])[..|lines|] == lines;
  }

  /** Every scanned pair has at least one side, so finalisation drops nothing. */
  lemma {:induction false} ScanHasSides(lines: seq<string>)
    ensures forall i :: 0 <= i < |Scan(lines, Classify)| ==> HasSide(Scan(lines, Classify)[i])
    decreases |lines|
  {
    if lines != [] {
      var init := lines[..|lines| - 1];
      ScanHasSides(init);
      var kind := Classify(lines[|lines| - 1]);
      assert kind != Other ==> kind.text != [];
      StepHasSides(Scan(init, Classify), kind);
    }
  }

  /** A step with a non-empty text keeps every pair one-sided at least. */
  lemma StepHasSides(before: seq<QA>, kind: LineKind)
    requires forall i :: 0 <= i < |before| ==> HasSide(before[i])
    requires kind != Other ==> kind.text != []
    ensures forall i :: 0 <= i < |Step(before, kind)| ==> HasSide(Step(before, kind)[i])
  {
  }

  /**
   * The questions of the scanned pairs are exactly the question lines in
   * order, preceded by one empty question when an answer line came before
   * any question line.
   */
  lemma {:induction false} ScanQuestions(lines: seq<string>)
    ensures var qs := Seqs.Map(Scan(lines, Classify), QOf);
      qs == QuestionTexts(lines) || qs == [""] + QuestionTexts(lines)
    decreases |lines|
  {
    if lines != [] {
      var init := lines[..|lines| - 1];
      ScanQuestions(init);
      StepQuestions(Scan(init, Classify), QuestionTexts(init), Classify(lines[|lines| - 1]));
    }
  }

  /** One step of `ScanQuestions`, for any kind of line. */
  lemma StepQuestions(before: seq<QA>, qt: seq<string>, kind: LineKind)
    requires var qb := Seqs.Map(before, QOf); qb == qt || qb == [""] + qt
    ensures var qa := Seqs.Map(Step(before, kind), QOf);
      var qt' := if kind.Question? then qt + [kind.text] else qt;
      qa == qt' || qa == [""] + qt'
  {
    var qb := Seqs.Map(before, QOf);
    var qa := Seqs.Map(Step(before, kind), QOf);
    match kind
    case Question(q) =>
      assert qa == qb + [q];
    case Answer(a) =>
      if before == [] {
        assert qa == [""];
      } else {
        assert qa == qb;
      }
    case Other =>
  }

  /** The question texts of finalised pairs: the scanned questions with an empty one replaced. */
  lemma FinalizeQuestions(lines: seq<string>)
    ensures var qs := Seqs.Map(Finalize(Scan(lines, Classify)), QOf);
      var questions := QuestionTexts(lines);
      qs == questions || qs == [MissingQuestion] + questions
  {
    ScanHasSides(lines);
    ScanQuestions(lines);
    FillQuestions(Scan(lines, Classify), QuestionTexts(lines));
  }

  /** Finalising pairs that all have a side replaces only an empty question. */
  lemma FillQuestions(raw: seq<QA>, questions: seq<string>)
    requires forall i :: 0 <= i < |raw| ==> HasSide(raw[i])
    requires forall i :: 0 <= i < |questions| ==> questions[i] != ""
    requires var qraw := Seqs.Map(raw, QOf); qraw == questions || qraw == [""] + questions
    ensures var qs := Seqs.Map(Finalize(raw), QOf);
      qs == questions || qs == [MissingQuestion] + questions
  {
    FinalizeSided(raw);
    var qraw := Seqs.Map(raw, QOf);
    PlaceholderQuestion(qraw, Seqs.Map(Finalize(raw), QOf), questions);
  }

  /** Replacing the empty entries of `qraw` by the placeholder. */
  lemma PlaceholderQuestion(qraw: seq<string>, qs: seq<string>, questions: seq<string>)
    requires |qs| == |qraw|
    requires forall i :: 0 <= i < |qraw| ==> qs[i] == if qraw[i] != "" then qraw[i] else MissingQuestion
    requires forall i :: 0 <= i < |questions| ==> questions[i] != ""
    requires qraw == questions || qraw == [""] + questions
    ensures qs == questions || qs == [MissingQuestion] + questions
  {
    if qraw == questions {
      assert qs == questions;
    } else {
      assert qs == [MissingQuestion] + questions;
    }
  }

  /** Pairs that all have a side are only filled in, each missing side with its placeholder. */
  lemma FinalizeSided(raw: seq<QA>)
    requires forall i :: 0 <= i < |raw| ==> HasSide(raw[i])
    ensures |Finalize(raw)| == |raw|
    ensures forall i :: 0 <= i < |raw| ==> QOf(Finalize(raw)[i]) == if raw[i].q != "" then raw[i].q else MissingQuestion
    ensures forall i :: 0 <= i < |raw| ==> Finalize(raw)[i].a == if raw[i].a != "" then raw[i].a else MissingAnswer
  {
    Seqs.FilterAll(raw, HasSide);
  }

  /**
   * The questions of `extractQA`'s result are the question lines in order,
   * with one placeholder question in front when an answer came first; so the
   * result has as many pairs as question lines, or one more.
   */
  lemma QAPairsQuestions(text: string)
    ensures var qs := Seqs.Map(QAPairs(text), QOf);
      var questions := QuestionTexts(QALines(text));
      qs == questions || qs == [MissingQuestion] + questions
    ensures |QuestionTexts(QALines(text))| <= |QAPairs(text)| <= |QuestionTexts(QALines(text))| + 1
  {
    FinalizeQuestions(QALines(text));
  }

  // ---------------------------------------------------------------------
  // Worked examples

  /** Question, answer, question, answer: two complete pairs, in order. */
  lemma ScanTwoPairs(lines: seq<string>, kind: string -> LineKind, q1: string, a1: string, q2: string, a2: string)
    requires |lines| == 4 && q1 != "" && a1 != "" && q2 != "" && a2 != ""
    requires kind(lines[0]) == Question(q1) && kind(lines[1]) == Answer(a1)
    requires kind(lines[2]) == Question(q2) && kind(lines[3]) == Answer(a2)
    ensures Finalize(Scan(lines, kind)) == [QA(q1, a1), QA(q2, a2)]
  {
    assert lines[..1][..0] == [];
    assert lines[..2][..1] == lines[..1];
    assert lines[..3][..2] == lines[..2];
    assert lines[..|lines| - 1] == lines[..3];
    assert Scan(lines[..1], kind) == [QA(q1, "")];
    assert Scan(lines[..2], kind) == [QA(q1, a1)];
    assert Scan(lines[..3], kind) == [QA(q1, a1), QA(q2, "")];
    var raw := Scan(lines, kind);
    assert raw == [QA(q1, a1), QA(q2, a2)];
    FinalizeSided(raw);
  }

  /** An answer with no question before it gets the placeholder question. */
  lemma ScanOrphanAnswer(lines: seq<string>, kind: string -> LineKind, a: string)
    requires |lines| == 1 && a != "" && kind(lines[0]) == Answer(a)
    ensures Finalize(Scan(lines, kind)) == [QA(MissingQuestion, a)]
  {
    assert lines[..0] == [];
    assert Scan(lines[..0], kind) == [];
    var raw := Scan(lines, kind);
    assert raw == [QA("", a)];
    FinalizeSided(raw);
  }

  /** A question with no answer line after it gets the placeholder answer. */
  lemma ScanLoneQuestion(lines: seq<string>, kind: string -> LineKind, q: string)
    requires |lines| == 1 && q != "" && kind(lines[0]) == Question(q)
    ensures Finalize(Scan(lines, kind)) == [QA(q, MissingAnswer)]
  {
    assert lines[..0] == [];
    assert Scan(lines[..0], kind) == [];
    var raw := Scan(lines, kind);
    assert raw == [QA(q, "")];
    FinalizeSided(raw);
  }

  /** Lines of a text with no carriage return, no review section and no outer white space. */
  lemma PlainLines(text: string, lines: seq<string>)
    requires text != [] && IsTrimmed(text, IsJsSpace)
    requires '\r' !in text && ReviewSection[0] !in text
    requires TrimmedPieces(text, '\n', IsJsSpace) == lines
    ensures QALines(text) == lines
  {
    TrimOfTrimmed(text, IsJsSpace);
    IndexOfHead(text, ReviewSection);
  }

  /** What a line of the review text may hold after its marker and colon. */
  predicate PlainText(t: string) {
    t != [] && IsTrimmed(t, IsJsSpace) && OneLine(t) && '\n' !in t && '\r' !in t && ReviewSection[0] !in t
  }

  lemma QuestionLine(t: string)
    requires PlainText(t)
    ensures Classify("質問：" + t) == Question(t)
  {
    assert "質問" + [] + ['：'] + [] + t == "質問：" + t;
    ClassifyQuestion("質問", [], '：', [], t);
  }

  lemma AnswerLine(t: string)
    requires PlainText(t)
    ensures Classify("回答：" + t) == Answer(t)
  {
    assert "回答" + [] + ['：'] + [] + t == "回答：" + t;
    ClassifyAnswer("回答", [], '：', [], t);
  }

  /** A line of a plain review text: non-empty, trimmed, with no line break or section marker. */
  predicate PlainLine(l: string) {
    l != [] && IsTrimmed(l, IsJsSpace) && '\n' !in l && '\r' !in l && ReviewSection[0] !in l
  }

  /** A marked line is non-empty, trimmed and free of line breaks. */
  lemma MarkedLine(m: string, t: string)
    requires m != [] && !IsJsSpace(m[0]) && '\n' !in m && '\r' !in m && ReviewSection[0] !in m
    requires PlainText(t)
    ensures PlainLine(m + t)
  {
    var l := m + t;
    assert l[0] == m[0] && l[|l| - 1] == t[|t| - 1];
  }

  /** Trimmed lines joined by line breaks split back into the same lines. */
  lemma {:induction false} JoinedPieces(lines: seq<string>)
    requires lines != []
    requires forall i :: 0 <= i < |lines| ==> lines[i] != [] && IsTrimmed(lines[i], IsJsSpace) && '\n' !in lines[i]
    ensures TrimmedPieces(Join(lines, '\n'), '\n', IsJsSpace) == lines
    decreases |lines|
  {
    if |lines| == 1 {
      TrimmedPiecesSingle(lines[0], '\n', IsJsSpace);
    } else {
      var rest := lines[1..];
      JoinedPieces(rest);
      assert lines == [lines[0]] + rest;
      TrimmedPiecesCons(lines[0], Join(rest, '\n'), '\n', IsJsSpace);
    }
  }

  /** A character in none of the lines, other than the separator, is not in their join. */
  lemma {:induction false} JoinedFree(lines: seq<string>, sep: char, c: char)
    requires c != sep && forall i :: 0 <= i < |lines| ==> c !in lines[i]
    ensures c !in Join(lines, sep)
    decreases |lines|
  {
    if |lines| > 1 {
      JoinedFree(lines[1..], sep, c);
    }
  }

  /** Joined lines begin with the first line and end with the last. */
  lemma {:induction false} JoinedEnds(lines: seq<string>, sep: char)
    requires lines != [] && forall i :: 0 <= i < |lines| ==> lines[i] != []
    ensures var text := Join(lines, sep); var last := lines[|lines| - 1];
      text != [] && text[0] == lines[0][0] && text[|text| - 1] == last[|last| - 1]
    decreases |lines|
  {
    if |lines| > 1 {
      JoinedEnds(lines[1..], sep);
    }
  }

  /** The lines of plain lines joined by line breaks. */
  lemma FourLines(l1: string, l2: string, l3: string, l4: string)
    requires PlainLine(l1) && PlainLine(l2) && PlainLine(l3) && PlainLine(l4)
    ensures QALines(l1 + "\n" + (l2 + "\n" + (l3 + "\n" + l4))) == [l1, l2, l3, l4]
  {
    var lines := [l1, l2, l3, l4];
    assert [l3, l4][1..] == [l4];
    assert Join([l3, l4], '\n') == l3 + "\n" + l4;
    assert [l2, l3, l4][1..] == [l3, l4];
    assert Join([l2, l3, l4], '\n') == l2 + "\n" + (l3 + "\n" + l4);
    assert lines[1..] == [l2, l3, l4];
    assert Join(lines, '\n') == l1 + "\n" + (l2 + "\n" + (l3 + "\n" + l4));
    JoinedPieces(lines);
    JoinedFree(lines, '\n', '\r');
    JoinedFree(lines, '\n', ReviewSection[0]);
    JoinedEnds(lines, '\n');
    PlainLines(Join(lines, '\n'), lines);
  }

  /**
   * Four marked lines, question, answer, question, answer, make two
   * complete pairs.
   */
  lemma TwoPairsText(q1: string, a1: string, q2: string, a2: string)
    requires PlainText(q1) && PlainText(a1) && PlainText(q2) && PlainText(a2)
    ensures QAPairs("質問：" + q1 + "\n回答：" + a1 + "\n質問：" + q2 + "\n回答：" + a2) ==
      [QA(q1, a1), QA(q2, a2)]
  {
    var l1, l2, l3, l4 := "質問：" + q1, "回答：" + a1, "質問：" + q2, "回答：" + a2;
    TwoPairsLines(q1, a1, q2, a2);
    QuestionLine(q1);
    AnswerLine(a1);
    QuestionLine(q2);
    AnswerLine(a2);
    ScanTwoPairs([l1, l2, l3, l4], Classify, q1, a1, q2, a2);
  }

  /** The lines `TwoPairsText` scans. */
  lemma TwoPairsLines(q1: string, a1: string, q2: string, a2: string)
    requires PlainText(q1) && PlainText(a1) && PlainText(q2) && PlainText(a2)
    ensures QALines("質問：" + q1 + "\n回答：" + a1 + "\n質問：" + q2 + "\n回答：" + a2) ==
      ["質問：" + q1, "回答：" + a1, "質問：" + q2, "回答：" + a2]
  {
    var l1, l2, l3, l4 := "質問：" + q1, "回答：" + a1, "質問：" + q2, "回答：" + a2;
    assert l1 + "\n" + (l2 + "\n" + (l3 + "\n" + l4)) ==
      "質問：" + q1 + "\n回答：" + a1 + "\n質問：" + q2 + "\n回答：" + a2;
    MarkedLine("質問：", q1);
    MarkedLine("回答：", a1);
    MarkedLine("質問：", q2);
    MarkedLine("回答：", a2);
    FourLines(l1, l2, l3, l4);
  }

  /** A lone answer line makes one pair with the placeholder question. */
  lemma OrphanAnswerText(a: string)
    requires PlainText(a)
    ensures QAPairs("回答：" + a) == [QA(MissingQuestion, a)]
  {
    var l := "回答：" + a;
    MarkedLine("回答：", a);
    TrimmedPiecesSingle(l, '\n', IsJsSpace);
    PlainLines(l, [l]);
    AnswerLine(a);
    ScanOrphanAnswer([l], Classify, a);
  }

  /** A lone question line makes one pair with the placeholder answer. */
  lemma LoneQuestionText(q: string)
    requires PlainText(q)
    ensures QAPairs("質問：" + q) == [QA(q, MissingAnswer)]
  {
    var l := "質問：" + q;
    MarkedLine("質問：", q);
    TrimmedPiecesSingle(l, '\n', IsJsSpace);
    PlainLines(l, [l]);
    QuestionLine(q);
    ScanLoneQuestion([l], Classify, q);
  }

  /** A two-pair question/answer text. */
  lemma TwoPairsExample()
    ensures QAPairs("質問：Pとは何か？\n回答：確率変数。\n質問：Qとは\n回答：累積分布。") ==
      [QA("Pとは何か？", "確率変数。"), QA("Qとは", "累積分布。")]
  {
    TwoPairsExampleParts();
    TwoPairsExampleInput();
    TwoPairsText("Pとは何か？", "確率変数。", "Qとは", "累積分布。");
  }

  /** The texts of the two-pair example are plain. */
  lemma TwoPairsExampleParts()
    ensures PlainText("Pとは何か？") && PlainText("確率変数。")
    ensures PlainText("Qとは") && PlainText("累積分布。")
  {
    FirstPairPlain();
  }

  lemma FirstPairPlain()
    ensures PlainText("Pとは何か？") && PlainText("確率変数。")
  {
  }

  /** The input of the two-pair example is the marked lines of those texts. */
  lemma TwoPairsExampleInput()
    ensures "質問：" + "Pとは何か？" + "\n回答：" + "確率変数。" + "\n質問：" + "Qとは" + "\n回答：" + "累積分布。" ==
      "質問：Pとは何か？\n回答：確率変数。\n質問：Qとは\n回答：累積分布。"
  {
  }

  /** An answer line with no question before it. */
  lemma OrphanAnswerExample()
    ensures QAPairs("回答：これは答えのみ。") == [QA("(質問が抽出できませんでした)", "これは答えのみ。")]
  {
    assert "回答：" + "これは答えのみ。" == "回答：これは答えのみ。";
    assert PlainText("これは答えのみ。");
    OrphanAnswerText("これは答えのみ。");
  }

  /** A question without an answer line gets the fixed answer placeholder. */
  lemma LoneQuestionExample()
    ensures QAPairs("質問：Qとは") == [QA("Qとは", "(回答が抽出できませんでした)")]
  {
    assert "質問：" + "Qとは" == "質問：Qとは";
    assert PlainText("Qとは");
    LoneQuestionText("Qとは");
  }
}
