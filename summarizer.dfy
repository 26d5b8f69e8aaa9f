/**
 * The deterministic parts of the backend summariser: the Japanese sentence
 * splitter and the fallback summaries produced when no language model is
 * configured.  What the model answers, and whether the call fails, is a
 * parameter (`ModelReply`), so the branches around the model stay visible.
 */
module Summarizer {
  import opened Text
  import Seqs
  import Storage

  /** The outcome of asking the language model: none configured, an answer, or an exception. */
  datatype ModelReply = NoModel | Reply(text: string) | Failed

  /* ---------- split_sentences_ja ---------- */

  predicate IsTerminator(c: char) {
    c == '。' || c == '！' || c == '？'
  }

  /** No terminator occurs in `p`. */
  predicate NoTerminator(p: string) {
    forall j :: 0 <= j < |p| ==> !IsTerminator(p[j])
  }

  /** A sentence ends with a terminator, its only one. */
  predicate IsSentence(p: string) {
    p != [] && IsTerminator(p[|p| - 1]) && NoTerminator(p[..|p| - 1])
  }

  /**
   * `re.split(r'(?<=[。！？])\s*', s)`: the string is cut right after every
   * terminator and the white space following each cut is dropped.
   */
  function CutAfterTerminators(s: string): (r: seq<string>)
    ensures |r| >= 1
  {
    if s == [] then [[]]
    else if IsTerminator(s[0]) then [[s[0]]] + CutAfterTerminators(TrimStart(s[1..], IsPySpace))
    else
      var rest := CutAfterTerminators(s[1..]);
      [[s[0]] + rest[0]] + rest[1..]
  }

  /** Every piece but the last is a sentence; the last holds no terminator. */
  predicate Shaped(r: seq<string>) {
    |r| >= 1 && (forall i :: 0 <= i < |r| - 1 ==> IsSentence(r[i])) && NoTerminator(r[|r| - 1])
  }

  lemma ShapedAfterTerminator(c: char, rest: seq<string>)
    requires IsTerminator(c) && Shaped(rest)
    ensures Shaped([[c]] + rest)
  {
    var r := [[c]] + rest;
    assert [c][..0] == [];
    assert IsSentence(r[0]);
    forall i | 1 <= i < |r| ensures r[i] == rest[i - 1] {
    }
  }

  lemma ShapedOther(c: char, rest: seq<string>)
    requires !IsTerminator(c) && Shaped(rest)
    ensures Shaped([[c] + rest[0]] + rest[1..])
  {
    var r := [[c] + rest[0]] + rest[1..];
    var p := rest[0];
    if |rest| > 1 {
      assert IsSentence(p);
      assert ([c] + p)[..|p|] == [c] + p[..|p| - 1];
      assert IsSentence(r[0]);
    } else {
      assert NoTerminator(r[0]);
    }
    forall i | 1 <= i < |r| ensures r[i] == rest[i] {
    }
  }

  lemma {:induction false} CutShape(s: string)
    ensures Shaped(CutAfterTerminators(s))
    decreases |s|
  {
    if s == [] {
      assert CutAfterTerminators(s) == [[]];
    } else if IsTerminator(s[0]) {
      CutShape(TrimStart(s[1..], IsPySpace));
      ShapedAfterTerminator(s[0], CutAfterTerminators(TrimStart(s[1..], IsPySpace)));
    } else {
      CutShape(s[1..]);
      ShapedOther(s[0], CutAfterTerminators(s[1..]));
    }
  }

  /** `s` with the white-space run after each terminator deleted: what the cuts leave of it. */
  function DropGaps(s: string): (r: string)
    ensures |r| <= |s|
  {
    if s == [] then []
    else if IsTerminator(s[0]) then [s[0]] + DropGaps(TrimStart(s[1..], IsPySpace))
    else [s[0]] + DropGaps(s[1..])
  }

  function Concat(parts: seq<string>): string {
    if parts == [] then [] else parts[0] + Concat(parts[1..])
  }

  lemma {:induction false} ConcatAppend(a: seq<string>, b: seq<string>)
    ensures Concat(a + b) == Concat(a) + Concat(b)
  {
    if a == [] {
      assert a + b == b;
    } else {
      assert (a + b)[0] == a[0];
      assert (a + b)[1..] == a[1..] + b;
      ConcatAppend(a[1..], b);
    }
  }

  /** Put back together, the pieces are the text minus the dropped white space. */
  lemma {:induction false} CutConcat(s: string)
    ensures Concat(CutAfterTerminators(s)) == DropGaps(s)
    decreases |s|
  {
    if s != [] {
      if IsTerminator(s[0]) {
        var rest := CutAfterTerminators(TrimStart(s[1..], IsPySpace));
        CutConcat(TrimStart(s[1..], IsPySpace));
        assert ([[s[0]]] + rest)[1..] == rest;
      } else {
        var rest := CutAfterTerminators(s[1..]);
        CutConcat(s[1..]);
        var r := [[s[0]] + rest[0]] + rest[1..];
        assert r[1..] == rest[1..];
        assert Concat(rest) == rest[0] + Concat(rest[1..]);
      }
    }
  }

  /** Text with no white space after a terminator loses nothing. */
  lemma {:induction false} DropGapsNone(s: string)
    requires forall j :: 0 <= j < |s| - 1 ==> IsTerminator(s[j]) ==> !IsPySpace(s[j + 1])
    ensures DropGaps(s) == s
  {
    if s != [] {
      DropGapsNone(s[1..]);
      if IsTerminator(s[0]) && |s| > 1 {
        assert !IsPySpace(s[1..][0]);
      }
    }
  }

  /** Only the last piece can be empty, so dropping the empty pieces drops at most that one. */
  lemma NonEmptyPieces(r: seq<string>)
    requires Shaped(r)
    ensures Seqs.Filter(r, (p: string) => p != []) == if r[|r| - 1] == [] then r[..|r| - 1] else r
  {
    var nonEmpty := (p: string) => p != [];
    var init := r[..|r| - 1];
    assert r == init + [r[|r| - 1]];
    Seqs.FilterAll(init, nonEmpty);
    Seqs.FilterConcat(init, [r[|r| - 1]], nonEmpty);
    assert Seqs.Filter([r[|r| - 1]], nonEmpty) ==
      (if nonEmpty(r[|r| - 1]) then [r[|r| - 1]] else []) + Seqs.Filter([], nonEmpty);
  }

  /** Dropping the empty pieces keeps the shape and loses no text. */
  lemma DropEmptyPiece(pieces: seq<string>)
    requires Shaped(pieces)
    ensures var r := Seqs.Filter(pieces, (p: string) => p != []);
      (forall i :: 0 <= i < |r| ==> r[i] != []) &&
      (forall i :: 0 <= i < |r| - 1 ==> IsSentence(r[i])) &&
      (r != [] ==> IsSentence(r[|r| - 1]) || NoTerminator(r[|r| - 1])) &&
      Concat(r) == Concat(pieces)
  {
    var init := pieces[..|pieces| - 1];
    var last := pieces[|pieces| - 1];
    assert pieces == init + [last];
    NonEmptyPieces(pieces);
    if last == [] {
      ConcatAppend(init, [[]]);
      assert Concat([[]]) == [];
    }
  }

  /** `split_sentences_ja`: the non-empty pieces of the stripped text; nothing for empty text. */
  function SplitSentencesJa(text: string): seq<string> {
    if text == [] then []
    else Seqs.Filter(CutAfterTerminators(PyStrip(text)), (p: string) => p != [])
  }

  /**
   * Nothing for empty or blank text; no empty part; every part but the
   * last is a sentence ending with its one terminator, and the last has no
   * terminator but at its end; together the parts are the stripped text
   * minus the white space after the terminators.
   */
  lemma SplitSentencesShape(text: string)
    ensures var r := SplitSentencesJa(text);
      (PyStrip(text) == [] ==> r == []) &&
      (forall i :: 0 <= i < |r| ==> r[i] != []) &&
      (forall i :: 0 <= i < |r| - 1 ==> IsSentence(r[i])) &&
      (r != [] ==> IsSentence(r[|r| - 1]) || NoTerminator(r[|r| - 1])) &&
      Concat(r) == DropGaps(PyStrip(text))
  {
    if text != [] {
      var t := PyStrip(text);
      CutShape(t);
      DropEmptyPiece(CutAfterTerminators(t));
      CutConcat(t);
    }
  }

  /* ---------- summarize ---------- */

  const Ellipsis := "…"
  const SummaryTail := "\nキーワード: \nToDo:\n学習用付録:\n"

  /** The heading line: the first 18 characters of the first line and an ellipsis, or "要約". */
  function Heading(lines: seq<string>): string {
    "見出し: " + (if lines != [] then Take(lines[0], 18) + Ellipsis else "要約")
  }

  /** The non-blank `。`-separated segments of the text, after CRLF normalisation. */
  function SummaryLines(text: string): seq<string> {
    Seqs.Filter(Split(NormalizeNewlines(text), '。'), (l: string) => PyStrip(l) != [])
  }

  /** No segment holds a `。` or is blank. */
  lemma SummaryLinesShape(text: string)
    ensures forall i :: 0 <= i < |SummaryLines(text)| ==>
      '。' !in SummaryLines(text)[i] && PyStrip(SummaryLines(text)[i]) != []
  {
    var pieces := Split(NormalizeNewlines(text), '。');
    var r := SummaryLines(text);
    forall i | 0 <= i < |r| ensures '。' !in r[i] && PyStrip(r[i]) != [] {
      assert r[i] in r;
    }
  }

  /** The point lines of the fallback summary: the first three segments, stripped, each as one bullet. */
  function FallbackPoints(lines: seq<string>): (r: seq<string>)
    ensures |r| <= 3 && |r| == if |lines| < 3 then |lines| else 3
    ensures forall i :: 0 <= i < |r| ==> r[i] == "・" + PyStrip(lines[i]) + "。"
  {
    Seqs.Map(Take(lines, 3), (l: string) => "・" + PyStrip(l) + "。")
  }

  /** The summary `summarize` produces without a model: a heading line first, the empty sections last. */
  function FallbackSummary(text: string): (r: string)
    ensures StartsWith(r, "見出し: ")
    ensures |SummaryTail| <= |r| && r[|r| - |SummaryTail|..] == SummaryTail
  {
    var lines := SummaryLines(text);
    var head := Heading(lines);
    var points := if lines != [] then "要点:\n" + Join(FallbackPoints(lines), '\n') else "要点:\n・内容が少ないため要約できません。";
    StartsWithConcat("見出し: ", if lines != [] then Take(lines[0], 18) + Ellipsis else "要約");
    Framed("見出し: ", head, "\n", points, SummaryTail);
    head + "\n" + points + SummaryTail
  }

  const SummaryErrorHead := "要約エラー：Gemini要約に失敗しました。概要抜粋:\n・"
  const SummaryErrorTail := "…（詳細省略）"

  /**
   * `summarize`: the model's stripped answer, a fixed error text around
   * the first 120 characters of the text, or the fallback.
   */
  function Summarize(text: string, reply: ModelReply): (r: string)
    ensures reply.Reply? ==> r == PyStrip(reply.text) && IsTrimmed(r, IsPySpace) && |r| <= |reply.text|
    ensures reply.Failed? ==> r == SummaryErrorHead + Take(text, 120) + SummaryErrorTail
    ensures reply.Failed? ==> StartsWith(r, "要約エラー：") && |r| <= 156
    ensures reply.Failed? && |text| <= 120 ==> r == SummaryErrorHead + text + SummaryErrorTail
    ensures reply.NoModel? ==> r == FallbackSummary(text) && StartsWith(r, "見出し: ")
  {
    match reply
    case Reply(answer) => PyStrip(answer)
    case Failed =>
      assert (SummaryErrorHead + Take(text, 120) + SummaryErrorTail)[..|"要約エラー："|] == "要約エラー：";
      SummaryErrorHead + Take(text, 120) + SummaryErrorTail
    case NoModel => FallbackSummary(text)
  }

  /** Without a model the summary lists at most three points, the first segments of the text in order. */
  lemma SummarizeFallbackPoints(text: string)
    ensures var lines := SummaryLines(text);
      Summarize(text, NoModel) ==
        Heading(lines) + "\n" +
        (if lines != [] then "要点:\n" + Join(FallbackPoints(lines), '\n') else "要点:\n・内容が少ないため要約できません。") +
        SummaryTail &&
      |FallbackPoints(lines)| <= 3 &&
      forall i :: 0 <= i < |FallbackPoints(lines)| ==>
        FallbackPoints(lines)[i] == "・" + PyStrip(lines[i]) + "。" && '。' !in PyStrip(lines[i])
  {
    var lines := SummaryLines(text);
    SummaryLinesShape(text);
    forall i | 0 <= i < |FallbackPoints(lines)| ensures '。' !in PyStrip(lines[i]) {
      assert '。' !in lines[i];
    }
  }

  /* ---------- make_weighted_summary ---------- */

  const MaxPicks := 6
  const NoTranscriptSummary := "見出し: 本文がありません\n要点:\n・本文が空のため再要約できません。"
  const FailedResummary := "見出し: 再要約エラー\n要点:\n・Gemini再要約に失敗しました。"

  /** The stripped texts of the highlights whose text is not empty, in order. */
  function HighlightTexts(hs: seq<Storage.Highlight>): (r: seq<string>)
    ensures |r| <= |hs|
    ensures forall h :: h in hs && h.text != [] ==> PyStrip(h.text) in r
    ensures forall x :: x in r ==> exists h :: h in hs && h.text != [] && x == PyStrip(h.text)
  {
    Seqs.MapFilterMembers(hs, (h: Storage.Highlight) => h.text != [], (h: Storage.Highlight) => PyStrip(h.text));
    Seqs.Map(Seqs.Filter(hs, (h: Storage.Highlight) => h.text != []), (h: Storage.Highlight) => PyStrip(h.text))
  }

  /** Highlight by highlight: an empty text contributes nothing, any other its stripped text, in place. */
  lemma HighlightTextsCons(h: Storage.Highlight, hs: seq<Storage.Highlight>)
    ensures HighlightTexts([h] + hs) == (if h.text != [] then [PyStrip(h.text)] else []) + HighlightTexts(hs)
  {
    Seqs.MapFilterCons(h, hs, (x: Storage.Highlight) => x.text != [], (x: Storage.Highlight) => PyStrip(x.text));
  }

  /** The sentence loop: each non-empty sentence not yet picked is added, until six are picked. */
  function AddSentences(picks: seq<string>, sents: seq<string>): seq<string>
    decreases |sents|
  {
    if sents == [] || |picks| >= MaxPicks then picks
    else AddSentences(if sents[0] != [] && sents[0] !in picks then picks + [sents[0]] else picks, sents[1..])
  }

  /** The bullet items of the fallback: the highlights first, then new sentences. */
  function Picks(hs: seq<Storage.Highlight>, sents: seq<string>): seq<string> {
    AddSentences(HighlightTexts(hs), sents)
  }

  /**
   * The non-empty sentences of `sents` that are not in `seen`, in order,
   * each only at its first occurrence, with no bound on their number.
   */
  function Fresh(seen: seq<string>, sents: seq<string>): seq<string>
    decreases |sents|
  {
    if sents == [] then []
    else if sents[0] != [] && sents[0] !in seen then [sents[0]] + Fresh(seen + [sents[0]], sents[1..])
    else Fresh(seen, sents[1..])
  }

  /** The capped loop adds the first new sentences in order, as many as fit up to six items. */
  lemma {:induction false} AddSentencesFresh(picks: seq<string>, sents: seq<string>)
    ensures AddSentences(picks, sents) ==
      if |picks| >= MaxPicks then picks else picks + Take(Fresh(picks, sents), MaxPicks - |picks|)
    decreases |sents|
  {
    if sents == [] {
      assert picks + [] == picks;
    } else if |picks| < MaxPicks {
      var s0, rest := sents[0], sents[1..];
      if s0 != [] && s0 !in picks {
        var next := picks + [s0];
        AddSentencesFresh(next, rest);
        var f := Fresh(next, rest);
        assert Fresh(picks, sents) == [s0] + f;
        TakeCons(s0, f, MaxPicks - |picks|);
        assert picks + ([s0] + Take(f, MaxPicks - |next|)) == next + Take(f, MaxPicks - |next|);
      } else {
        AddSentencesFresh(picks, rest);
      }
    }
  }

  lemma TakeCons(x: string, f: seq<string>, n: nat)
    requires n >= 1
    ensures Take([x] + f, n) == [x] + Take(f, n - 1)
  {
  }

  /** The highlights come first, unchanged and in order. */
  lemma {:induction false} AddSentencesKeeps(picks: seq<string>, sents: seq<string>)
    ensures |picks| <= |AddSentences(picks, sents)|
    ensures AddSentences(picks, sents)[..|picks|] == picks
    decreases |sents|
  {
    if sents != [] && |picks| < MaxPicks {
      var next := if sents[0] != [] && sents[0] !in picks then picks + [sents[0]] else picks;
      AddSentencesKeeps(next, sents[1..]);
      assert next[..|picks|] == picks;
    }
  }

  /** Sentences stop being added once six items are picked. */
  lemma {:induction false} AddSentencesBound(picks: seq<string>, sents: seq<string>)
    ensures |AddSentences(picks, sents)| <= if |picks| >= MaxPicks then |picks| else MaxPicks
    decreases |sents|
  {
    if sents != [] && |picks| < MaxPicks {
      var next := if sents[0] != [] && sents[0] !in picks then picks + [sents[0]] else picks;
      AddSentencesBound(next, sents[1..]);
    }
  }

  /** Every added item is a non-empty sentence that was not picked before it. */
  lemma {:induction false} AddSentencesNew(picks: seq<string>, sents: seq<string>)
    ensures var r := AddSentences(picks, sents);
      |picks| <= |r| &&
      forall i :: |picks| <= i < |r| ==> r[i] in sents && r[i] != [] && r[i] !in r[..i]
    decreases |sents|
  {
    AddSentencesKeeps(picks, sents);
    if sents != [] && |picks| < MaxPicks {
      var next := if sents[0] != [] && sents[0] !in picks then picks + [sents[0]] else picks;
      AddSentencesNew(next, sents[1..]);
      AddSentencesKeeps(next, sents[1..]);
      var r := AddSentences(picks, sents);
      forall i | |picks| <= i < |r| ensures r[i] in sents && r[i] != [] && r[i] !in r[..i] {
        if i < |next| {
          assert r[..|next|] == next;
          assert r[i] == sents[0];
          assert r[..i] == picks;
        } else {
          assert r[i] in sents[1..];
        }
      }
    }
  }

  /** Short of six items, every non-empty sentence has been picked. */
  lemma {:induction false} AddSentencesComplete(picks: seq<string>, sents: seq<string>)
    requires |AddSentences(picks, sents)| < MaxPicks
    ensures forall s :: s in sents && s != [] ==> s in AddSentences(picks, sents)
    decreases |sents|
  {
    if sents != [] {
      var next := if sents[0] != [] && sents[0] !in picks then picks + [sents[0]] else picks;
      AddSentencesComplete(next, sents[1..]);
      AddSentencesKeeps(next, sents[1..]);
      var r := AddSentences(picks, sents);
      if sents[0] != [] {
        assert sents[0] in next;
        assert r[..|next|] == next;
      }
      assert forall s :: s in sents ==> s == sents[0] || s in sents[1..];
    }
  }

  /** The bullet lines: one per item for the first six items. */
  function Bullets(picks: seq<string>): (r: seq<string>)
    ensures |r| <= MaxPicks && |r| <= |picks|
    ensures |r| == if |picks| < MaxPicks then |picks| else MaxPicks
    ensures forall i :: 0 <= i < |r| ==> r[i] == "・" + picks[i]
  {
    Seqs.Map(Take(picks, MaxPicks), (x: string) => "・" + x)
  }

  /** The fallback summary text for the picked items; it is never empty. */
  function FallbackText(picks: seq<string>): (r: string)
    ensures StartsWith(r, "見出し: ")
  {
    var head := "見出し: " + (if picks != [] then Take(picks[0], 18) + Ellipsis else "要約");
    assert head[..|"見出し: "|] == "見出し: ";
    head + "\n要点:\n" + Join(Bullets(picks), '\n') + SummaryTail
  }

  /** What `make_weighted_summary` returns; without a model it is never empty. */
  function WeightedSummary(transcript: string, hs: seq<Storage.Highlight>, reply: ModelReply): (r: string)
    ensures transcript == [] || reply.NoModel? ==> r != []
  {
    if transcript == [] then NoTranscriptSummary
    else match reply
      case Reply(answer) => PyStrip(answer)
      case Failed => FailedResummary
      case NoModel => FallbackText(Picks(hs, SplitSentencesJa(transcript)))
  }

  /** The `for` loop of the fallback, with its early exit at six items. */
  method PickBullets(hs: seq<Storage.Highlight>, sents: seq<string>) returns (picks: seq<string>)
    ensures picks == Picks(hs, sents)
  {
    picks := HighlightTexts(hs);
    var i := 0;
    while i < |sents|
      invariant 0 <= i <= |sents|
      invariant AddSentences(picks, sents[i..]) == Picks(hs, sents)
    {
      if |picks| >= MaxPicks {
        break;
      }
      var s := sents[i];
      assert sents[i..][1..] == sents[i + 1..];
      if s != [] && s !in picks {
        picks := picks + [s];
      }
      i := i + 1;
    }
  }

  /**
   * `make_weighted_summary`: a fixed text for an empty transcript; the
   * model's stripped answer or a fixed error text when a model is
   * configured; otherwise the bullet list of highlights and new sentences.
   */
  method MakeWeightedSummary(transcript: string, hs: seq<Storage.Highlight>, reply: ModelReply)
    returns (summary: string)
    ensures transcript == [] ==> summary == NoTranscriptSummary
    ensures transcript != [] && reply.Reply? ==> summary == PyStrip(reply.text)
    ensures transcript != [] && reply.Failed? ==> summary == FailedResummary
    ensures transcript != [] && reply.NoModel? ==>
      summary == FallbackText(Picks(hs, SplitSentencesJa(transcript)))
    ensures summary == WeightedSummary(transcript, hs, reply)
  {
    if transcript == [] {
      return NoTranscriptSummary;
    }
    match reply {
      case Reply(answer) =>
        summary := PyStrip(answer);
      case Failed =>
        summary := FailedResummary;
      case NoModel =>
        var sents := SplitSentencesJa(transcript);
        var picks := PickBullets(hs, sents);
        summary := FallbackText(picks);
    }
  }

  /**
   * The fallback's items: the highlight texts first, then the first
   * distinct new sentences of the transcript in transcript order, no more
   * sentences once six items are there, and every sentence when fewer than
   * six are; at most six bullets.
   */
  lemma WeightedFallbackItems(transcript: string, hs: seq<Storage.Highlight>)
    ensures var hi := HighlightTexts(hs);
      var sents := SplitSentencesJa(transcript);
      var picks := Picks(hs, sents);
      |hi| <= |picks| && picks[..|hi|] == hi &&
      picks == (if |hi| >= MaxPicks then hi else hi + Take(Fresh(hi, sents), MaxPicks - |hi|)) &&
      |picks| <= (if |hi| >= MaxPicks then |hi| else MaxPicks) &&
      (forall i :: |hi| <= i < |picks| ==> picks[i] in sents && picks[i] !in picks[..i]) &&
      (|picks| < MaxPicks ==> forall s :: s in sents ==> s in picks) &&
      |Bullets(picks)| <= MaxPicks
  {
    var hi := HighlightTexts(hs);
    var sents := SplitSentencesJa(transcript);
    AddSentencesKeeps(hi, sents);
    AddSentencesBound(hi, sents);
    AddSentencesNew(hi, sents);
    AddSentencesFresh(hi, sents);
    if |Picks(hs, sents)| < MaxPicks {
      AddSentencesComplete(hi, sents);
    }
  }
}
