/**
 * The decisions the HTTP endpoints take before and around the store: the
 * review-interval rule of the reminder endpoint, title validation, the
 * highlight lines and conditional summary replacement of re-summarising,
 * and the empty-text guard of text-to-speech.  Instants are integers in
 * microseconds (`datetime` arithmetic is exact at that resolution); the
 * goal date arrives already parsed.
 */
module Endpoints {
  import opened Wrappers
  import opened Text
  import Seqs
  import Storage
  import Summarizer

  const Second := 1000000
  const Day := 86400 * Second
  const DemoDelay := 30 * Second

  /* ---------- add_reminder ---------- */

  /** `(demo or "").lower() == "true"`: only the letters matter, not their case. */
  predicate IsDemo(demo: Option<string>) {
    demo.Some? && AsciiLower(demo.value) == "true"
  }

  /**
   * The first interval in days for `days` days left: about a fifth of them,
   * a tenth beyond thirty days, and at least one day.
   */
  function IntervalDays(days: int): (r: int)
    requires days >= 1
    ensures 1 <= r <= days
    ensures days < 5 ==> r == 1
    ensures 5 <= days <= 30 ==> 5 * r <= days < 5 * (r + 1)
    ensures days > 30 ==> 10 * r <= days < 10 * (r + 1)
  {
    var n := if days <= 30 then days / 5 else days / 10;
    if n >= 1 then n else 1
  }

  /** Whole days left until `goal`, rounded down, and at least one. */
  function DaysLeft(now: int, goal: int): (r: int)
    ensures r >= 1
    ensures goal - now < Day ==> r == 1
    ensures goal - now >= Day ==> r * Day <= goal - now < (r + 1) * Day
  {
    var d := (goal - now) / Day;
    if d >= 1 then d else 1
  }

  datatype Due = At(instant: int) | NeedGoal

  /** When the first review is due, or `NeedGoal` for the 400 answer. */
  function DueAt(now: int, demo: Option<string>, goal: Option<int>): (r: Due)
    ensures IsDemo(demo) ==> r == At(now + DemoDelay)
    ensures !IsDemo(demo) && goal.None? ==> r == NeedGoal
    ensures !IsDemo(demo) && goal.Some? ==>
      r == At(now + IntervalDays(DaysLeft(now, goal.value)) * Day)
    ensures !IsDemo(demo) && goal.Some? ==>
      now + Day <= r.instant <= now + DaysLeft(now, goal.value) * Day
  {
    if IsDemo(demo) then At(now + DemoDelay)
    else if goal.None? then NeedGoal
    else At(now + IntervalDays(DaysLeft(now, goal.value)) * Day)
  }

  /** With a day or more left, the first review is never due after the goal. */
  lemma DueBeforeGoal(now: int, goal: int, demo: Option<string>)
    requires !IsDemo(demo) && goal - now >= Day
    ensures DueAt(now, demo, Some(goal)).instant <= goal
  {
  }

  /**
   * Goal mode as a share of the time left: one day when less than five
   * days are left; otherwise a fifth of the time left (a tenth beyond
   * thirty days), rounded down to whole days.
   */
  lemma DueShare(now: int, goal: int, demo: Option<string>)
    requires !IsDemo(demo)
    ensures var wait := DueAt(now, demo, Some(goal)).instant - now;
      var left := goal - now;
      wait >= Day &&
      (left < 5 * Day ==> wait == Day) &&
      (5 * Day <= left < 31 * Day ==> 5 * wait <= left < 5 * wait + 5 * Day) &&
      (left >= 31 * Day ==> 10 * wait <= left < 10 * wait + 10 * Day)
  {
    var d := DaysLeft(now, goal);
    var left := goal - now;
    assert DueAt(now, demo, Some(goal)).instant - now == IntervalDays(d) * Day;
    ShareOfDays(left, d, IntervalDays(d));
  }

  /** The arithmetic behind `DueShare`, for `d` whole days left and an interval of `n` days. */
  lemma ShareOfDays(left: int, d: int, n: int)
    requires d >= 1 && n == IntervalDays(d)
    requires left < Day ==> d == 1
    requires left >= Day ==> d * Day <= left < (d + 1) * Day
    ensures n * Day >= Day
    ensures left < 5 * Day ==> n * Day == Day
    ensures 5 * Day <= left < 31 * Day ==> 5 * (n * Day) <= left < 5 * (n * Day) + 5 * Day
    ensures left >= 31 * Day ==> 10 * (n * Day) <= left < 10 * (n * Day) + 10 * Day
  {
    MulLe(1, n, Day);
    MulLe(5, d, Day);
    MulLe(31, d, Day);
    MulLe(d + 1, 5, Day);
    MulLe(d + 1, 31, Day);
    MulLe(5 * n, d, Day);
    MulLe(d + 1, 5 * n + 5, Day);
    MulLe(10 * n, d, Day);
    MulLe(d + 1, 10 * n + 10, Day);
  }

  lemma MulLe(a: int, b: int, c: int)
    requires c >= 0
    ensures a <= b ==> a * c <= b * c
  {
  }

  datatype ReminderReply = Scheduled(nextReviewAt: int, willEmail: bool) | GoalRequired

  /**
   * `add_reminder`: without demo mode and without a goal date nothing is
   * stored.  Otherwise one reminder, unsent, titled after the recording
   * (or "Recording" when there is none), is appended.
   */
  method AddReminder(store: Storage.Store, recordingId: string, email: Option<string>, goal: Option<int>,
                     demo: Option<string>, now: int, newId: string) returns (reply: ReminderReply)
    modifies store
    ensures store.records == old(store.records)
    ensures reply == GoalRequired <==> DueAt(now, demo, goal) == NeedGoal
    ensures reply == GoalRequired ==> store.reminders == old(store.reminders)
    ensures reply.Scheduled? ==>
      var rec := Storage.FirstMatch(store.records, recordingId);
      var title := if rec.Some? then store.records[rec.value].title else "Recording";
      reply.nextReviewAt == DueAt(now, demo, goal).instant &&
      (reply.willEmail <==> email.Some? && email.value != []) &&
      store.reminders == old(store.reminders) +
        [Storage.Reminder(newId, email, reply.nextReviewAt, title, recordingId, false)]
  {
    var rec := store.GetRecord(recordingId);
    var title := if rec.Some? then rec.value.title else "Recording";
    var due := DueAt(now, demo, goal);
    if due.NeedGoal? {
      return GoalRequired;
    }
    store.AddReminder(Storage.Reminder(newId, email, due.instant, title, recordingId, false));
    return Scheduled(due.instant, email.Some? && email.value != []);
  }

  /* ---------- update_title ---------- */

  datatype TitleReply = TitleOk | EmptyTitle | TitleNotFound

  /**
   * `update_title`: a blank title is refused without touching the store;
   * otherwise the stripped title goes to the first record with that id.
   */
  method UpdateTitle(store: Storage.Store, rid: string, title: string) returns (reply: TitleReply)
    modifies store
    ensures reply == EmptyTitle <==> PyStrip(title) == []
    ensures reply == TitleNotFound <==> PyStrip(title) != [] && Storage.FirstMatch(old(store.records), rid).None?
    ensures reply != TitleOk ==> store.records == old(store.records)
    ensures reply == TitleOk ==> var k := Storage.FirstMatch(old(store.records), rid).value;
      store.records == old(store.records)[k := old(store.records)[k].(title := PyStrip(title))]
    ensures store.reminders == old(store.reminders)
  {
    if PyStrip(title) == [] {
      return EmptyTitle;
    }
    var ok := store.UpdateTitle(rid, PyStrip(title));
    return if ok then TitleOk else TitleNotFound;
  }

  /* ---------- resummarize_from_text ---------- */

  /** One highlight of weight `boost` per non-blank line of `raw`, stripped, in order. */
  function HighlightsOf(raw: string, boost: real): (r: seq<Storage.Highlight>)
    ensures forall i :: 0 <= i < |r| ==>
      r[i].weight == boost && r[i].text != [] && IsTrimmed(r[i].text, IsPySpace) && '\n' !in r[i].text
  {
    var wants := TrimmedPieces(NormalizeNewlines(raw), '\n', IsPySpace);
    Seqs.Map(wants, (w: string) => Storage.Highlight(w, boost))
  }

  /** The highlight texts are the comprehension's: the stripped lines, blank ones dropped. */
  lemma HighlightsAreLines(raw: string, boost: real)
    ensures Seqs.Map(HighlightsOf(raw, boost), (h: Storage.Highlight) => h.text) ==
      Seqs.Filter(Seqs.Map(Split(NormalizeNewlines(raw), '\n'), (p: string) => Trim(p, IsPySpace)),
                  (x: string) => x != [])
  {
    var lines := Split(NormalizeNewlines(raw), '\n');
    KeepTrimmedIsMapFilter(lines, IsPySpace);
    var wants := TrimmedPieces(NormalizeNewlines(raw), '\n', IsPySpace);
    var texts := Seqs.Map(HighlightsOf(raw, boost), (h: Storage.Highlight) => h.text);
    assert |texts| == |wants|;
    forall i | 0 <= i < |texts| ensures texts[i] == wants[i] {
    }
  }

  /** The summariser sees these highlights' texts exactly as they are. */
  lemma HighlightTextsOf(raw: string, boost: real)
    ensures Summarizer.HighlightTexts(HighlightsOf(raw, boost)) ==
      Seqs.Map(HighlightsOf(raw, boost), (h: Storage.Highlight) => h.text)
  {
    var hs := HighlightsOf(raw, boost);
    Seqs.FilterAll(hs, (h: Storage.Highlight) => h.text != []);
    var a := Summarizer.HighlightTexts(hs);
    var b := Seqs.Map(hs, (h: Storage.Highlight) => h.text);
    forall i | 0 <= i < |a| ensures a[i] == b[i] {
      TrimOfTrimmed(hs[i].text, IsPySpace);
    }
  }

  datatype ResummaryReply = Resummarized(summary: string, highlights: seq<Storage.Highlight>)
                          | RecordingNotFound | EmptyText

  /**
   * The record after re-summarising: the new highlights, and the new
   * summary unless that is empty.  Nothing else changes, a summary never
   * becomes empty, and without a model it is always replaced.
   */
  function Refreshed(before: Storage.Record, raw: string, boost: real, reply: Summarizer.ModelReply)
    : (r: Storage.Record)
    ensures r.highlights == HighlightsOf(raw, boost)
    ensures r.(highlights := before.highlights, summary := before.summary) == before
    ensures r.summary == before.summary || r.summary != []
    ensures var w := Summarizer.WeightedSummary(before.transcript, HighlightsOf(raw, boost), reply);
      r.summary == if w != [] then w else before.summary
    ensures reply.NoModel? ==>
      r.summary == Summarizer.WeightedSummary(before.transcript, HighlightsOf(raw, boost), reply)
  {
    var hs := HighlightsOf(raw, boost);
    var renewed := Summarizer.WeightedSummary(before.transcript, hs, reply);
    before.(highlights := hs, summary := if renewed != [] then renewed else before.summary)
  }

  /**
   * Re-summarising with the same text and the same model answer a second
   * time changes nothing more: the transcript the summary is built from is
   * never touched.
   */
  lemma RefreshedTwice(before: Storage.Record, raw: string, boost: real, reply: Summarizer.ModelReply)
    ensures Refreshed(Refreshed(before, raw, boost, reply), raw, boost, reply) == Refreshed(before, raw, boost, reply)
  {
  }

  /** A model answer that strips to nothing keeps the old summary; any other answer replaces it. */
  lemma RefreshedByReply(before: Storage.Record, raw: string, boost: real, answer: string)
    requires before.transcript != []
    ensures var r := Refreshed(before, raw, boost, Summarizer.Reply(answer));
      r.summary == if PyStrip(answer) == [] then before.summary else PyStrip(answer)
  {
  }

  /** The in-place update of record `k`. */
  method Refresh(store: Storage.Store, k: nat, raw: string, boost: real, reply: Summarizer.ModelReply)
    returns (rec: Storage.Record)
    requires k < |store.records|
    modifies store`records
    ensures rec == Refreshed(old(store.records)[k], raw, boost, reply)
    ensures store.records == old(store.records)[k := rec]
  {
    var before := store.records[k];
    var hs := HighlightsOf(raw, boost);
    var newSummary := Summarizer.MakeWeightedSummary(before.transcript, hs, reply);
    rec := before.(highlights := hs, summary := if newSummary != [] then newSummary else before.summary);
    assert rec == Refreshed(before, raw, boost, reply);
    store.records := store.records[k := rec];
  }

  /**
   * `resummarize_from_text`: an unknown recording or a blank text changes
   * nothing.  Otherwise the first record with that id is refreshed in
   * place, and the reply carries its summary and highlights.
   */
  method Resummarize(store: Storage.Store, rid: string, text: Option<string>, boost: real,
                     reply: Summarizer.ModelReply) returns (resp: ResummaryReply)
    modifies store
    ensures resp == RecordingNotFound <==> Storage.FirstMatch(old(store.records), rid).None?
    ensures resp == EmptyText <==>
      Storage.FirstMatch(old(store.records), rid).Some? && PyStrip(if text.Some? then text.value else "") == []
    ensures !resp.Resummarized? ==> store.records == old(store.records)
    ensures resp.Resummarized? ==>
      var k := Storage.FirstMatch(old(store.records), rid).value;
      var rec := Refreshed(old(store.records)[k], PyStrip(if text.Some? then text.value else ""), boost, reply);
      store.records == old(store.records)[k := rec] &&
      resp == Resummarized(rec.summary, rec.highlights)
    ensures store.reminders == old(store.reminders)
  {
    var k := store.Find(rid);
    if k.None? {
      return RecordingNotFound;
    }
    var raw := PyStrip(if text.Some? then text.value else "");
    if raw == [] {
      return EmptyText;
    }
    resp := RefreshAt(store, k.value, raw, boost, reply);
  }

  /** The reply of a refresh of record `k`, which carries its new summary and highlights. */
  method RefreshAt(store: Storage.Store, k: nat, raw: string, boost: real, reply: Summarizer.ModelReply)
    returns (resp: ResummaryReply)
    requires k < |store.records|
    modifies store`records
    ensures var rec := Refreshed(old(store.records)[k], raw, boost, reply);
      store.records == old(store.records)[k := rec] && resp == Resummarized(rec.summary, rec.highlights)
  {
    var rec := Refresh(store, k, raw, boost, reply);
    resp := Resummarized(rec.summary, rec.highlights);
  }

  /* ---------- tts_summary ---------- */

  /** `rec.get(field)` for the record's text fields; any other name reads as absent. */
  function FieldText(rec: Storage.Record, field: string): Option<string> {
    if field == "summary" then Some(rec.summary)
    else if field == "transcript" then Some(rec.transcript)
    else if field == "title" then Some(rec.title)
    else if field == "id" then Some(rec.id)
    else if field == "created_at" then Some(rec.createdAt)
    else None
  }

  datatype TtsReply = Speak(text: string) | NothingToRead | NoRecording

  /**
   * `tts_summary`: the stripped text of the chosen field (the summary when
   * none is named) is read out; an unknown recording, and a field that is
   * missing or blank, are refused.
   */
  function TtsSummary(store: Storage.Store, rid: string, field: string): (r: TtsReply)
    reads store
    ensures r == NoRecording <==> Storage.FirstMatch(store.records, rid).None?
    ensures r.Speak? ==> r.text != [] && IsTrimmed(r.text, IsPySpace)
    ensures r.Speak? ==> var rec := store.records[Storage.FirstMatch(store.records, rid).value];
      var value := FieldText(rec, if field == [] then "summary" else field);
      value.Some? && r.text == PyStrip(value.value)
    ensures r == NothingToRead ==> var rec := store.records[Storage.FirstMatch(store.records, rid).value];
      var value := FieldText(rec, if field == [] then "summary" else field);
      value.None? || PyStrip(value.value) == []
  {
    var k := Storage.FirstMatch(store.records, rid);
    if k.None? then NoRecording
    else
      var value := FieldText(store.records[k.value], if field == [] then "summary" else field);
      var text := PyStrip(if value.Some? then value.value else "");
      if text == [] then NothingToRead else Speak(text)
  }
}
