/**
 * The backend's in-memory store: the list of recordings, newest first, and
 * the list of review reminders, oldest first.  Both live for the lifetime
 * of the server process.  The records are the dictionaries the upload
 * endpoint builds; a reminder's `due_at` is an instant in microseconds.
 */
module Storage {
  import opened Wrappers
  import Seqs

  /** One weighted highlight line (`{"text", "weight"}`). */
  datatype Highlight = Highlight(text: string, weight: real)

  /** A recording: `{id, title, created_at, duration_sec, transcript, summary, highlights}`. */
  datatype Record = Record(id: string, title: string, createdAt: string, durationSec: Option<real>,
                           transcript: string, summary: string, highlights: seq<Highlight>)

  /** The list view of a recording: only its id, title, creation time and duration. */
  datatype RecordLight = RecordLight(id: string, title: string, createdAt: string, durationSec: Option<real>)

  /** `{id, email, due_at, title, recording_id, sent}`. */
  datatype Reminder = Reminder(id: string, email: Option<string>, dueAt: int, title: string,
                               recordingId: string, sent: bool)

  /** The position of the first record with id `rid`. */
  function FirstMatch(records: seq<Record>, rid: string): (r: Option<nat>)
    ensures r.Some? ==> r.value < |records| && records[r.value].id == rid
    ensures r.Some? ==> forall j :: 0 <= j < r.value ==> records[j].id != rid
    ensures r.None? <==> forall j :: 0 <= j < |records| ==> records[j].id != rid
  {
    if records == [] then None
    else if records[0].id == rid then Some(0)
    else match FirstMatch(records[1..], rid) {
      case None => None
      case Some(k) => Some(k + 1)
    }
  }

  function Light(rec: Record): RecordLight {
    RecordLight(rec.id, rec.title, rec.createdAt, rec.durationSec)
  }

  /** Not sent yet, and due at or before `now`. */
  predicate IsDue(rem: Reminder, now: int) {
    !rem.sent && rem.dueAt <= now
  }

  /** The reminders due at `now`, in stored order. */
  function DueReminders(reminders: seq<Reminder>, now: int): seq<Reminder> {
    Seqs.Filter(reminders, (rem: Reminder) => IsDue(rem, now))
  }

  class Store {
    var records: seq<Record>
    var reminders: seq<Reminder>

    /** Both lists start empty. */
    constructor()
      ensures records == [] && reminders == []
    {
      records, reminders := [], [];
    }

    /** `add_record`: the new record goes in front of all the others. */
    method AddRecord(rec: Record)
      modifies this
      ensures records == [rec] + old(records)
      ensures reminders == old(reminders)
    {
      records := [rec] + records;
    }

    /** The scan `get_record` and `update_title` share: the first position with id `rid`. */
    method Find(rid: string) returns (k: Option<nat>)
      ensures k == FirstMatch(records, rid)
    {
      var i := 0;
      while i < |records|
        invariant 0 <= i <= |records|
        invariant forall j :: 0 <= j < i ==> records[j].id != rid
      {
        if records[i].id == rid {
          FirstMatchAt(records, rid, i);
          return Some(i);
        }
        i := i + 1;
      }
      return None;
    }

    /** `get_record`: the first record with id `rid`, or nothing when none has it. */
    method GetRecord(rid: string) returns (r: Option<Record>)
      ensures r.None? <==> forall j :: 0 <= j < |records| ==> records[j].id != rid
      ensures r.Some? ==> r.value.id == rid && r.value == records[FirstMatch(records, rid).value]
    {
      var k := Find(rid);
      if k.None? {
        return None;
      }
      return Some(records[k.value]);
    }

    /**
     * `update_title`: for an unknown id nothing changes and the answer is
     * false; otherwise only the title of the first record with that id
     * changes.
     */
    method UpdateTitle(rid: string, title: string) returns (ok: bool)
      modifies this
      ensures ok <==> FirstMatch(old(records), rid).Some?
      ensures !ok ==> records == old(records)
      ensures ok ==> var k := FirstMatch(old(records), rid).value;
        records == old(records)[k := old(records)[k].(title := title)]
      ensures reminders == old(reminders)
    {
      var k := Find(rid);
      if k.None? {
        return false;
      }
      records := records[k.value := records[k.value].(title := title)];
      return true;
    }

    /** `list_records_light`: one light entry per record, in the same order. */
    function ListRecordsLight(): (r: seq<RecordLight>)
      reads this
      ensures |r| == |records|
      ensures forall i :: 0 <= i < |r| ==>
        r[i].id == records[i].id && r[i].title == records[i].title &&
        r[i].createdAt == records[i].createdAt && r[i].durationSec == records[i].durationSec
    {
      Seqs.Map(records, Light)
    }

    /** `add_reminder`: the reminder goes after all the others. */
    method AddReminder(rem: Reminder)
      modifies this
      ensures reminders == old(reminders) + [rem]
      ensures records == old(records)
    {
      reminders := reminders + [rem];
    }

    /** `iter_due_reminders`: exactly the unsent reminders due by `now`, in stored order. */
    function IterDueReminders(now: int): (r: seq<Reminder>)
      reads this
      ensures forall rem :: rem in r <==> rem in reminders && !rem.sent && rem.dueAt <= now
    {
      DueReminders(reminders, now)
    }
  }

  /** A matching record that no earlier record matches is the first match. */
  lemma {:induction false} FirstMatchAt(records: seq<Record>, rid: string, i: nat)
    requires i < |records| && records[i].id == rid
    requires forall j :: 0 <= j < i ==> records[j].id != rid
    ensures FirstMatch(records, rid) == Some(i)
  {
    if i > 0 {
      FirstMatchAt(records[1..], rid, i - 1);
    }
  }

  /** A record just added is what a lookup of its id finds; other lookups shift by one. */
  lemma AddThenFind(rec: Record, records: seq<Record>, rid: string)
    ensures FirstMatch([rec] + records, rid) ==
      if rec.id == rid then Some(0)
      else match FirstMatch(records, rid) { case None => None case Some(k) => Some(k + 1) }
  {
    assert ([rec] + records)[1..] == records;
  }

  /** After a title update the same record is found, now carrying the new title. */
  lemma UpdateThenFind(records: seq<Record>, rid: string, title: string)
    requires FirstMatch(records, rid).Some?
    ensures var k := FirstMatch(records, rid).value;
      var updated := records[k := records[k].(title := title)];
      FirstMatch(updated, rid) == Some(k) && updated[k].title == title &&
      Seqs.Map(updated, Light) == Seqs.Map(records, Light)[k := Light(records[k]).(title := title)]
  {
    var k := FirstMatch(records, rid).value;
    FirstMatchAt(records[k := records[k].(title := title)], rid, k);
  }

  /** Each reminder appended joins the due list at its end exactly when it is due. */
  lemma DueAfterAdd(reminders: seq<Reminder>, rem: Reminder, now: int)
    ensures DueReminders(reminders + [rem], now) ==
      DueReminders(reminders, now) + (if IsDue(rem, now) then [rem] else [])
  {
    var p := (r: Reminder) => IsDue(r, now);
    Seqs.FilterConcat(reminders, [rem], p);
    assert Seqs.Filter([rem], p) == (if p(rem) then [rem] else []) + Seqs.Filter([], p);
  }

  /**
   * The due list keeps stored order: the due reminders of a stored prefix
   * come before those of the rest.
   */
  lemma DueSplit(a: seq<Reminder>, b: seq<Reminder>, now: int)
    ensures DueReminders(a + b, now) == DueReminders(a, now) + DueReminders(b, now)
  {
    Seqs.FilterConcat(a, b, (r: Reminder) => IsDue(r, now));
  }

  /** A reminder is listed as many times as it is stored, when it is due, and never otherwise. */
  lemma DueCount(reminders: seq<Reminder>, now: int)
    ensures forall rem ::
      multiset(DueReminders(reminders, now))[rem] == (if IsDue(rem, now) then multiset(reminders)[rem] else 0)
  {
    Seqs.FilterMultiset(reminders, (r: Reminder) => IsDue(r, now));
  }
}
