/**
 * The browser client's local store (preppal/frontend/assets/app.js): the
 * `notes`, `cards` and `timeline` collections kept under `localStorage` keys
 * and rewritten whole on every change, together with the id of the note open
 * in the editor.  Fresh ids (`crypto.randomUUID()`) and timestamps are
 * parameters.
 */
module Notes {
  import opened Wrappers
  import opened Text
  import Seqs
  import QAExtract

  datatype Version = Version(id: string, at: string, body: string)

  datatype Note = Note(
    id: string, recordingId: Option<string>, title: string, body: string, tags: seq<string>,
    pinned: bool, createdAt: string, updatedAt: string, versions: seq<Version>)

  /** A flashcard; `noteId` is absent for cards built from recordings. */
  datatype Card = Card(id: string, q: string, a: string, noteId: Option<string>, recordingId: Option<string>)

  /** A timeline entry (`caption` is its `label`); `time` is the instant its `when` string (the server's `next_review_at`) denotes. */
  datatype TimelineItem = TimelineItem(id: string, time: int, caption: string, createdAt: string)

  const MaxVersions := 20

  /** JavaScript `x || null` on an optional string: the empty string counts as absent. */
  function OrNull(x: Option<string>): (r: Option<string>)
    ensures r.Some? ==> r == x && r.value != ""
    ensures x.Some? && x.value != "" ==> r == x
  {
    if x == Some("") then None else x
  }

  // ---------------------------------------------------------------------
  // Versions and tags

  /**
   * `snapshot`: appends a version holding the note's current body and keeps
   * the newest `MaxVersions` entries.
   */
  function Snapshot(note: Note, versionId: string, at: string): (r: Note)
    ensures r == note.(versions := r.versions) && |r.versions| <= MaxVersions
    ensures |r.versions| == if |note.versions| < MaxVersions then |note.versions| + 1 else MaxVersions
    ensures r.versions[|r.versions| - 1] == Version(versionId, at, note.body)
    ensures r.versions[..|r.versions| - 1] == note.versions[|note.versions| + 1 - |r.versions|..]
  {
    var all := note.versions + [Version(versionId, at, note.body)];
    note.(versions := if |all| > MaxVersions then all[|all| - MaxVersions..] else all)
  }

  /** Under the cap, a snapshot drops nothing. */
  lemma SnapshotKeepsAll(note: Note, versionId: string, at: string)
    requires |note.versions| < MaxVersions
    ensures Snapshot(note, versionId, at).versions == note.versions + [Version(versionId, at, note.body)]
  {
    var r := Snapshot(note, versionId, at).versions;
    assert r[..|r| - 1] == note.versions;
    assert r == r[..|r| - 1] + [r[|r| - 1]];
  }

  /** `parseTags`: the comma-separated entries, trimmed, empty ones dropped, in order. */
  function ParseTags(s: string): (tags: seq<string>)
    ensures forall i :: 0 <= i < |tags| ==> IsTag(tags[i])
  {
    TrimmedPieces(s, ',', IsJsSpace)
  }

  /** What `parseTags` can produce: non-empty, trimmed, without a comma. */
  predicate IsTag(t: string) {
    t != [] && IsTrimmed(t, IsJsSpace) && ',' !in t
  }

  /** How the editor shows a note's tags: `tags.join(', ')`. */
  function ShowTags(tags: seq<string>): string
    decreases |tags|
  {
    if tags == [] then ""
    else if |tags| == 1 then tags[0]
    else tags[0] + ", " + ShowTags(tags[1..])
  }

  /** Opening a note and saving it again gives back its tags. */
  lemma {:induction false} TagsRoundTrip(tags: seq<string>)
    requires forall i :: 0 <= i < |tags| ==> IsTag(tags[i])
    ensures ParseTags(ShowTags(tags)) == tags
    decreases |tags|
  {
    if tags == [] {
      ParseTagsEmpty();
    } else if |tags| == 1 {
      ParseTagsSingle(tags[0]);
    } else {
      var rest := tags[1..];
      assert tags == [tags[0]] + rest;
      assert forall i :: 0 <= i < |rest| ==> rest[i] == tags[i + 1];
      TagsRoundTrip(rest);
      assert ShowTags(tags) == tags[0] + ", " + ShowTags(rest);
      ParseTagsCons(tags[0], ShowTags(rest));
    }
  }

  lemma ParseTagsEmpty()
    ensures ParseTags("") == []
  {
    assert Split("", ',') == [""];
    assert Trim("", IsJsSpace) == "";
    assert KeepTrimmed([""], IsJsSpace) == [] + KeepTrimmed([], IsJsSpace);
  }

  lemma ParseTagsSingle(t: string)
    requires IsTag(t)
    ensures ParseTags(t) == [t]
  {
    TrimmedPiecesSingle(t, ',', IsJsSpace);
  }

  lemma ParseTagsCons(t: string, rest: string)
    requires IsTag(t)
    ensures ParseTags(t + ", " + rest) == [t] + ParseTags(rest)
  {
    assert t + ", " + rest == t + [','] + ([' '] + rest);
    TrimmedPiecesCons(t, [' '] + rest, ',', IsJsSpace);
    TrimmedPiecesSkip(' ', rest, ',', IsJsSpace);
  }

  // ---------------------------------------------------------------------
  // Notes

  /** The first index of a note with this id (`find` / `findIndex`). */
  function FindNote(notes: seq<Note>, id: string): (r: Option<nat>)
    ensures r.Some? ==> r.value < |notes| && notes[r.value].id == id
    ensures r.Some? ==> forall j :: 0 <= j < r.value ==> notes[j].id != id
    ensures r.None? ==> forall j :: 0 <= j < |notes| ==> notes[j].id != id
  {
    if notes == [] then None
    else if notes[0].id == id then Some(0)
    else match FindNote(notes[1..], id)
      case None => None
      case Some(k) => Some(k + 1)
  }

  /** A note created by `saveNote`: its only version holds its body. */
  function NewNote(id: string, recording: Option<string>, title: string, body: string, tags: seq<string>,
                   pinned: bool, now: string, versionId: string, versionAt: string): (n: Note)
    ensures n.id == id && n.recordingId == OrNull(recording)
    ensures n.title == title && n.body == body && n.tags == tags && n.pinned == pinned
    ensures n.createdAt == now && n.updatedAt == now
    ensures n.versions == [Version(versionId, versionAt, body)]
  {
    Snapshot(Note(id, OrNull(recording), title, body, tags, pinned, now, now, []), versionId, versionAt)
  }

  /** An edit of `prev` by `saveNote`: identity, creation time and recording are kept. */
  function EditedNote(prev: Note, title: string, body: string, tags: seq<string>, pinned: bool,
                      now: string, versionId: string, versionAt: string): (n: Note)
    ensures n.id == prev.id && n.createdAt == prev.createdAt && n.recordingId == prev.recordingId
    ensures n.title == title && n.body == body && n.tags == tags && n.pinned == pinned && n.updatedAt == now
    ensures |n.versions| == if |prev.versions| < MaxVersions then |prev.versions| + 1 else MaxVersions
    ensures n.versions[|n.versions| - 1] == Version(versionId, versionAt, body)
    ensures n.versions[..|n.versions| - 1] == prev.versions[|prev.versions| + 1 - |n.versions|..]
  {
    Snapshot(prev.(title := title, body := body, tags := tags, pinned := pinned, updatedAt := now), versionId, versionAt)
  }

  function NoteIsNot(id: string): Note -> bool { (n: Note) => n.id != id }

  // ---------------------------------------------------------------------
  // Cards

  function CardOf(id: string): Card -> bool { (c: Card) => c.noteId == Some(id) }

  function CardNotOf(id: string): Card -> bool { (c: Card) => c.noteId != Some(id) }

  function CardQA(c: Card): QAExtract.QA { QAExtract.QA(c.q, c.a) }

  /** The cards made from a note's pairs, the k-th with the fresh id `cardId(k)`. */
  function NoteCards(pairs: seq<QAExtract.QA>, note: Note, cardId: nat -> string): (r: seq<Card>)
    ensures |r| == |pairs|
    ensures forall i :: 0 <= i < |r| ==> r[i] == Card(cardId(i), pairs[i].q, pairs[i].a, Some(note.id), OrNull(note.recordingId))
  {
    seq(|pairs|, i requires 0 <= i < |pairs| =>
      Card(cardId(i), pairs[i].q, pairs[i].a, Some(note.id), OrNull(note.recordingId)))
  }

  lemma NoteCardsSnoc(pairs: seq<QAExtract.QA>, i: nat, note: Note, cardId: nat -> string)
    requires i < |pairs|
    ensures NoteCards(pairs[..i + 1], note, cardId) ==
      NoteCards(pairs[..i], note, cardId) + [Card(cardId(i), pairs[i].q, pairs[i].a, Some(note.id), OrNull(note.recordingId))]
  {
  }

  /** `updateCardsForNote`: this note's old cards are dropped and its extracted pairs appended. */
  function RebuildCards(cards: seq<Card>, note: Note, cardId: nat -> string): seq<Card> {
    Seqs.Filter(cards, CardNotOf(note.id)) + NoteCards(QAExtract.QAPairs(note.body), note, cardId)
  }

  /** Cards of other notes, and cards of no note, are untouched and keep their order. */
  lemma RebuildKeepsOthers(cards: seq<Card>, note: Note, cardId: nat -> string)
    ensures Seqs.Filter(RebuildCards(cards, note, cardId), CardNotOf(note.id)) == Seqs.Filter(cards, CardNotOf(note.id))
  {
    var kept := Seqs.Filter(cards, CardNotOf(note.id));
    var made := NoteCards(QAExtract.QAPairs(note.body), note, cardId);
    Seqs.FilterConcat(kept, made, CardNotOf(note.id));
    Seqs.FilterImplied(cards, CardNotOf(note.id), CardNotOf(note.id));
    Seqs.FilterNone(made, CardNotOf(note.id));
    assert Seqs.Filter(kept, CardNotOf(note.id)) + [] == kept;
  }

  /** In particular the cards of every other note are exactly what they were. */
  lemma RebuildKeepsOtherNote(cards: seq<Card>, note: Note, cardId: nat -> string, other: string)
    requires other != note.id
    ensures Seqs.Filter(RebuildCards(cards, note, cardId), CardOf(other)) == Seqs.Filter(cards, CardOf(other))
  {
    var kept := Seqs.Filter(cards, CardNotOf(note.id));
    var made := NoteCards(QAExtract.QAPairs(note.body), note, cardId);
    Seqs.FilterConcat(kept, made, CardOf(other));
    Seqs.FilterImplied(cards, CardNotOf(note.id), CardOf(other));
    Seqs.FilterNone(made, CardOf(other));
    assert Seqs.Filter(kept, CardOf(other)) + [] == Seqs.Filter(kept, CardOf(other));
  }

  /** This note's cards become exactly its extracted pairs, in order (possibly none). */
  lemma RebuildThisNote(cards: seq<Card>, note: Note, cardId: nat -> string)
    ensures Seqs.Map(Seqs.Filter(RebuildCards(cards, note, cardId), CardOf(note.id)), CardQA) == QAExtract.QAPairs(note.body)
  {
    var kept := Seqs.Filter(cards, CardNotOf(note.id));
    var pairs := QAExtract.QAPairs(note.body);
    var made := NoteCards(pairs, note, cardId);
    Seqs.FilterConcat(kept, made, CardOf(note.id));
    Seqs.FilterDisjoint(cards, CardNotOf(note.id), CardOf(note.id));
    Seqs.FilterAll(made, CardOf(note.id));
    assert [] + made == made;
    assert Seqs.Map(made, CardQA) == pairs;
  }

  /** Rebuilding twice is rebuilding once with the second batch of ids. */
  lemma RebuildTwice(cards: seq<Card>, note: Note, id1: nat -> string, id2: nat -> string)
    ensures RebuildCards(RebuildCards(cards, note, id1), note, id2) == RebuildCards(cards, note, id2)
  {
    RebuildKeepsOthers(cards, note, id1);
  }

  // ---------------------------------------------------------------------
  // Timeline

  predicate SortedByWhen(s: seq<TimelineItem>) {
    forall i, j :: 0 <= i < j < |s| ==> s[i].time <= s[j].time
  }

  /** Places `x` before the first entry strictly later than it (after entries at the same instant). */
  function InsertByWhen(s: seq<TimelineItem>, x: TimelineItem): (r: seq<TimelineItem>)
    ensures |r| == |s| + 1
  {
    if s == [] || x.time < s[0].time then [x] + s else [s[0]] + InsertByWhen(s[1..], x)
  }

  /** How many leading entries `InsertByWhen` passes over. */
  function InsertPos(s: seq<TimelineItem>, x: TimelineItem): (k: nat)
    ensures k <= |s|
  {
    if s == [] || x.time < s[0].time then 0 else 1 + InsertPos(s[1..], x)
  }

  lemma {:induction false} InsertSplit(s: seq<TimelineItem>, x: TimelineItem)
    ensures InsertByWhen(s, x) == s[..InsertPos(s, x)] + [x] + s[InsertPos(s, x)..]
  {
    if s != [] && x.time >= s[0].time {
      InsertSplit(s[1..], x);
      var k := InsertPos(s[1..], x);
      assert s[..k + 1] == [s[0]] + s[1..][..k];
      assert s[k + 1..] == s[1..][k..];
    }
  }

  /** In a sorted list the insertion point separates the entries up to `x` from the later ones. */
  lemma {:induction false} InsertPosBounds(s: seq<TimelineItem>, x: TimelineItem)
    requires SortedByWhen(s)
    ensures forall i :: 0 <= i < InsertPos(s, x) ==> s[i].time <= x.time
    ensures forall i :: InsertPos(s, x) <= i < |s| ==> x.time < s[i].time
  {
    if s != [] && x.time >= s[0].time {
      InsertPosBounds(s[1..], x);
    }
  }

  /**
   * Inserting into a sorted timeline keeps it sorted, adds exactly `x`, and
   * puts `x` after every entry at the same or an earlier instant.
   */
  lemma InsertByWhenSorted(s: seq<TimelineItem>, x: TimelineItem)
    requires SortedByWhen(s)
    ensures SortedByWhen(InsertByWhen(s, x))
    ensures multiset(InsertByWhen(s, x)) == multiset(s) + multiset{x}
    ensures var k := InsertPos(s, x);
      InsertByWhen(s, x)[k] == x &&
      (forall i :: 0 <= i < k ==> s[i].time <= x.time) && (forall i :: k <= i < |s| ==> x.time < s[i].time)
  {
    InsertSplit(s, x);
    InsertPosBounds(s, x);
    var k := InsertPos(s, x);
    SortedSplice(s, k, x);
    SpliceMultiset(s, k, x);
  }

  lemma SortedSplice(s: seq<TimelineItem>, k: nat, x: TimelineItem)
    requires SortedByWhen(s) && k <= |s|
    requires forall i :: 0 <= i < k ==> s[i].time <= x.time
    requires forall i :: k <= i < |s| ==> x.time < s[i].time
    ensures SortedByWhen(s[..k] + [x] + s[k..])
  {
    var r := s[..k] + [x] + s[k..];
    assert forall i :: 0 <= i < |r| ==> r[i] == if i < k then s[i] else if i == k then x else s[i - 1];
  }

  lemma SpliceMultiset(s: seq<TimelineItem>, k: nat, x: TimelineItem)
    requires k <= |s|
    ensures multiset(s[..k] + [x] + s[k..]) == multiset(s) + multiset{x}
  {
    assert s == s[..k] + s[k..];
  }

  /** An entry no earlier than the whole list goes last. */
  lemma InsertAtEnd(s: seq<TimelineItem>, x: TimelineItem)
    requires forall i :: 0 <= i < |s| ==> s[i].time <= x.time
    ensures InsertByWhen(s, x) == s + [x]
  {
    InsertSplit(s, x);
    var k := InsertPos(s, x);
    if k < |s| {
      InsertPosAt(s, x);
    }
    assert s[..|s|] == s;
  }

  lemma {:induction false} InsertPosAt(s: seq<TimelineItem>, x: TimelineItem)
    requires InsertPos(s, x) < |s|
    ensures x.time < s[InsertPos(s, x)].time
  {
    if s != [] && x.time >= s[0].time {
      InsertPosAt(s[1..], x);
    }
  }

  /**
   * The engine's `sort` by `time`, as an insertion sort: `InsertByWhen`
   * places a later entry after the earlier ones at the same instant.
   */
  function SortByWhen(s: seq<TimelineItem>): seq<TimelineItem>
    decreases |s|
  {
    if s == [] then [] else InsertByWhen(SortByWhen(s[..|s| - 1]), s[|s| - 1])
  }

  lemma {:induction false} SortByWhenSorted(s: seq<TimelineItem>)
    ensures SortedByWhen(SortByWhen(s))
    ensures multiset(SortByWhen(s)) == multiset(s)
    decreases |s|
  {
    if s != [] {
      var init := s[..|s| - 1];
      assert s == init + [s[|s| - 1]];
      SortByWhenSorted(init);
      InsertByWhenSorted(SortByWhen(init), s[|s| - 1]);
    }
  }

  /** Sorting a sorted timeline changes nothing. */
  lemma {:induction false} SortByWhenOfSorted(s: seq<TimelineItem>)
    requires SortedByWhen(s)
    ensures SortByWhen(s) == s
    decreases |s|
  {
    if s != [] {
      var init := s[..|s| - 1];
      assert SortedByWhen(init);
      SortByWhenOfSorted(init);
      InsertAtEnd(init, s[|s| - 1]);
      assert init + [s[|s| - 1]] == s;
    }
  }

  /**
   * `push` then `sort` on a sorted timeline is one insertion: the timeline
   * grows by one entry, stays sorted and otherwise keeps its entries.
   */
  lemma PushSort(s: seq<TimelineItem>, x: TimelineItem)
    requires SortedByWhen(s)
    ensures SortByWhen(s + [x]) == InsertByWhen(s, x)
    ensures |SortByWhen(s + [x])| == |s| + 1
    ensures SortedByWhen(SortByWhen(s + [x]))
    ensures multiset(SortByWhen(s + [x])) == multiset(s) + multiset{x}
  {
    assert (s + [x])[..|s|] == s;
    SortByWhenOfSorted(s);
    InsertByWhenSorted(s, x);
  }

  function ItemIsNot(id: string): TimelineItem -> bool { (t: TimelineItem) => t.id != id }

  /** Removing entries keeps the timeline sorted. */
  lemma {:induction false} FilterSorted(s: seq<TimelineItem>, p: TimelineItem -> bool)
    requires SortedByWhen(s)
    ensures SortedByWhen(Seqs.Filter(s, p))
    decreases |s|
  {
    if s != [] {
      var rest := Seqs.Filter(s[1..], p);
      FilterSorted(s[1..], p);
      if p(s[0]) {
        assert Seqs.Filter(s, p) == [s[0]] + rest;
        forall y | y in rest ensures s[0].time <= y.time {
          assert y in s[1..];
        }
        SortedCons(s[0], rest);
      } else {
        assert Seqs.Filter(s, p) == rest;
      }
    }
  }

  /** An entry no later than any of a sorted timeline can go in front of it. */
  lemma SortedCons(x: TimelineItem, rest: seq<TimelineItem>)
    requires SortedByWhen(rest)
    requires forall y :: y in rest ==> x.time <= y.time
    ensures SortedByWhen([x] + rest)
  {
    var r := [x] + rest;
    forall i, j | 0 <= i < j < |r| ensures r[i].time <= r[j].time {
      assert r[j] == rest[j - 1];
      if i > 0 {
        assert r[i] == rest[i - 1];
      }
    }
  }

  // ---------------------------------------------------------------------
  // The store

  datatype SaveOutcome = Skipped | Created | Updated | NotFound

  datatype DeleteOutcome = Deleted | NoSuchNote | Cancelled

  class LocalStore {
    var notes: seq<Note>
    var cards: seq<Card>
    var timeline: seq<TimelineItem>
    /** `Note.currentId`: the note open in the editor, if any. */
    var currentNote: Option<string>

    /** The timeline is kept sorted by time and no two notes share an id. */
    predicate Valid()
      reads this
    {
      SortedByWhen(timeline) && UniqueIds(notes)
    }

    constructor()
      ensures notes == [] && cards == [] && timeline == [] && currentNote == None
      ensures Valid()
    {
      notes := [];
      cards := [];
      timeline := [];
      currentNote := None;
    }

    /**
     * `saveNote` on the editor's fields: the title is trimmed and the tags
     * field parsed, then `SaveFields` does the rest.
     */
    method SaveNote(titleInput: string, body: string, tagsInput: string, pinned: bool, now: string,
                    newId: string, versionId: string, versionAt: string, recording: Option<string>,
                    cardId: nat -> string) returns (outcome: SaveOutcome)
      modifies this
      ensures outcome == Skipped <==> JsTrim(titleInput) == [] && body == []
      ensures outcome == Created <==> outcome != Skipped && old(currentNote).None?
      ensures outcome == NotFound <==>
        outcome != Skipped && old(currentNote).Some? && FindNote(old(notes), old(currentNote).value).None?
      ensures outcome == Skipped || outcome == NotFound ==>
        notes == old(notes) && cards == old(cards) && timeline == old(timeline) && currentNote == old(currentNote)
      ensures outcome == Created ==>
        var n := NewNote(newId, recording, JsTrim(titleInput), body, ParseTags(tagsInput), pinned, now, versionId, versionAt);
        notes == [n] + old(notes) && cards == RebuildCards(old(cards), n, cardId) &&
        timeline == old(timeline) && currentNote == Some(newId)
      ensures outcome == Updated ==>
        var k := FindNote(old(notes), old(currentNote).value).value;
        var n := EditedNote(old(notes)[k], JsTrim(titleInput), body, ParseTags(tagsInput), pinned, now, versionId, versionAt);
        notes == old(notes)[k := n] && cards == RebuildCards(old(cards), n, cardId) &&
        timeline == old(timeline) && currentNote == old(currentNote)
      ensures old(Valid()) && FindNote(old(notes), newId).None? ==> Valid()
    {
      outcome := SaveFields(JsTrim(titleInput), body, ParseTags(tagsInput), pinned, now, newId, versionId, versionAt, recording, cardId);
    }

    /**
     * The body of `saveNote` once the fields are read: nothing happens when
     * the title and the body are both empty; with no open note a new note is
     * put first and opened; otherwise the open note is replaced where it
     * stands, or nothing happens when it no longer exists.  Either save
     * rebuilds that note's cards.
     */
    method SaveFields(title: string, body: string, tags: seq<string>, pinned: bool, now: string,
                      newId: string, versionId: string, versionAt: string, recording: Option<string>,
                      cardId: nat -> string) returns (outcome: SaveOutcome)
      modifies this
      ensures outcome == Skipped <==> title == [] && body == []
      ensures outcome == Created <==> outcome != Skipped && old(currentNote).None?
      ensures outcome == NotFound <==>
        outcome != Skipped && old(currentNote).Some? && FindNote(old(notes), old(currentNote).value).None?
      ensures outcome == Skipped || outcome == NotFound ==>
        notes == old(notes) && cards == old(cards) && timeline == old(timeline) && currentNote == old(currentNote)
      ensures outcome == Created ==>
        var n := NewNote(newId, recording, title, body, tags, pinned, now, versionId, versionAt);
        notes == [n] + old(notes) && cards == RebuildCards(old(cards), n, cardId) &&
        timeline == old(timeline) && currentNote == Some(newId)
      ensures outcome == Updated ==>
        var k := FindNote(old(notes), old(currentNote).value).value;
        var n := EditedNote(old(notes)[k], title, body, tags, pinned, now, versionId, versionAt);
        notes == old(notes)[k := n] && cards == RebuildCards(old(cards), n, cardId) &&
        timeline == old(timeline) && currentNote == old(currentNote)
      ensures old(Valid()) && FindNote(old(notes), newId).None? ==> Valid()
    {
      if title == [] && body == [] {
        return Skipped;
      }
      if currentNote.None? {
        var n := NewNote(newId, recording, title, body, tags, pinned, now, versionId, versionAt);
        if Valid() {
          SaveKeepsIdsUnique(notes, n, 0);
        }
        PutFirst(n, cardId);
        return Created;
      }
      var found := FindNote(notes, currentNote.value);
      if found.None? {
        return NotFound;
      }
      var k := found.value;
      var n := EditedNote(notes[k], title, body, tags, pinned, now, versionId, versionAt);
      if Valid() {
        SaveKeepsIdsUnique(notes, n, k);
      }
      PutAt(k, n, cardId);
      return Updated;
    }

    /** A created note goes in front of the others, is opened, and gets its cards. */
    method PutFirst(n: Note, cardId: nat -> string)
      modifies this
      ensures notes == [n] + old(notes) && cards == RebuildCards(old(cards), n, cardId)
      ensures timeline == old(timeline) && currentNote == Some(n.id)
    {
      notes := [n] + notes;
      currentNote := Some(n.id);
      UpdateCardsForNote(n, cardId);
    }

    /** An edited note replaces the one at position `k`, and its cards are rebuilt. */
    method PutAt(k: nat, n: Note, cardId: nat -> string)
      requires k < |notes|
      modifies this
      ensures notes == old(notes)[k := n] && cards == RebuildCards(old(cards), n, cardId)
      ensures timeline == old(timeline) && currentNote == old(currentNote)
    {
      notes := notes[k := n];
      UpdateCardsForNote(n, cardId);
    }

    /**
     * `deleteNote`: an unknown id, or a declined confirmation, changes
     * nothing; otherwise the note and all of its cards are removed, and the
     * editor is cleared when it showed that note.
     */
    method DeleteNote(id: string, confirmed: bool) returns (outcome: DeleteOutcome)
      modifies this
      ensures outcome == NoSuchNote <==> FindNote(old(notes), id).None?
      ensures outcome == Cancelled <==> FindNote(old(notes), id).Some? && !confirmed
      ensures outcome != Deleted ==>
        notes == old(notes) && cards == old(cards) && timeline == old(timeline) && currentNote == old(currentNote)
      ensures outcome == Deleted ==>
        notes == Seqs.Filter(old(notes), NoteIsNot(id)) && cards == Seqs.Filter(old(cards), CardNotOf(id)) &&
        timeline == old(timeline) &&
        currentNote == if old(currentNote) == Some(id) then None else old(currentNote)
      ensures old(Valid()) ==> Valid()
    {
      if FindNote(notes, id).None? {
        return NoSuchNote;
      }
      if !confirmed {
        return Cancelled;
      }
      if Valid() {
        DeleteKeepsIdsUnique(notes, id);
      }
      notes := Seqs.Filter(notes, NoteIsNot(id));
      cards := Seqs.Filter(cards, CardNotOf(id));
      if currentNote == Some(id) {
        currentNote := None;
      }
      return Deleted;
    }

    /** `updateCardsForNote`: drop the note's cards, then push one card per extracted pair. */
    method UpdateCardsForNote(note: Note, cardId: nat -> string)
      modifies this
      ensures cards == RebuildCards(old(cards), note, cardId)
      ensures notes == old(notes) && timeline == old(timeline) && currentNote == old(currentNote)
    {
      var qa := QAExtract.ExtractQA(note.body);
      cards := Seqs.Filter(cards, CardNotOf(note.id));
      PushCards(qa, note, cardId);
    }

    /** The `forEach` that pushes one card per pair. */
    method PushCards(qa: seq<QAExtract.QA>, note: Note, cardId: nat -> string)
      modifies this
      ensures cards == old(cards) + NoteCards(qa, note, cardId)
      ensures notes == old(notes) && timeline == old(timeline) && currentNote == old(currentNote)
    {
      var i := 0;
      while i < |qa|
        invariant 0 <= i <= |qa|
        invariant cards == old(cards) + NoteCards(qa[..i], note, cardId)
        invariant notes == old(notes) && timeline == old(timeline) && currentNote == old(currentNote)
      {
        cards := cards + [Card(cardId(i), qa[i].q, qa[i].a, Some(note.id), OrNull(note.recordingId))];
        NoteCardsSnoc(qa, i, note, cardId);
        i := i + 1;
      }
      assert qa[..|qa|] == qa;
    }

    /** `addTimelineItemFromNext`: push an entry (caption defaulting to "Review") and sort by `time`. */
    method AddTimelineItem(id: string, time: int, caption: string, createdAt: string)
      modifies this
      ensures timeline == SortByWhen(old(timeline) + [TimelineItem(id, time, if caption == "" then "Review" else caption, createdAt)])
      ensures notes == old(notes) && cards == old(cards) && currentNote == old(currentNote)
      ensures old(Valid()) ==> Valid()
    {
      var item := TimelineItem(id, time, if caption == "" then "Review" else caption, createdAt);
      SortByWhenSorted(timeline + [item]);
      timeline := SortByWhen(timeline + [item]);
    }

    /** The timeline's "Done" button: every entry with this id is removed. */
    method MarkTimelineDone(id: string)
      modifies this
      ensures timeline == Seqs.Filter(old(timeline), ItemIsNot(id))
      ensures notes == old(notes) && cards == old(cards) && currentNote == old(currentNote)
      ensures old(Valid()) ==> Valid()
    {
      if Valid() {
        FilterSorted(timeline, ItemIsNot(id));
      }
      timeline := Seqs.Filter(timeline, ItemIsNot(id));
    }
  }

  /** The client's timeline is always sorted: both timeline operations keep it so. */
  lemma TimelineStaysSorted(s: seq<TimelineItem>, x: TimelineItem, id: string)
    requires SortedByWhen(s)
    ensures SortedByWhen(SortByWhen(s + [x]))
    ensures SortedByWhen(Seqs.Filter(s, ItemIsNot(id)))
  {
    PushSort(s, x);
    FilterSorted(s, ItemIsNot(id));
  }

  /** Deleting a note leaves the cards of every other note exactly as they were. */
  lemma DeleteKeepsOtherCards(cards: seq<Card>, id: string, other: string)
    requires other != id
    ensures Seqs.Filter(Seqs.Filter(cards, CardNotOf(id)), CardOf(other)) == Seqs.Filter(cards, CardOf(other))
  {
    Seqs.FilterImplied(cards, CardNotOf(id), CardOf(other));
  }

  /** No two notes share an id. */
  predicate UniqueIds(notes: seq<Note>) {
    forall i, j :: 0 <= i < j < |notes| ==> notes[i].id != notes[j].id
  }

  /**
   * Ids stay unique: a created note has a fresh id, an edit keeps the id of
   * the note it replaces, and a delete only removes notes.
   */
  lemma SaveKeepsIdsUnique(notes: seq<Note>, n: Note, k: nat)
    requires UniqueIds(notes)
    ensures FindNote(notes, n.id).None? ==> UniqueIds([n] + notes)
    ensures k < |notes| && n.id == notes[k].id ==> UniqueIds(notes[k := n])
  {
    if FindNote(notes, n.id).None? {
      var r := [n] + notes;
      forall i, j | 0 <= i < j < |r| ensures r[i].id != r[j].id {
        assert r[j] == notes[j - 1];
        if i > 0 {
          assert r[i] == notes[i - 1];
        }
      }
    }
  }

  lemma {:induction false} DeleteKeepsIdsUnique(notes: seq<Note>, id: string)
    requires UniqueIds(notes)
    ensures UniqueIds(Seqs.Filter(notes, NoteIsNot(id)))
    decreases |notes|
  {
    if notes != [] {
      var p := NoteIsNot(id);
      var rest := Seqs.Filter(notes[1..], p);
      DeleteKeepsIdsUnique(notes[1..], id);
      if p(notes[0]) {
        assert Seqs.Filter(notes, p) == [notes[0]] + rest;
        forall m | m in rest ensures m.id != notes[0].id {
          var j :| 0 <= j < |notes[1..]| && notes[1..][j] == m;
          assert notes[j + 1] == m;
        }
        UniqueCons(notes[0], rest);
      } else {
        assert Seqs.Filter(notes, p) == rest;
      }
    }
  }

  lemma UniqueCons(n: Note, rest: seq<Note>)
    requires UniqueIds(rest)
    requires forall m :: m in rest ==> m.id != n.id
    ensures UniqueIds([n] + rest)
  {
    var r := [n] + rest;
    forall i, j | 0 <= i < j < |r| ensures r[i].id != r[j].id {
      assert r[j] == rest[j - 1];
      if i > 0 {
        assert r[i] == rest[i - 1];
      }
    }
  }

  /** After a delete no note with that id and no card of it remains, and every other one does. */
  lemma DeleteRemovesExactly(notes: seq<Note>, cards: seq<Card>, id: string)
    ensures forall n :: n in Seqs.Filter(notes, NoteIsNot(id)) <==> n in notes && n.id != id
    ensures forall c :: c in Seqs.Filter(cards, CardNotOf(id)) <==> c in cards && c.noteId != Some(id)
  {
  }
}
