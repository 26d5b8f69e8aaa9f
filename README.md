# PrepPal core, modelled in Dafny

PrepPal records a lecture or a meeting, has it transcribed and summarised by
a Python backend, and turns the summaries into notes and flashcards in a
browser client. This project models the parts of PrepPal that decide what is
stored and what is computed. It proves what those parts promise.

- **The browser client's local store**
  (`preppal/frontend/assets/app.js`), in `notes.dfy`. This is the `notes`,
  `cards` and `timeline` collections that `localStorage` keeps, read and
  rewritten whole on every change, together with the id of the note open in
  the editor. The class `Notes.LocalStore` holds them. Its methods are
  `saveNote` with its version `snapshot` and `parseTags`, the cascading
  `deleteNote`, and the per-note deck rebuild `updateCardsForNote`. They also
  cover timeline insertion (push, then sort by time) and the
  timeline's "Done" removal.
- **The flashcard extractor `extractQA`**, in `extract_qa.dfy`. This is a
  line scanner over question markers (`Q`, `質問`, `設問`) and answer
  markers (`A`, `回答`, `解答`). It is optionally narrowed to the `復習用Q&A`
  section of a summary.
- **The flashcard session `QUIZ`**, in `quiz.dfy`: start, flip, and the
  wrapping "Next" button.
- **The editor's selection helpers** `surroundSelection` and
  `insertAtCursor`, in `editor.dfy`. They are pure transforms of a
  textarea's value and selection.
- **The backend's in-memory store** (`preppal/backend/storage.py`), in
  `storage.dfy`. The class `Storage.Store` holds the recordings (newest
  first) and the reminders (oldest first). Only the effective definitions
  are modelled: the functions redefined later in that file and the
  `RECORDS = []` rebinding.
- **The decision logic of the HTTP endpoints**
  (`preppal/backend/main.py`), in `endpoints.dfy`. This covers the
  review-interval rule of `add_reminder`, title validation, the highlight
  lines and conditional summary replacement of `resummarize_from_text`, and
  the empty-text guard of `tts_summary`.
- **The summariser's deterministic paths**
  (`preppal/backend/summarizer.py`), in `summarizer.dfy`. These are the
  Japanese sentence splitter `split_sentences_ja`, the no-model fallback of
  `summarize`, and `make_weighted_summary`. The language-model call is a
  parameter `ModelReply`: no model configured, an answer, or an exception.
  So the branches around the call are still modelled.

Shared pieces:
- `text.dfy` gives the string primitives with the exact white-space classes
  of the two runtimes. JavaScript `trim` and `\s` use `IsJsSpace`. Python
  `strip` and `str.isspace` use `IsPySpace`.
- `seqs.dfy` gives `map` and `filter` on sequences.
- `wrappers.dfy` gives `Option`.

Fresh ids (`crypto.randomUUID()`, `uuid4()`) and clocks are parameters.
The k-th card made by one rebuild gets the id `cardId(k)`. Backend instants
are integers in microseconds, at which `datetime` arithmetic is exact. The
goal date of a reminder arrives already parsed.

The model follows the code, including where it behaves in ways a reader
might not expect:
- **"Next" on the last card.** It wraps to the first card with a notice.
  It does not clamp.
- **Deleting an unknown note.** The existence check comes before the
  confirmation, so an unknown id is reported as such before the user is
  asked anything.
- **Saving an edit whose note has disappeared.** The save changes nothing
  and reports it (`NotFound`). It raises no error.
- **A card made from a note** carries both a note id and the note's
  recording id (or null when it has none). It does not carry exactly one
  back-reference.
- **Starting a quiz** uses the deck in the order given. The source's
  shuffle is a random comparator, which is not a uniform permutation.

## Model

| member | source | states |
|---|---|---|
| Text.Trim | preppal/frontend/assets/app.js:697 | the result is a contiguous slice of the input with only white space before and after it, has no white space at either end, and is empty exactly when the input is all white space |
| Text.TrimMiddle | preppal/frontend/assets/app.js:697 | white space around a trimmed string is exactly what trimming removes |
| Text.TrimOfTrimmed | preppal/frontend/assets/app.js:697 | trimming a trimmed string changes nothing |
| Text.Split | preppal/frontend/assets/app.js:697 | a split always yields at least one piece and no piece holds the separator |
| Text.JoinSplit | preppal/frontend/assets/app.js:697 | joining the pieces of a split with the separator gives back the string |
| Text.SplitJoin | preppal/frontend/assets/app.js:682 | splitting a join of separator-free parts gives back the parts |
| Text.TrimmedPieces | preppal/frontend/assets/app.js:697 | every piece of `split(sep).map(trim).filter(Boolean)` is non-empty, trimmed and separator-free |
| Text.KeepTrimmedIsMapFilter | preppal/backend/main.py:191 | the one-pass trim-and-drop equals trimming every piece and then dropping the empty ones |
| Text.NormalizeNewlines | preppal/backend/summarizer.py:57 | never longer, adds no character, and leaves a text without a carriage return unchanged |
| Text.NormalizeDropsCr | preppal/backend/summarizer.py:57 | replacing CRLF by LF drops each carriage return that a line feed follows and keeps every other character, in order |
| Text.IndexFrom | preppal/frontend/assets/app.js:916 | the first occurrence of the pattern at or after the start, or none anywhere |
| Text.IndexOfHead | preppal/frontend/assets/app.js:916 | a pattern is found only where its first character occurs |
| Text.AsciiLower | preppal/backend/main.py:151 | same length; each of `A` to `Z` becomes its lower-case letter and every other character stays as it is |
| Text.AsciiLowerTrue | preppal/backend/main.py:151 | a string lowers to `true` exactly when it spells `true` in any mix of upper and lower case |
| Text.Take | preppal/backend/summarizer.py:58 | `s[:n]` is the prefix of length `min(n, len(s))` |
| QAExtract.AfterMarker | preppal/frontend/assets/app.js:926-927 | a capture is non-empty, trimmed and free of line terminators, and only exists when a colon follows the optional white space |
| QAExtract.AfterMarkerOf | preppal/frontend/assets/app.js:926-927 | optional white space, a half- or full-width colon, optional white space and a non-empty, trimmed, one-line text match, and the capture is that text |
| QAExtract.AfterMarkerOnly | preppal/frontend/assets/app.js:926-927 | every capture is the rest of the line after optional white space, a colon and optional white space, with only white space after it; with the one-line clause this rejects a bare colon and a capture across a line terminator, so with `AfterMarkerOf` the match holds exactly for such lines |
| QAExtract.MatchMarker | preppal/frontend/assets/app.js:926-927 | a marker match yields a non-empty text |
| QAExtract.MatchMarkerAt | preppal/frontend/assets/app.js:926-927 | the first marker the line starts with, when the rest matches, gives the capture |
| QAExtract.MatchMarkerNone | preppal/frontend/assets/app.js:926-927 | a line that no marker starts does not match |
| QAExtract.ClassifyQuestion | preppal/frontend/assets/app.js:926-934 | a question marker, optional white space, a colon, optional white space and a one-line text make a question line with that text |
| QAExtract.ClassifyAnswer | preppal/frontend/assets/app.js:926-943 | the same with an answer marker makes an answer line with that text: the question pattern fails on it |
| QAExtract.Classify | preppal/frontend/assets/app.js:930-937 | a line is a question exactly when the question pattern matches, which is tested first; a question or answer always carries a non-empty text |
| QAExtract.NextBreak | preppal/frontend/assets/app.js:919 | the first line break followed by a known heading, or none at all |
| QAExtract.ColonNextTrim | preppal/frontend/assets/app.js:919 | the lookahead `\s*[:：]` holds exactly when a colon is left after skipping white space |
| QAExtract.Section | preppal/frontend/assets/app.js:916-920 | with the marker present the section starts at the marker's first occurrence and ends just before the first line break that `follows` accepts, or at the end of the text when there is none; without the marker it is the whole text |
| QAExtract.ReviewTarget | preppal/frontend/assets/app.js:915-921 | the same for the `復習用Q&A` marker, cut before the first line break that begins a known heading and its colon |
| QAExtract.Finalize | preppal/frontend/assets/app.js:946-951 | no more pairs than before, every pair has both sides non-empty, and every pair that already had both sides is kept |
| QAExtract.QAPairs | preppal/frontend/assets/app.js:910-952 | every returned pair has a non-empty question and a non-empty answer |
| QAExtract.ExtractQA | preppal/frontend/assets/app.js:910-952 | the imperative extractor returns exactly `QAPairs` of its input |
| QAExtract.ScanLines | preppal/frontend/assets/app.js:929-944 | the scanning loop with its in-place answer update computes `Scan` |
| QAExtract.QuestionTexts | preppal/frontend/assets/app.js:931-934 | the texts of the question lines, in order, all non-empty |
| QAExtract.QAPairsOfBlank | preppal/frontend/assets/app.js:911-912 | empty or white-space-only input yields no pairs |
| QAExtract.ScanAppend | preppal/frontend/assets/app.js:930-944 | a question line opens a new pair; an answer line overwrites the latest pair's answer, or opens a pair with an empty question when there is none; any other line changes nothing |
| QAExtract.ScanHasSides | preppal/frontend/assets/app.js:929-947 | every scanned pair has at least one side, so finalisation drops none |
| QAExtract.ScanQuestions | preppal/frontend/assets/app.js:930-944 | the scanned questions are the question lines in order, possibly preceded by one empty question |
| QAExtract.FinalizeSided | preppal/frontend/assets/app.js:946-951 | pairs that all have a side keep their count and are only filled in: an empty question becomes the question placeholder, an empty answer the answer placeholder, and every other side stays |
| QAExtract.FinalizeQuestions | preppal/frontend/assets/app.js:946-951 | the finalised questions are the question lines, possibly preceded by the placeholder question |
| QAExtract.QAPairsQuestions | preppal/frontend/assets/app.js:910-952 | the result's questions are the question lines in order with at most one placeholder in front, so it has as many pairs as question lines or one more |
| QAExtract.ScanTwoPairs | preppal/frontend/assets/app.js:929-951 | question, answer, question and answer lines make exactly two complete pairs, in order |
| QAExtract.ScanOrphanAnswer | preppal/frontend/assets/app.js:938-951 | a lone answer line makes one pair with the placeholder question |
| QAExtract.PlainLines | preppal/frontend/assets/app.js:911-923 | a trimmed text with no carriage return and no review section is scanned whole, line by line |
| QAExtract.QuestionLine | preppal/frontend/assets/app.js:926-934 | a `質問：` line with a plain text is a question with that text |
| QAExtract.AnswerLine | preppal/frontend/assets/app.js:927-943 | a `回答：` line with a plain text is an answer with that text |
| QAExtract.MarkedLine | preppal/frontend/assets/app.js:923 | a marker followed by a plain text is a non-empty, trimmed line with no line break |
| QAExtract.JoinedPieces | preppal/frontend/assets/app.js:923 | trimmed lines joined by line breaks split, trim and filter back into the same lines |
| QAExtract.FourLines | preppal/frontend/assets/app.js:911-923 | four plain lines joined by line breaks are exactly the lines the scanner visits |
| QAExtract.TwoPairsLines | preppal/frontend/assets/app.js:911-923 | the four marked lines of a question, answer, question, answer text are the lines scanned |
| QAExtract.TwoPairsText | preppal/frontend/assets/app.js:910-952 | a text of `質問：`, `回答：`, `質問：` and `回答：` lines with plain texts yields exactly those two pairs |
| QAExtract.OrphanAnswerText | preppal/frontend/assets/app.js:910-952 | a text of one `回答：` line yields one pair, with the placeholder question |
| QAExtract.TwoPairsExample | preppal/frontend/assets/app.js:910-952 | a two-pair question/answer text yields exactly the pairs (Pとは何か？, 確率変数。) and (Qとは, 累積分布。) |
| QAExtract.OrphanAnswerExample | preppal/frontend/assets/app.js:910-952 | `回答：これは答えのみ。` yields the one pair ((質問が抽出できませんでした), これは答えのみ。) |
| QAExtract.ScanLoneQuestion | preppal/frontend/assets/app.js:929-951 | a lone question line makes one pair with the placeholder answer |
| QAExtract.LoneQuestionText | preppal/frontend/assets/app.js:910-952 | a text of one `質問：` line yields one pair, with the placeholder answer |
| QAExtract.LoneQuestionExample | preppal/frontend/assets/app.js:910-952 | `質問：Qとは` yields the one pair (Qとは, (回答が抽出できませんでした)) |
| Notes.OrNull | preppal/frontend/assets/app.js:861 | JavaScript's "or null" on an optional string keeps a non-empty string and never yields an empty one |
| Notes.Snapshot | preppal/frontend/assets/app.js:692-696 | only `versions` changes; it holds at most 20 entries; the last holds the current body; the others are the newest previous entries, in order |
| Notes.SnapshotKeepsAll | preppal/frontend/assets/app.js:695 | under the cap a snapshot appends and drops nothing |
| Notes.ParseTags | preppal/frontend/assets/app.js:697 | every tag is non-empty, trimmed and free of commas |
| Notes.TagsRoundTrip | preppal/frontend/assets/app.js:682 | parsing the editor's `tags.join(', ')` gives back the tags |
| Notes.ParseTagsEmpty | preppal/frontend/assets/app.js:697 | an empty tag field yields no tags |
| Notes.FindNote | preppal/frontend/assets/app.js:722 | the first index with that id, or none when no note has it |
| Notes.NewNote | preppal/frontend/assets/app.js:710-713 | a created note carries the given fields, equal creation and update times, and exactly one version, holding its body |
| Notes.EditedNote | preppal/frontend/assets/app.js:724-726 | an edit keeps id, creation time and recording, takes the new fields and time, and appends one capped version |
| Notes.NoteCards | preppal/frontend/assets/app.js:861 | one card per pair, in order, tied to the note and its recording |
| Notes.RebuildKeepsOthers | preppal/frontend/assets/app.js:858-862 | cards not of this note are untouched and keep their order |
| Notes.RebuildKeepsOtherNote | preppal/frontend/assets/app.js:858-862 | the cards of every other note are exactly what they were |
| Notes.RebuildThisNote | preppal/frontend/assets/app.js:858-862 | this note's cards become exactly its extracted pairs, in order, possibly none |
| Notes.RebuildTwice | preppal/frontend/assets/app.js:858-862 | rebuilding twice equals rebuilding once with the second batch of ids |
| Notes.InsertByWhenSorted | preppal/frontend/assets/app.js:872-873 | inserting into a sorted timeline keeps it sorted, adds exactly the new entry, and places it after every entry at the same or an earlier time |
| Notes.InsertAtEnd | preppal/frontend/assets/app.js:873 | an entry no earlier than all others goes last |
| Notes.SortByWhenSorted | preppal/frontend/assets/app.js:873 | the sort yields a sorted permutation |
| Notes.SortByWhenOfSorted | preppal/frontend/assets/app.js:873 | sorting a sorted timeline changes nothing |
| Notes.PushSort | preppal/frontend/assets/app.js:872-873 | push-then-sort on a sorted timeline is one insertion: one longer, sorted, the same entries plus the new one |
| Notes.FilterSorted | preppal/frontend/assets/app.js:899 | removing entries keeps the timeline sorted |
| Notes.TimelineStaysSorted | preppal/frontend/assets/app.js:870-902 | both timeline operations preserve sortedness |
| Notes.SaveKeepsIdsUnique | preppal/frontend/assets/app.js:709-727 | a note created with a fresh id, or an edit keeping the id, leaves all note ids distinct |
| Notes.DeleteKeepsIdsUnique | preppal/frontend/assets/app.js:744 | removing notes leaves all note ids distinct |
| Notes.DeleteKeepsOtherCards | preppal/frontend/assets/app.js:746 | a delete leaves the cards of every other note exactly as they were |
| Notes.DeleteRemovesExactly | preppal/frontend/assets/app.js:744-746 | after a delete exactly the other notes and the cards not of that note remain |
| Notes.LocalStore.constructor | preppal/frontend/assets/app.js:476 | all three collections start empty and no note is open, so `Valid()` (a timeline sorted by time and distinct note ids) holds |
| Notes.LocalStore.SaveNote | preppal/frontend/assets/app.js:699-736 | nothing happens for a blank trimmed title with an empty body; with no open note a new note is put first and opened; otherwise the open note is replaced at its index, or nothing happens when it is gone; a save rebuilds that note's cards and never touches the timeline; when the new id is not in use, `Valid()` is kept |
| Notes.LocalStore.SaveFields | preppal/frontend/assets/app.js:704-733 | the same once the title is trimmed and the tags parsed, `Valid()` included |
| Notes.LocalStore.PutFirst | preppal/frontend/assets/app.js:714-718 | a created note goes first, is opened, and its cards are rebuilt |
| Notes.LocalStore.PutAt | preppal/frontend/assets/app.js:727-730 | an edited note replaces the one at its index and its cards are rebuilt |
| Notes.LocalStore.DeleteNote | preppal/frontend/assets/app.js:739-751 | an unknown id or a declined confirmation changes nothing; otherwise the note and all its cards go, and the editor is cleared if it showed that note; `Valid()` is kept |
| Notes.LocalStore.UpdateCardsForNote | preppal/frontend/assets/app.js:858-864 | the cards become `RebuildCards` of the old ones; nothing else changes |
| Notes.LocalStore.PushCards | preppal/frontend/assets/app.js:861 | the `forEach` appends exactly one card per pair, in order |
| Notes.LocalStore.AddTimelineItem | preppal/frontend/assets/app.js:870-876 | the entry (caption defaulting to "Review") is pushed and the timeline sorted by time; `Valid()` is kept |
| Notes.LocalStore.MarkTimelineDone | preppal/frontend/assets/app.js:898-902 | every entry with that id is removed; nothing else changes and `Valid()` is kept |
| Editor.SurroundSelection | preppal/frontend/assets/app.js:539-546 | the same text stays selected, with the "before" marker right in front of it and the "after" marker right behind it; the rest of the value is unchanged |
| Editor.InsertAtCursor | preppal/frontend/assets/app.js:567-574 | the text replaces the selection and the caret sits right behind it |
| Editor.UnsurroundSurround | preppal/frontend/assets/app.js:542-544 | taking the two markers off again restores value and selection exactly |
| Editor.SurroundCollapsed | preppal/frontend/assets/app.js:542-544 | with nothing selected, surrounding with an empty "after" is inserting the "before" |
| Editor.InsertReplacesSelection | preppal/frontend/assets/app.js:570-572 | inserting is deleting the selection and then inserting at the caret |
| Quiz.NextIndex | preppal/frontend/assets/app.js:997-1001 | the cursor stays inside the deck, moves on by one modulo its size, and returns to 0 exactly after the last card |
| Quiz.AfterPresses | preppal/frontend/assets/app.js:995-1003 | after any number of presses the cursor is inside the deck |
| Quiz.AfterRounds | preppal/frontend/assets/app.js:997-1001 | after some full rounds and `r` more presses the cursor is on card `r` |
| Quiz.AfterPressesMod | preppal/frontend/assets/app.js:995-1003 | the k-th press shows card `k mod n` |
| Quiz.FullRound | preppal/frontend/assets/app.js:998-1000 | one press per card brings the cursor back to the first card |
| Quiz.Session.constructor | preppal/frontend/assets/app.js:975 | an empty deck with the cursor at 0 |
| Quiz.Session.Start | preppal/frontend/assets/app.js:977-987 | an empty deck changes nothing; otherwise the deck is loaded at card 0, face up |
| Quiz.Session.Flip | preppal/frontend/assets/app.js:989-993 | toggles the back and nothing else |
| Quiz.Session.Next | preppal/frontend/assets/app.js:995-1003 | on an empty deck nothing happens; otherwise the cursor advances with wrap-around, the wrap is reported exactly after the last card, and the new card shows its front |
| Storage.FirstMatch | preppal/backend/storage.py:57-59 | the first index with that id, or none when no record has it |
| Storage.Store.constructor | preppal/backend/storage.py:8-11 | both lists start empty |
| Storage.Store.AddRecord | preppal/backend/storage.py:75-76 | the new record goes first, the others follow in order; reminders unchanged |
| Storage.Store.Find | preppal/backend/storage.py:57-59 | the scan finds the first matching index |
| Storage.Store.GetRecord | preppal/backend/storage.py:57-59 | the first record with that id, or none exactly when no record has it |
| Storage.Store.UpdateTitle | preppal/backend/storage.py:79-84 | an unknown id gives false and changes nothing; otherwise only the title of the first match changes and the answer is true |
| Storage.Store.ListRecordsLight | preppal/backend/storage.py:62-72 | same length and order; each entry carries the record's id, title, creation time and duration |
| Storage.Store.AddReminder | preppal/backend/storage.py:45-46 | the reminder is appended; records unchanged |
| Storage.Store.IterDueReminders | preppal/backend/storage.py:49-50 | exactly the unsent reminders due by `now` |
| Storage.FirstMatchAt | preppal/backend/storage.py:57-59 | a match no earlier record has is the first match |
| Storage.AddThenFind | preppal/backend/storage.py:75-76 | a just-added record is what a lookup of its id finds; other lookups shift by one |
| Storage.UpdateThenFind | preppal/backend/storage.py:79-84 | after a title update the same record is found with the new title, and the light list changes only in that title |
| Storage.DueAfterAdd | preppal/backend/storage.py:45-50 | an appended reminder joins the end of the due list exactly when it is due |
| Storage.DueCount | preppal/backend/storage.py:49-50 | a reminder is listed as often as it is stored when it is due, and never otherwise |
| Storage.DueSplit | preppal/backend/storage.py:49-50 | the due list of two stored runs is the due list of the first followed by that of the second, so stored order is kept |
| Endpoints.IntervalDays | preppal/backend/main.py:157-159 | between 1 and `days`; 1 below five days; from five to thirty days the whole fifths of the days; beyond thirty the whole tenths |
| Endpoints.DaysLeft | preppal/backend/main.py:157 | at least 1; exactly 1 when less than a day remains; otherwise the whole days to the goal |
| Endpoints.DueAt | preppal/backend/main.py:151-159 | demo mode is now + 30 s whatever the goal; no goal is the 400 answer; with a goal it is now plus `IntervalDays` of the days left, in days, between one day and the whole days left |
| Endpoints.DueShare | preppal/backend/main.py:156-159 | in goal mode the wait is one day when less than five days are left, else the whole-day fifth of the time left (a tenth beyond thirty days), and never less than a day |
| Endpoints.DueBeforeGoal | preppal/backend/main.py:156-159 | with a day or more left the review is never due after the goal |
| Endpoints.AddReminder | preppal/backend/main.py:147-169 | without demo or goal nothing is stored; otherwise one unsent reminder, titled after the first matching recording or "Recording", is appended and the reply reports its instant and whether an e-mail was given |
| Endpoints.UpdateTitle | preppal/backend/main.py:128-133 | a blank title is refused without touching the store; otherwise the stripped title goes to the first matching record, or the 404 reply when there is none |
| Endpoints.HighlightsOf | preppal/backend/main.py:191-192 | every highlight has weight `boost` and a non-empty, stripped, single-line text |
| Endpoints.HighlightsAreLines | preppal/backend/main.py:191 | the highlight texts are the stripped lines with blank ones dropped, in order |
| Endpoints.HighlightTextsOf | preppal/backend/main.py:192-195 | the summariser sees exactly these texts |
| Endpoints.Refreshed | preppal/backend/main.py:191-197 | new highlights; the summary becomes the newly computed one when that is non-empty and stays otherwise; nothing else changes |
| Endpoints.RefreshedTwice | preppal/backend/main.py:191-197 | refreshing twice with the same text and answer equals refreshing once |
| Endpoints.RefreshedByReply | preppal/backend/main.py:192-197 | with a transcript and a model answer, the summary becomes the stripped answer, or stays when that strips to nothing |
| Endpoints.Refresh | preppal/backend/main.py:192-197 | the record is updated in place to `Refreshed` |
| Endpoints.RefreshAt | preppal/backend/main.py:192-199 | the record at its index is refreshed in place and nothing else in the list changes; the reply carries the refreshed summary and highlights |
| Endpoints.Resummarize | preppal/backend/main.py:182-199 | an unknown recording or a blank text changes nothing; otherwise the first match is refreshed and the reply carries its summary and highlights |
| Endpoints.TtsSummary | preppal/backend/main.py:208-215 | unknown recording exactly when no record matches; a missing or blank field is "nothing to read"; otherwise the stripped, non-empty field text is read |
| Summarizer.CutAfterTerminators | preppal/backend/summarizer.py:68 | the split always yields at least one piece |
| Summarizer.CutShape | preppal/backend/summarizer.py:68 | every piece but the last is a sentence ending in its only terminator; the last holds none |
| Summarizer.CutConcat | preppal/backend/summarizer.py:68 | joined up, the pieces are the text minus the white space after each terminator |
| Summarizer.DropGapsNone | preppal/backend/summarizer.py:68 | text without white space after a terminator loses nothing |
| Summarizer.NonEmptyPieces | preppal/backend/summarizer.py:69 | dropping empty pieces drops at most the last one |
| Summarizer.DropEmptyPiece | preppal/backend/summarizer.py:69 | dropping the empty pieces keeps the shape and loses no text |
| Summarizer.SplitSentencesShape | preppal/backend/summarizer.py:63-69 | nothing for empty or blank text, no empty part, every part but the last a sentence, and the parts joined are the stripped text minus the gaps |
| Summarizer.SummaryLinesShape | preppal/backend/summarizer.py:57 | no segment holds `。` or is blank |
| Summarizer.FallbackPoints | preppal/backend/summarizer.py:59 | at most three points, one per leading segment, stripped and ended with `。` |
| Summarizer.FallbackSummary | preppal/backend/summarizer.py:58-60 | starts with the heading line and ends with the empty sections |
| Summarizer.Summarize | preppal/backend/summarizer.py:48-60 | a model answer comes back exactly stripped; a failure gives the fixed error text around the first 120 characters of the text; no model gives `FallbackSummary` of the text, which starts with the heading |
| Summarizer.SummarizeFallbackPoints | preppal/backend/summarizer.py:57-60 | without a model the points are the first segments in order, at most three, none containing `。` |
| Summarizer.HighlightTexts | preppal/backend/summarizer.py:121 | no more texts than highlights; the stripped text of every highlight with a non-empty text is there, and nothing else |
| Summarizer.HighlightTextsCons | preppal/backend/summarizer.py:121 | the texts are taken highlight by highlight, in order, an empty one skipped |
| Summarizer.AddSentencesKeeps | preppal/backend/summarizer.py:121-126 | the highlight texts come first, unchanged and in order |
| Summarizer.AddSentencesBound | preppal/backend/summarizer.py:122-124 | sentences stop being added at six items |
| Summarizer.AddSentencesNew | preppal/backend/summarizer.py:125-126 | every added item is a non-empty sentence not picked before it |
| Summarizer.AddSentencesComplete | preppal/backend/summarizer.py:122-126 | short of six items every non-empty sentence has been picked |
| Summarizer.AddSentencesFresh | preppal/backend/summarizer.py:122-126 | the loop adds the first new, distinct, non-empty sentences in transcript order, as many as fit up to six items |
| Summarizer.Bullets | preppal/backend/summarizer.py:128 | as many bullets as items, but at most six; bullet i is `・` followed by item i |
| Summarizer.FallbackText | preppal/backend/summarizer.py:127-129 | the fallback text starts with the heading line |
| Summarizer.WeightedSummary | preppal/backend/summarizer.py:78-129 | the result is never empty for an empty transcript or without a model |
| Summarizer.PickBullets | preppal/backend/summarizer.py:120-126 | the loop with its early exit computes `Picks` |
| Summarizer.MakeWeightedSummary | preppal/backend/summarizer.py:71-129 | the fixed text for an empty transcript; the stripped answer or the fixed error text with a model; the highlight-then-sentence bullets without one |
| Summarizer.WeightedFallbackItems | preppal/backend/summarizer.py:119-129 | highlights first and in order, then exactly the first new distinct sentences in transcript order up to six items, every sentence when fewer are there; at most six bullets |

## Left out

- DOM reads and writes, `alert`, `confirm` and `fetch` are left out. A confirmation is a boolean parameter of `DeleteNote`. The recording linked to a new note is a parameter of `SaveNote`.
- `LS`'s JSON encoding and its fallback on unreadable data are left out. The store's collections are the decoded values.
- The quiz's shuffle is randomness, so the deck order is taken as given. `showQuiz`'s rendering is reduced to "front shown".
- `crypto.randomUUID()`, `uuid4()`, `new Date()` and `datetime.utcnow()` are parameters.
- `new Date(when)` parsing is taken as done: a timeline entry carries its instant. `datetime.fromisoformat` is also taken as done: the goal arrives as an instant.
- JavaScript strings count UTF-16 code units. The model counts Unicode scalar values, so offsets and `[:18]` cuts differ for characters outside the Basic Multilingual Plane.
- AsciiLower: only ASCII letters are lowered. Python's `str.lower()` also lowers other letters and can change the length (`İ` becomes two characters). No other character lowers to one of `t`, `r`, `u` or `e`, so the demo-mode test `.lower() == "true"` comes out the same.
- Endpoints.IntervalDays: `int(days * 0.20)` and `int(days * 0.10)` are floating-point products in the source. The model takes the exact whole fifths and tenths, which is what those products give for realistic day counts.
- Highlight weights and recording durations are `real`. Python's floating-point `float(boost)` is not modelled.
- The tail of `tts_summary` is left out: `synthesize_to_file` and the `FileResponse`. `Endpoints.FieldText` reads only the record's string fields; the duration and the highlights read as absent.
- Language-model calls are the `ModelReply` parameter. The prompt texts are not modelled.
- Python dictionaries are shared by reference. The model copies records by value, and `Refresh` writes the updated record back at its index.
- `list_records` (`preppal/backend/storage.py:18-27`) and `list_records_light` are the effective projection (`Storage.Store.ListRecordsLight`). The earlier definitions in that file are shadowed and are not modelled.
- Summarizer.FallbackPoints, Summarizer.Bullets: count bullet items, not physical lines, because a stripped segment can itself contain a line break.
- `btnBuildCards`, `prefixLines`, `setHeading`, `MD.render`, `parseSummaryForGraphic`, `openNote`, version restore and the note list are outside this model. So are the debounced autosave, the canvas and theme code, and the Next.js variant of the client.
- `preppal/backend/reminders.py` (a thread with sleeps) and the e-mail sending are left out. `stt.py`, `tts.py` and `mailer.py` wrap external services and are not part of this model.
- The upload endpoint `transcribe_and_summarize`, the `get_recording` and `list_recordings` routes, and FastAPI routing are left out. So are error statuses beyond the reply variants modelled here.
