# Voice Scribe in Dafny

Voice Scribe is a browser app for voice notes. The user starts a recording. The
speech recognizer delivers transcript chunks marked final or interim, and the
app collects the final ones into a transcript. On save, the trimmed transcript
becomes a note with a short title and a two-bucket summary ("Key Points",
"Details"). Notes are kept most recent first, written to local storage, and can
be deleted by id or searched without regard to letter case.

This project models the logic of the one class `VoiceScribeApp` in `app.js`
and proves properties of it:

- `seqs.dfy` (module `Seqs`): `Filter`, which models the `Array.prototype.filter`
  that the app uses three times, plus subsequence and merge (interleaving)
  predicates and their lemmas.
- `text.dfy` (module `Text`): the JavaScript string operations the app uses.
  - `trim` and the regular-expression class `\s` share one white-space set,
    which is modelled exactly.
  - `split` on a run of delimiters, `join`, `toLowerCase` (ASCII letters only)
    and `includes`.
- `notetext.dfy` (module `NoteText`): `generateTitle` and `generateSummary` as
  pure functions, with reference definitions and lemmas.
- `app.dfy` (module `App`): the `Note` record and the storage slot. The class
  `VoiceScribeApp` holds the fields `isRecording`, `currentLanguage`,
  `finalTranscript`, `notes`, the recognizer's language and the storage slot.
  - Its methods are the recording session (`startRecording`, `stopRecording`,
    `cancelRecording`, `toggleRecording`) and the recognizer callbacks
    (`onstart`, `onresult`, `onerror`, `onend`).
  - It also has the collection operations (`saveNote`, `deleteNote`,
    `filterNotes`) and `loadNotes`/`saveToStorage`.
- `scenarios.dfy` (module `Scenarios`): two client methods.
  - One drives a recording session through the callbacks.
  - The other shows that saving under a fresh id and then deleting that id
    restores the list.

The recognizer is modelled only through its inputs:
- `onresult` receives the list of results and the `resultIndex`.
- `onend` receives whether restarting threw.
- A failing `start` is caught and logged to the console, and a failing `stop` is
  caught and ignored. Neither has an effect on the modelled state.

The clock (`Date.now()`, `toISOString`) is replaced by the `id` and `timestamp`
parameters of `SaveNote`.

Two points where the code does something other than the natural reading of
"the first three sentences are key points" and "chunks joined by a single
space". The model follows the code in both:
- **Summary index.** The classification index counts every non-blank sentence
  candidate. This includes the candidates that are then dropped as noise
  (≤ 10 characters), so it is not the position among kept sentences. After
  three noise candidates, a sentence of 11 to 50 characters therefore goes to
  "Details" (`NoteText.NoiseCountsTowardIndex`). It is not an index counting
  only kept sentences.
- **Space after final chunks.** Every final chunk is appended with a space after
  it, whatever its own spacing. A final chunk "hello " followed by a final
  "world" therefore accumulates `"hello  world "`, with two spaces. That trims
  to `"hello  world"`, not `"hello world"` (`Scenarios.RecognizerSession`). It
  is not a single space between chunks.

## Model

| member | source | states |
|---|---|---|
| `Seqs.Filter` | app.js:294 | Keeps exactly the elements that pass the test. Every copy of each passing element is kept and no failing one. The result is an order-preserving subsequence of the input. |
| `Seqs.FilterIdempotent` | app.js:294 | Filtering twice with the same test is filtering once. |
| `Seqs.FilterCongruent` | app.js:302-305 | Two tests that agree on every element select the same list. |
| `Seqs.InterleavingParts` | app.js:279-288 | A merge of two lists holds exactly their elements, with multiplicity, and keeps each list's order. |
| `Text.Trim` | app.js:242 | Strips white space from both ends. The result is empty iff the input is all white space. Otherwise it starts and ends with a non-space character. It is no longer than the input and uses only the input's characters. |
| `Text.TrimIsMiddle` | app.js:242 | What `trim` keeps is a contiguous middle slice `s[i..j]` of the input, with only white space in `s[..i]` and in `s[j..]`. |
| `Text.TrimIdempotent` | app.js:242 | Trimming a trimmed string changes nothing. |
| `Text.TrimTrimmed` | app.js:242 | A string that neither starts nor ends with white space is its own trim. |
| `Text.Split` | app.js:265 | `split` on runs of delimiters yields at least one piece, and no piece contains a delimiter. Its full meaning is given by `Text.JoinSplitCollapse`. |
| `Text.Join` | app.js:265 | `join`: the first word is a prefix of the result. The rest of its meaning is given by `Text.SplitJoin`, `Text.JoinSplitCollapse` and `Text.JoinChars`. |
| `Text.Collapse` | app.js:265 | Reference reading of split-then-join: every maximal run of delimiters becomes one separator, everything else is kept. The result is no longer than the input. |
| `Text.JoinSplitCollapse` | app.js:265 | For every string, joining its split pieces with a separator is the string with each maximal delimiter run replaced by that one separator. |
| `Text.JoinChars` | app.js:265 | A joined string holds only the words' characters and the separator. |
| `Text.SplitJoin` | app.js:265 | Round trip: splitting words joined by a delimiter gives back the words, if they are non-empty and delimiter-free. |
| `Text.JoinSplit` | app.js:265 | Round trip: joining the pieces rebuilds a string that neither starts nor ends with a delimiter and whose delimiter runs are each a single separator. |
| `Text.SplitPiecesNonEmpty` | app.js:265 | A string that starts and ends with a non-delimiter splits into non-empty pieces only. |
| `Text.JoinPrefix` | app.js:265 | Joining the first n words gives a prefix of joining them all. |
| `Text.ToLower` | app.js:303-304 | `toLowerCase` keeps the length and lowers each ASCII letter in place, leaving every other character. |
| `Text.ToLowerIdempotent` | app.js:303-304 | Lower-casing twice is lower-casing once. |
| `Text.Contains` | app.js:303-304 | `includes`: no contract of its own. It is the predicate "the needle occurs at some position", and `Text.ContainsInfix` and `App.Search` state what it means. |
| `Text.ContainsInfix` | app.js:303-304 | Every slice of a string is found by `includes` in it. |
| `Text.ToLowerKeepsBlank` | app.js:301-304 | Lower-casing keeps a blank query blank and a non-blank query non-blank. |
| `NoteText.FirstWords` | app.js:265 | `slice(0, 5)` of the split: one to five words. It is a prefix of all the words, and it is all of them when there are fewer than five. |
| `NoteText.Title` | app.js:263-267 | The title is at most 33 characters. Joined words of at most 30 characters are the title unchanged. Longer ones become their first 30 characters followed by `...`. |
| `NoteText.TitleSpacesArePlain` | app.js:265 | The only white space left in a title is the plain space between words. |
| `NoteText.TitleWordsAreFirstWords` | app.js:263-267 | For a saved note's trimmed content, the title's words are exactly the content's first (up to five) words. |
| `NoteText.TitleOfSpacedContent` | app.js:263-267 | For content whose words are separated by single spaces, the untruncated title is a prefix of the content. Content of at most five words and 30 characters is its own title. |
| `NoteText.TitleWords` | app.js:265 | No contract of its own: the first five words joined by single spaces. Its meaning is stated by `NoteText.TitleWordsAreFirstWords`, `NoteText.TitleOfSpacedContent` and `NoteText.TitleSpacesArePlain`. |
| `NoteText.Candidates` | app.js:271 | The sentence candidates contain no `।`, `.`, `!` or `?`, and none is blank. |
| `NoteText.CandidatesAreNonBlankPieces` | app.js:271 | The candidates are exactly the non-blank pieces of the split on sentence terminators: an order-preserving subsequence of the pieces, holding every non-blank piece as often as it occurs and nothing else. |
| `NoteText.CategoryOf` | app.js:280-286 | No contract of its own: the bucket rule for one sentence (dropped at 10 characters or fewer, key point when the index is below 3 or it is longer than 50, detail otherwise). `NoteText.ClassifyBuckets` and `NoteText.NoiseCountsTowardIndex` state what it does to the outline. |
| `NoteText.Classify` | app.js:279-288 | The `forEach` never files more sentences than there are candidates. Its contents are stated by `NoteText.ClassifyBuckets`, `NoteText.ClassifyPartition` and `NoteText.ClassifyMembers`. |
| `NoteText.Summarize` | app.js:269-291 | No contract of its own: `generateSummary` is the classification of the candidates from index 0. `NoteText.SummaryProperties` states what the outline holds. |
| `NoteText.ClassifyBuckets` | app.js:279-288 | "Key Points" holds the trimmed candidates with index < 3 or length > 50, among those longer than 10. "Details" holds the other candidates longer than 10. Both are in transcript order, and the index counts dropped candidates too. |
| `NoteText.ClassifyPartition` | app.js:279-288 | The sentences longer than 10 characters are a merge of the two buckets. So each lands in exactly one bucket, in source order. |
| `NoteText.ClassifyMembers` | app.js:280-281 | Every bucketed sentence is a trimmed candidate longer than 10 characters. |
| `NoteText.SummaryProperties` | app.js:269-291 | `generateSummary` files sentences by the bucket rule and partitions the kept sentences in order. Every stored sentence is trimmed, longer than 10 characters and free of sentence terminators. |
| `NoteText.NoiseCountsTowardIndex` | app.js:279-286 | After three noise candidates, a sentence of 11 to 50 characters goes to "Details", because dropped candidates still advance the index. |
| `App.FinalPiece` | app.js:99-100 | No contract of its own: what one result adds to the transcript, its words and a space when it is final and nothing otherwise. `App.FinalTextShape` and `App.VoiceScribeApp.OnResult` use it. |
| `App.InterimPiece` | app.js:101-102 | No contract of its own: what one result adds to the interim text, its words when it is not final. `App.VoiceScribeApp.OnResult` uses it. |
| `App.FinalText` | app.js:96-104 | No contract of its own: the pieces of a batch of results, concatenated in order. `App.FinalTextAppend`, `App.FinalTextIgnoresInterim`, `App.FinalTextShape` and `App.VoiceScribeApp.OnResult` state its meaning. |
| `App.InterimText` | app.js:94-104 | No contract of its own: the interim pieces of a batch, concatenated in order. `App.VoiceScribeApp.OnResult` returns it. |
| `App.FinalTextAppend` | app.js:93-104 | Final text is additive over successive result batches. |
| `App.FinalTextIgnoresInterim` | app.js:99-103 | Dropping the interim results does not change what a batch adds to the transcript. |
| `App.FinalTextShape` | app.js:99-103 | A batch of interim results adds nothing. Whatever final results add ends with the separating space. |
| `App.MatchesQuery` | app.js:302-305 | No contract of its own: the lower-cased query occurs in the lower-cased content or title. `App.Search` and `App.SearchIgnoresQueryCase` state its meaning. |
| `App.RemoveId` | app.js:294 | No note with the id remains. Every other note is kept, with multiplicity and in order. |
| `App.RemoveAbsentId` | app.js:294 | Deleting an id no note carries changes nothing. |
| `App.RemoveFreshNote` | app.js:255 | Deleting the note just added at the front under a fresh id gives back the previous list. |
| `App.RemoveIdIdempotent` | app.js:293-298 | Deleting the same id twice is deleting it once. |
| `App.RemoveIdWellFormed` | app.js:293-298 | Deletion keeps every note well formed: trimmed non-empty content, with title and summary derived from it. |
| `App.Search` | app.js:300-309 | A blank query yields the whole list. Otherwise the result is an order-preserving subsequence of exactly the notes whose lower-cased content or title contains the lower-cased, untrimmed query, with multiplicity. |
| `App.SearchIgnoresQueryCase` | app.js:302-305 | Lower-casing the query does not change the search result. |
| `App.VoiceScribeApp.constructor` | app.js:7-58 | Starts not recording, in `en-IN`, with an empty transcript. Notes are loaded from storage only when speech recognition is supported. |
| `App.VoiceScribeApp.LoadNotes` | app.js:424-431 | `notes` becomes what the storage slot loads to. Nothing else changes. |
| `App.VoiceScribeApp.SaveToStorage` | app.js:433-439 | The slot holds the current list, which loads back unchanged. A failed write leaves the slot as it was. |
| `App.VoiceScribeApp.OnStart` | app.js:88-91 | Recording becomes true. Nothing else changes. |
| `App.VoiceScribeApp.OnResult` | app.js:93-107 | The transcript gains exactly the pending final results, each followed by a space. The old transcript is a prefix of the new one. The returned interim text is the pending interim results. |
| `App.VoiceScribeApp.OnError` | app.js:109-113 | Recording ends false, the transcript is kept, and the message is `Error: ` followed by the error. |
| `App.VoiceScribeApp.OnEnd` | app.js:115-123 | While recording, a successful restart keeps recording and a failed restart stops it. Not recording, nothing changes. The transcript is never touched. |
| `App.VoiceScribeApp.ToggleRecording` | app.js:167-173 | If recording, it stops and keeps the transcript. Otherwise it starts: the transcript is cleared and recording stays false until `onstart`. |
| `App.VoiceScribeApp.StartRecording` | app.js:175-190 | Clears the transcript and hands the recognizer the current language. It does not set recording. |
| `App.VoiceScribeApp.StopRecording` | app.js:192-200 | Recording is false and nothing else changes, so stopping twice equals stopping once. A failing recognizer `stop` has no effect. |
| `App.VoiceScribeApp.CancelRecording` | app.js:202-206 | Not recording, with an empty transcript. The notes are unchanged. |
| `App.VoiceScribeApp.SwitchLanguage` | app.js:229-239 | The current and the recognizer's language become the chosen one. |
| `App.VoiceScribeApp.SaveNote` | app.js:241-261 | A blank transcript changes nothing and saves nothing. Otherwise a well-formed note from the trimmed transcript goes in front of the unchanged old list, storage is written, and the session is cancelled. Saving keeps all notes well formed. |
| `App.VoiceScribeApp.DeleteNote` | app.js:293-298 | `notes` becomes the list without that id, storage is written, and well-formedness is kept. |
| `App.VoiceScribeApp.FilterNotes` | app.js:300-309 | The notes to render are the search result over the current list. A blank query gives the full list. The list itself is not changed. |

## Left out

- DOM and rendering are not modelled: `renderNotes`, `createNoteCard`, `showNoteDetail`, `renderNoteDetail`, `showListView`, `updateRecordingUI`, `updateTranscriptUI`, `showUnsupportedMessage`, `bindEvents` and the button toggling in `switchLanguage`. None of them changes the modelled state.
- `escapeHtml` is not modelled: it relies on the browser's HTML serialisation.
- `showToast` is not modelled: it is display plus a timer. `OnError` returns the message it would show.
- JSON serialisation is not modelled. Storage is a slot that is empty, holds unparsable text, or holds a list of notes. Writing and reading back the list is assumed lossless. A quota failure on write is a parameter.
- The clock and locale formatting (`Date.now()`, `toISOString`, `toLocaleDateString`) are not modelled: `id` and `timestamp` are parameters.
- The real `SpeechRecognition` object and the support check are not modelled: the recognizer appears only through the callback inputs, and support is a constructor parameter.
- `Text.ToLower`: only ASCII letters are lowered. JavaScript's `toLowerCase` follows full Unicode case mapping, which can change characters beyond ASCII and even the length of a string.
- Characters: Dafny's `char` is a Unicode scalar value, while JavaScript strings count UTF-16 code units. Lengths and `substring(0, 30)` agree for text in the Basic Multilingual Plane, such as English and Devanagari, but not for characters outside it.
- A stored value that parses but is not a list of notes (such as `null`, `{}` or an older note shape) has no case in the storage slot. `loadNotes` assigns whatever parses to `notes` unchecked, with no fallback to the empty list (app.js:427), and the next render would then fail. The model's slot can only hold a list of notes.
- The summary is the object with the two keys "Key Points" and "Details" in that order. It is modelled as a record with two fields.
- `currentNoteId`, `currentView` and the recording panel's visibility are display state and are left out.
