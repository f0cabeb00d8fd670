/** The state of the voice-notes app: the recording session driven by the
    speech recognizer's callbacks, and the most-recent-first list of notes
    with its local-storage slot. */
module App {
  import opened Seqs
  import opened Text
  import opened NoteText

  /** The two recognition locales, `en-IN` and `hi-IN`. */
  datatype Language = EnIN | HiIN

  /** A saved note. `id` is the creation time in milliseconds and `timestamp`
      its ISO-8601 rendering; both come from the clock and are parameters here. */
  datatype Note = Note(
    id: int,
    content: string,
    language: Language,
    timestamp: string,
    title: string,
    summary: Summary)

  /** A note as `saveNote` builds it: trimmed non-empty content, and the title
      and summary derived from that content. */
  predicate WellFormed(n: Note)
  {
    && n.content != []
    && Trim(n.content) == n.content
    && n.title == Title(n.content)
    && n.summary == Summarize(n.content)
  }

  predicate AllWellFormed(ns: seq<Note>)
  {
    forall n :: n in ns ==> WellFormed(n)
  }

  /** What local storage holds under the notes key: nothing (or an empty
      string), something that does not parse, or a parsed list of notes. */
  datatype Slot = Empty | Corrupt | Holds(stored: seq<Note>)

  /** `loadNotes`: the stored list, or the empty list when the key is absent
      or its value fails to parse. */
  function Loaded(slot: Slot): seq<Note>
  {
    match slot
    case Holds(ns) => ns
    case _ => []
  }

  /** One entry of `event.results`: its `isFinal` flag and the transcript of
      its first alternative. */
  datatype SpeechResult = SpeechResult(isFinal: bool, transcript: string)

  /** The results `onresult` walks: those from `resultIndex` to the end (none
      when the index is past the end). */
  function Pending(results: seq<SpeechResult>, resultIndex: nat): seq<SpeechResult>
  {
    if resultIndex <= |results| then results[resultIndex..] else []
  }

  /** What one result adds to the transcript: its words and a space when it
      is final, nothing otherwise. */
  function FinalPiece(r: SpeechResult): string
  {
    if r.isFinal then r.transcript + " " else ""
  }

  /** What one result adds to the interim display: its words when it is not
      final, nothing otherwise. */
  function InterimPiece(r: SpeechResult): string
  {
    if r.isFinal then "" else r.transcript
  }

  /** The text the final results add to the transcript, in delivery order:
      the pieces of all but the last result, then the last one's. */
  function FinalText(results: seq<SpeechResult>): string
  {
    if results == [] then ""
    else FinalText(results[..|results| - 1]) + FinalPiece(results[|results| - 1])
  }

  /** The interim text shown while listening, built the same way. */
  function InterimText(results: seq<SpeechResult>): string
  {
    if results == [] then ""
    else InterimText(results[..|results| - 1]) + InterimPiece(results[|results| - 1])
  }

  /** Final text is additive over consecutive batches of results, so several
      result events accumulate exactly the final text of all of them. */
  lemma {:induction false} FinalTextAppend(a: seq<SpeechResult>, b: seq<SpeechResult>)
    ensures FinalText(a + b) == FinalText(a) + FinalText(b)
    decreases |b|
  {
    if b == [] {
      assert a + b == a;
      assert FinalText(a) + "" == FinalText(a);
    } else {
      var init, last := b[..|b| - 1], b[|b| - 1];
      FinalTextAppend(a, init);
      assert FinalText(a + b) == FinalText(a + init) + FinalPiece(last) by {
        assert (a + b)[..|a + b| - 1] == a + init;
      }
      ConcatAssoc(FinalText(a), FinalText(init), FinalPiece(last));
    }
  }

  /** One more result extends the final and the interim text by its piece:
      the step of the `onresult` loop. */
  lemma TextStep(results: seq<SpeechResult>, k: nat)
    requires k < |results|
    ensures FinalText(results[..k + 1]) == FinalText(results[..k]) + FinalPiece(results[k])
    ensures InterimText(results[..k + 1]) == InterimText(results[..k]) + InterimPiece(results[k])
  {
    assert results[..k + 1][..k] == results[..k];
  }

  /** The transcript after one more result, as the loop writes it: the final
      result's words and a space appended, or the transcript unchanged. */
  lemma AppendPiece(base: string, done: string, r: SpeechResult)
    ensures r.isFinal ==> base + done + (r.transcript + " ") == base + (done + FinalPiece(r))
    ensures !r.isFinal ==> base + done == base + (done + FinalPiece(r))
  {
    if r.isFinal {
      ConcatAssoc(base, done, FinalPiece(r));
    } else {
      assert done + FinalPiece(r) == done;
    }
  }

  /** A single result's final and interim text are its two pieces. */
  lemma SingleResultText(r: SpeechResult)
    ensures FinalText([r]) == FinalPiece(r) && InterimText([r]) == InterimPiece(r)
  {
    assert [r][..0] == [];
    assert FinalPiece(r) == "" + FinalPiece(r);
    assert InterimPiece(r) == "" + InterimPiece(r);
  }

  /** A result in front adds its piece before the text of the rest. */
  lemma FinalTextCons(r: SpeechResult, rest: seq<SpeechResult>)
    ensures FinalText([r] + rest) == FinalPiece(r) + FinalText(rest)
  {
    FinalTextAppend([r], rest);
    assert [r][..0] == [];
  }

  predicate IsFinalResult(r: SpeechResult)
  {
    r.isFinal
  }

  /** Only final results reach the transcript: dropping the interim ones
      changes nothing. */
  lemma {:induction false} FinalTextIgnoresInterim(results: seq<SpeechResult>)
    ensures FinalText(results) == FinalText(Filter(results, IsFinalResult))
  {
    if results != [] {
      var r, tail := results[0], results[1..];
      FinalTextIgnoresInterim(tail);
      var rest := Filter(tail, IsFinalResult);
      assert results == [r] + tail;
      FinalTextCons(r, tail);
      if r.isFinal {
        assert Filter(results, IsFinalResult) == [r] + rest;
        FinalTextCons(r, rest);
      } else {
        assert FinalPiece(r) + FinalText(tail) == FinalText(tail);
      }
    }
  }

  /** A batch of interim results adds nothing to the transcript, and
      whatever final results add ends with the separating space. */
  lemma {:induction false} FinalTextShape(results: seq<SpeechResult>)
    ensures (forall k :: 0 <= k < |results| ==> !results[k].isFinal) ==> FinalText(results) == ""
    ensures FinalText(results) != "" ==> FinalText(results)[|FinalText(results)| - 1] == ' '
  {
    if results != [] {
      var init := results[..|results| - 1];
      FinalTextShape(init);
      if !results[|results| - 1].isFinal {
        assert FinalText(results) == FinalText(init) + "";
        assert FinalText(init) + "" == FinalText(init);
        if forall k :: 0 <= k < |results| ==> !results[k].isFinal {
          assert forall k :: 0 <= k < |init| ==> init[k] == results[k];
        }
      }
    }
  }

  /** The search match of `filterNotes`: the lower-cased query occurs in the
      lower-cased content or title. */
  predicate MatchesQuery(n: Note, query: string)
  {
    || Contains(ToLower(n.content), ToLower(query))
    || Contains(ToLower(n.title), ToLower(query))
  }

  /** The list `deleteNote` keeps: every note whose id differs from `id`. */
  function RemoveId(ns: seq<Note>, id: int): (r: seq<Note>)
    ensures forall k :: 0 <= k < |r| ==> r[k].id != id
    ensures IsSubsequence(r, ns)
    ensures forall n: Note :: n.id != id ==> multiset(r)[n] == multiset(ns)[n]
  {
    var r := Filter(ns, (n: Note) => n.id != id);
    assert forall k :: 0 <= k < |r| ==> r[k] in r;
    r
  }

  /** Deleting an id that no note carries leaves the list as it is. */
  lemma RemoveAbsentId(ns: seq<Note>, id: int)
    requires forall k :: 0 <= k < |ns| ==> ns[k].id != id
    ensures RemoveId(ns, id) == ns
  {
    FilterKeepsAll(ns, (n: Note) => n.id != id);
  }

  /** Deleting the note just put in front, when its id is fresh, gives back
      the list it was added to. */
  lemma RemoveFreshNote(n: Note, ns: seq<Note>)
    requires forall k :: 0 <= k < |ns| ==> ns[k].id != n.id
    ensures RemoveId([n] + ns, n.id) == ns
  {
    RemoveAbsentId(ns, n.id);
    assert ([n] + ns)[1..] == ns;
  }

  /** Deleting the same id a second time changes nothing. */
  lemma RemoveIdIdempotent(ns: seq<Note>, id: int)
    ensures RemoveId(RemoveId(ns, id), id) == RemoveId(ns, id)
  {
    FilterIdempotent(ns, (n: Note) => n.id != id);
  }

  /** Deletion keeps every note built by `saveNote` well formed. */
  lemma RemoveIdWellFormed(ns: seq<Note>, id: int)
    requires AllWellFormed(ns)
    ensures AllWellFormed(RemoveId(ns, id))
  {
  }

  /** The notes `filterNotes` shows for `query`: all of them for a blank
      query, otherwise those matching it, in list order. */
  function Search(ns: seq<Note>, query: string): (r: seq<Note>)
    ensures IsBlank(query) ==> r == ns
    ensures IsSubsequence(r, ns)
    ensures !IsBlank(query) ==> forall n :: n in r <==> n in ns && MatchesQuery(n, query)
    ensures !IsBlank(query) ==> forall n :: MatchesQuery(n, query) ==> multiset(r)[n] == multiset(ns)[n]
  {
    if Trim(query) != [] then Filter(ns, (n: Note) => MatchesQuery(n, query))
    else SubsequenceOfItself(ns); ns
  }

  /** Searching is blind to the case of the query's ASCII letters. */
  lemma SearchIgnoresQueryCase(ns: seq<Note>, query: string)
    ensures Search(ns, ToLower(query)) == Search(ns, query)
  {
    ToLowerIdempotent(query);
    ToLowerKeepsBlank(query);
    if !IsBlank(query) {
      FilterCongruent(ns, (n: Note) => MatchesQuery(n, ToLower(query)), (n: Note) => MatchesQuery(n, query));
    }
  }

  /** The app's state: the recording flag, the chosen and the recognizer's
      language, the accumulated final transcript, the notes (most recent
      first) and the storage slot they are written to. */
  class VoiceScribeApp {
    var isRecording: bool
    var currentLanguage: Language
    var recognitionLang: Language
    var finalTranscript: string
    var notes: seq<Note>
    var storage: Slot

    /** Construction and `init`: in a browser with speech recognition the
        recognizer takes the current language and the notes are loaded;
        without it nothing is loaded. */
    constructor(supported: bool, stored: Slot)
      ensures !isRecording && currentLanguage == EnIN && recognitionLang == EnIN
      ensures finalTranscript == "" && storage == stored
      ensures notes == if supported then Loaded(stored) else []
    {
      isRecording := false;
      currentLanguage := EnIN;
      recognitionLang := EnIN;
      finalTranscript := "";
      notes := [];
      storage := stored;
      new;
      if supported {
        LoadNotes();
      }
    }

    /** `loadNotes`. */
    method LoadNotes()
      modifies this
      ensures notes == Loaded(storage)
      ensures isRecording == old(isRecording) && finalTranscript == old(finalTranscript)
      ensures currentLanguage == old(currentLanguage) && recognitionLang == old(recognitionLang)
      ensures storage == old(storage)
    {
      notes := Loaded(storage);
    }

    /** `saveToStorage`: writes the whole list, unless the write fails
        (quota exceeded), which is only logged. What it writes loads back
        unchanged. */
    method SaveToStorage(writeFails: bool)
      modifies this
      ensures storage == if writeFails then old(storage) else Holds(notes)
      ensures !writeFails ==> Loaded(storage) == notes
      ensures notes == old(notes) && finalTranscript == old(finalTranscript)
      ensures isRecording == old(isRecording)
      ensures currentLanguage == old(currentLanguage) && recognitionLang == old(recognitionLang)
    {
      if !writeFails {
        storage := Holds(notes);
      }
    }

    /** The recognizer's `onstart`: only here does recording become true. */
    method OnStart()
      modifies this
      ensures isRecording
      ensures finalTranscript == old(finalTranscript) && notes == old(notes)
      ensures currentLanguage == old(currentLanguage) && recognitionLang == old(recognitionLang)
      ensures storage == old(storage)
    {
      isRecording := true;
    }

    /** The recognizer's `onresult`: walks the results from `resultIndex`,
        appending each final one (plus a space) to the transcript and
        collecting the interim ones into the returned display text. */
    method OnResult(results: seq<SpeechResult>, resultIndex: nat) returns (interim: string)
      modifies this
      ensures finalTranscript == old(finalTranscript) + FinalText(Pending(results, resultIndex))
      ensures interim == InterimText(Pending(results, resultIndex))
      ensures old(finalTranscript) <= finalTranscript
      ensures isRecording == old(isRecording) && notes == old(notes)
      ensures currentLanguage == old(currentLanguage) && recognitionLang == old(recognitionLang)
      ensures storage == old(storage)
    {
      interim := "";
      ghost var todo := Pending(results, resultIndex);
      var i := resultIndex;
      while i < |results|
        invariant resultIndex <= i <= resultIndex + |todo|
        invariant finalTranscript == old(finalTranscript) + FinalText(todo[..i - resultIndex])
        invariant interim == InterimText(todo[..i - resultIndex])
        invariant isRecording == old(isRecording) && notes == old(notes)
        invariant currentLanguage == old(currentLanguage) && recognitionLang == old(recognitionLang)
        invariant storage == old(storage)
      {
        var r := results[i];
        ghost var k := i - resultIndex;
        ghost var done := FinalText(todo[..k]);
        assert r == todo[k];
        TextStep(todo, k);
        AppendPiece(old(finalTranscript), done, r);
        if r.isFinal {
          finalTranscript := finalTranscript + (r.transcript + " ");
        } else {
          interim := interim + r.transcript;
        }
        i := i + 1;
      }
      assert todo[..i - resultIndex] == todo;
      PrefixOfConcat(old(finalTranscript), FinalText(todo));
    }

    /** The recognizer's `onerror`: recording stops; the returned message is
        what the toast shows. */
    method OnError(error: string) returns (message: string)
      modifies this
      ensures message == "Error: " + error
      ensures !isRecording
      ensures finalTranscript == old(finalTranscript) && notes == old(notes)
      ensures currentLanguage == old(currentLanguage) && recognitionLang == old(recognitionLang)
      ensures storage == old(storage)
    {
      message := "Error: " + error;
      StopRecording();
    }

    /** The recognizer's `onend`: while recording, restart the recognizer;
        if the restart throws, stop. The transcript is never touched. */
    method OnEnd(restartThrows: bool)
      modifies this
      ensures isRecording == (old(isRecording) && !restartThrows)
      ensures finalTranscript == old(finalTranscript) && notes == old(notes)
      ensures currentLanguage == old(currentLanguage) && recognitionLang == old(recognitionLang)
      ensures storage == old(storage)
    {
      if isRecording {
        if restartThrows {
          StopRecording();
        }
      }
    }

    /** `toggleRecording`. */
    method ToggleRecording()
      modifies this
      ensures old(isRecording) ==> !isRecording && finalTranscript == old(finalTranscript)
      ensures !old(isRecording) ==>
                !isRecording && finalTranscript == "" && recognitionLang == currentLanguage
      ensures old(isRecording) ==> recognitionLang == old(recognitionLang)
      ensures notes == old(notes) && currentLanguage == old(currentLanguage)
      ensures storage == old(storage)
    {
      if isRecording {
        StopRecording();
      } else {
        StartRecording();
      }
    }

    /** `startRecording`: clears the transcript and hands the recognizer the
        current language. Recording only becomes true once the recognizer
        reports `onstart`; a failing `start` is only logged. */
    method StartRecording()
      modifies this
      ensures finalTranscript == "" && recognitionLang == currentLanguage
      ensures isRecording == old(isRecording) && notes == old(notes)
      ensures currentLanguage == old(currentLanguage) && storage == old(storage)
    {
      finalTranscript := "";
      recognitionLang := currentLanguage;
    }

    /** `stopRecording`: recording is false afterwards whatever the
        recognizer's `stop` does (its failure is swallowed), and nothing else
        changes, so stopping twice is stopping once. */
    method StopRecording()
      modifies this
      ensures !isRecording
      ensures finalTranscript == old(finalTranscript) && notes == old(notes)
      ensures currentLanguage == old(currentLanguage) && recognitionLang == old(recognitionLang)
      ensures storage == old(storage)
    {
      isRecording := false;
    }

    /** `cancelRecording`: stop and discard the transcript. */
    method CancelRecording()
      modifies this
      ensures !isRecording && finalTranscript == ""
      ensures notes == old(notes)
      ensures currentLanguage == old(currentLanguage) && recognitionLang == old(recognitionLang)
      ensures storage == old(storage)
    {
      StopRecording();
      finalTranscript := "";
    }

    /** `switchLanguage`: the chosen language, also handed to the recognizer. */
    method SwitchLanguage(lang: Language)
      modifies this
      ensures currentLanguage == lang && recognitionLang == lang
      ensures isRecording == old(isRecording) && finalTranscript == old(finalTranscript)
      ensures notes == old(notes) && storage == old(storage)
    {
      currentLanguage := lang;
      recognitionLang := lang;
    }

    /** `saveNote`: a blank transcript saves nothing and changes nothing.
        Otherwise a note built from the trimmed transcript goes to the front
        of the list, the list is written to storage, and the session is
        cancelled. */
    method SaveNote(id: int, timestamp: string, writeFails: bool) returns (saved: bool)
      modifies this
      ensures saved <==> !IsBlank(old(finalTranscript))
      ensures !saved ==>
                && notes == old(notes) && finalTranscript == old(finalTranscript)
                && isRecording == old(isRecording) && storage == old(storage)
      ensures saved ==>
                var content := Trim(old(finalTranscript));
                && notes == [Note(id, content, currentLanguage, timestamp,
                                  Title(content), Summarize(content))] + old(notes)
                && WellFormed(notes[0])
                && finalTranscript == "" && !isRecording
                && storage == (if writeFails then old(storage) else Holds(notes))
      ensures AllWellFormed(old(notes)) ==> AllWellFormed(notes)
      ensures currentLanguage == old(currentLanguage) && recognitionLang == old(recognitionLang)
    {
      var content := Trim(finalTranscript);
      if content == [] {
        return false;
      }
      TrimIdempotent(finalTranscript);
      var note := Note(id, content, currentLanguage, timestamp, Title(content), Summarize(content));
      assert WellFormed(note);
      notes := [note] + notes;
      SaveToStorage(writeFails);
      CancelRecording();
      saved := true;
    }

    /** `deleteNote`: drop every note with this id, keep the rest in order,
        and write the list to storage. */
    method DeleteNote(id: int, writeFails: bool)
      modifies this
      ensures notes == RemoveId(old(notes), id)
      ensures storage == if writeFails then old(storage) else Holds(notes)
      ensures AllWellFormed(old(notes)) ==> AllWellFormed(notes)
      ensures isRecording == old(isRecording) && finalTranscript == old(finalTranscript)
      ensures currentLanguage == old(currentLanguage) && recognitionLang == old(recognitionLang)
    {
      notes := RemoveId(notes, id);
      SaveToStorage(writeFails);
    }

    /** `filterNotes`: the notes to render for the query; the list itself is
        not changed. */
    function FilterNotes(query: string): (r: seq<Note>)
      reads this
      ensures r == Search(notes, query)
      ensures IsBlank(query) ==> r == notes
    {
      Search(notes, query)
    }
  }
}
