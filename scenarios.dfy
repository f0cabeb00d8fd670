/** Clients of the app that drive it through the recognizer's callbacks and
    the user's actions, relying only on the methods' contracts. */
module Scenarios {
  import opened Text
  import opened App

  /** Final chunk "hello " at index 0, interim "wor" at index 1, then final
      "world" at index 1; the stream ends and restarts; the user stops; a
      later end of stream changes nothing. */
  method RecognizerSession()
  {
    var app := new VoiceScribeApp(true, Empty);
    assert app.notes == [];
    app.ToggleRecording();
    assert !app.isRecording && app.finalTranscript == "";
    app.OnStart();
    var hello, wor, world := SpeechResult(true, "hello "), SpeechResult(false, "wor"), SpeechResult(true, "world");
    SingleResultText(hello);
    SingleResultText(wor);
    SingleResultText(world);
    assert Pending([hello], 0) == [hello];
    var interim := app.OnResult([hello], 0);
    assert app.finalTranscript == "hello  ";
    assert Pending([hello, wor], 1) == [wor];
    interim := app.OnResult([hello, wor], 1);
    assert interim == "wor" && app.finalTranscript == "hello  ";
    assert Pending([hello, world], 1) == [world];
    interim := app.OnResult([hello, world], 1);
    assert interim == "" && app.finalTranscript == "hello  world ";
    app.OnEnd(false);
    assert app.isRecording && app.finalTranscript == "hello  world ";
    app.ToggleRecording();
    assert !app.isRecording;
    app.OnEnd(true);
    assert !app.isRecording && app.finalTranscript == "hello  world ";
  }

  /** Saving a transcript under a fresh id and then deleting that id gives
      back the list as it was, and the storage holds that list again. */
  method SaveThenDelete(app: VoiceScribeApp, id: int, timestamp: string)
    requires !IsBlank(app.finalTranscript)
    requires forall k :: 0 <= k < |app.notes| ==> app.notes[k].id != id
    modifies app
  {
    ghost var before := app.notes;
    var saved := app.SaveNote(id, timestamp, false);
    assert saved && app.notes[1..] == before && app.notes[0].id == id;
    assert !app.isRecording && app.finalTranscript == "";
    ghost var added := app.notes[0];
    assert app.notes == [added] + before;
    app.DeleteNote(id, false);
    RemoveFreshNote(added, before);
    assert app.notes == before && app.storage == Holds(before);
  }
}
