/** The popup's playback driver: it owns the chunk queue, hands the chunks to the
    speech engine one at a time, and reports to the coordinator after each. */
module Driver {
  import opened JsText
  import opened Messages
  import Chunker

  /** One utterance handed to the speech engine. `id` tells apart utterances that
      carry the same text (the source compares utterance objects by identity). */
  datatype Utterance = Utterance(id: nat, text: string, voice: string, rate: real, volume: real)

  /** The volume every utterance is given. */
  const FullVolume: real := 1.0

  class Driver {
    /** The text the context menu stored, as the popup loaded it. */
    var selectedText: string
    /** `utteranceQueue`: the chunks of the current playback. */
    var queue: seq<string>
    /** `currentUtteranceIndex`: the chunk being spoken or to be spoken next. */
    var index: nat
    /** `currentUtterance`: the utterance last handed to the engine, until
        `cleanupUtterances` detaches its handlers and clears it. The end and error
        reports act only for this utterance (see `ReportedOnce`). */
    var current: Option<Utterance>
    /** The coordinator's speaking flag as last broadcast; only `UpdateUIState` writes it. */
    var isSpeaking: bool
    var playDisabled: bool
    var stopDisabled: bool
    /** The speech engine's in-flight utterance. */
    var engine: Option<Utterance>
    /** Every utterance handed to the engine, in order. */
    var spoken: seq<Utterance>
    /** Every message sent to the coordinator, in order. */
    var sent: seq<Request>

    /** Whatever the engine is speaking still has its handlers attached. */
    ghost predicate Valid()
      reads this
    {
      engine.Some? ==> engine == current
    }

    /** The index is within the queue, and what the engine speaks is the chunk at the
        index. Every driver operation keeps this; only `UpdateUIState`, which writes
        the index from outside, may break it. */
    ghost predicate Sequential()
      reads this
    {
      && index <= |queue|
      && (engine.Some? ==> index < |queue| && engine.value.text == queue[index])
    }

    /** The state the popup starts in, once it has loaded `selectedText`. The buttons
        start as the page declares them (`playMarkup`, `stopMarkup`), and the play
        button is then disabled when there is no text. */
    constructor (selectedText: string, playMarkup: bool, stopMarkup: bool)
      ensures this.selectedText == selectedText
      ensures queue == [] && index == 0 && current == None && !isSpeaking
      ensures playDisabled == (playMarkup || selectedText == []) && stopDisabled == stopMarkup
      ensures engine == None && spoken == [] && sent == []
      ensures Valid() && Sequential()
    {
      this.selectedText := selectedText;
      queue, index, current, isSpeaking := [], 0, None, false;
      playDisabled, stopDisabled := playMarkup || selectedText == [], stopMarkup;
      engine, spoken, sent := None, [], [];
    }

    /** `cleanupUtterances`: cancel whatever the engine speaks and detach the
        handlers of the current utterance, so that no late end or error report
        can act on it. */
    method Cleanup()
      modifies this
      ensures engine == None && current == None
      ensures selectedText == old(selectedText) && queue == old(queue) && index == old(index)
      ensures isSpeaking == old(isSpeaking)
      ensures playDisabled == old(playDisabled) && stopDisabled == old(stopDisabled)
      ensures spoken == old(spoken) && sent == old(sent)
      ensures Valid()
      ensures old(Sequential()) ==> Sequential()
    {
      engine := None;
      current := None;
    }

    /** `speakNext`: past the end of the queue, report `speechEnded` and hand over
        nothing; otherwise hand exactly the chunk at the index to the engine, with
        the voice and rate selected now and full volume. */
    method SpeakNext(voice: string, rate: real)
      requires engine.None?
      modifies this
      ensures selectedText == old(selectedText) && queue == old(queue) && index == old(index)
      ensures isSpeaking == old(isSpeaking)
      ensures playDisabled == old(playDisabled) && stopDisabled == old(stopDisabled)
      ensures index >= |queue| ==>
                && sent == old(sent) + [SpeechEnded]
                && engine == None && current == old(current) && spoken == old(spoken)
      ensures index < |queue| ==>
                var u := Utterance(|old(spoken)|, queue[index], voice, rate, FullVolume);
                && current == Some(u) && engine == Some(u)
                && spoken == old(spoken) + [u] && sent == old(sent)
      ensures Valid()
      ensures old(index <= |queue|) ==> Sequential()
    {
      if index >= |queue| {
        sent := sent + [SpeechEnded];
        return;
      }
      var u := Utterance(|spoken|, queue[index], voice, rate, FullVolume);
      current := Some(u);
      engine := Some(u);
      spoken := spoken + [u];
    }

    /** What `speakText` leaves behind when the messages sent before it are `before`:
        the queue holds the chunks of `text` and the index is 0; the first chunk is
        spoken, or `speechEnded` is sent when there is none; the engine speaks nothing
        else and nothing else changes. */
    twostate predicate Started(text: string, voice: string, rate: real, before: seq<Request>)
      reads this
    {
      && queue == Chunker.ChunkText(text) && index == 0
      && selectedText == old(selectedText) && isSpeaking == old(isSpeaking)
      && playDisabled == old(playDisabled) && stopDisabled == old(stopDisabled)
      && if queue == [] then
           && sent == before + [SpeechEnded]
           && engine == None && current == None && spoken == old(spoken)
         else
           var u := Utterance(|old(spoken)|, queue[0], voice, rate, FullVolume);
           && current == Some(u) && engine == Some(u)
           && spoken == old(spoken) + [u] && sent == before
    }

    /** `speakText` (its 100 ms defer taken as immediate): stop what is playing,
        replace the queue by the chunks of `text`, start over at the first chunk. */
    method SpeakText(text: string, voice: string, rate: real)
      modifies this
      ensures Started(text, voice, rate, old(sent))
      ensures Valid() && Sequential()
    {
      Cleanup();
      queue := Chunker.SplitIntoChunks(text);
      index := 0;
      SpeakNext(voice, rate);
    }

    /** The engine reports each utterance once: a report is for the utterance it is
        speaking, or for one whose handlers were already detached. */
    ghost predicate ReportedOnce(u: Utterance)
      reads this
    {
      engine == Some(u) || current != Some(u)
    }

    /** The transition an end report and an error report for `u` share: the engine is
        done with `u`; if `u` still has its handlers, the index moves on by one, the
        new index is reported with `updateProgress`, and the next chunk is spoken.
        A report for an utterance whose handlers were detached changes nothing. */
    twostate predicate AdvancedOn(u: Utterance, voice: string, rate: real)
      reads this
    {
      && selectedText == old(selectedText) && queue == old(queue)
      && isSpeaking == old(isSpeaking)
      && playDisabled == old(playDisabled) && stopDisabled == old(stopDisabled)
      && if old(current) == Some(u) then
           && index == old(index) + 1
           && var reported := old(sent) + [UpdateProgress(Some(index))];
           if index >= |queue| then
             && sent == reported + [SpeechEnded]
             && engine == None && current == old(current) && spoken == old(spoken)
           else
             var next := Utterance(|old(spoken)|, queue[index], voice, rate, FullVolume);
             && current == Some(next) && engine == Some(next)
             && spoken == old(spoken) + [next] && sent == reported
         else
           && index == old(index) && current == old(current) && engine == old(engine)
           && spoken == old(spoken) && sent == old(sent)
    }

    method Advance(u: Utterance, voice: string, rate: real)
      requires Valid()
      modifies this
      ensures AdvancedOn(u, voice, rate)
      ensures Valid()
      ensures old(Sequential()) && old(ReportedOnce(u)) ==> Sequential()
    {
      if engine == Some(u) {
        engine := None;
      }
      if current == Some(u) {
        index := index + 1;
        sent := sent + [UpdateProgress(Some(index))];
        SpeakNext(voice, rate);
      }
    }

    /** The `onend` handler: the engine finished `u`. */
    method OnEnd(u: Utterance, voice: string, rate: real)
      requires Valid()
      modifies this
      ensures AdvancedOn(u, voice, rate)
      ensures Valid()
      ensures old(Sequential()) && old(ReportedOnce(u)) ==> Sequential()
    {
      Advance(u, voice, rate);
    }

    /** The `onerror` handler: the engine failed on `u`. The failure is skipped over
        exactly as a completion is. */
    method OnError(u: Utterance, voice: string, rate: real)
      requires Valid()
      modifies this
      ensures AdvancedOn(u, voice, rate)
      ensures Valid()
      ensures old(Sequential()) && old(ReportedOnce(u)) ==> Sequential()
    {
      Advance(u, voice, rate);
    }

    /** The state-overwrite and button part of `updateUIState`: a missing state
        changes nothing; otherwise the speaking flag and the index are taken from the
        coordinator, and exactly one of play and stop is enabled. */
    method UpdateUIState(state: Option<Snapshot>)
      modifies this
      ensures state.None? ==>
                && isSpeaking == old(isSpeaking) && index == old(index)
                && playDisabled == old(playDisabled) && stopDisabled == old(stopDisabled)
      ensures state.Some? ==>
                && isSpeaking == state.value.isSpeaking && index == state.value.index
                && playDisabled == isSpeaking && stopDisabled == !isSpeaking
      ensures selectedText == old(selectedText) && queue == old(queue)
      ensures current == old(current) && engine == old(engine)
      ensures spoken == old(spoken) && sent == old(sent)
      ensures old(Valid()) ==> Valid()
    {
      if state.None? {
        return;
      }
      var s := state.value;
      isSpeaking := s.isSpeaking;
      index := s.index;
      playDisabled := isSpeaking;
      stopDisabled := !isSpeaking;
    }

    /** The play button: ask the coordinator to start, then speak the selected text
        if there is one. */
    method PlayClicked(voice: string, rate: real)
      modifies this
      ensures selectedText == [] ==>
                && sent == old(sent) + [Start(Some(selectedText))]
                && selectedText == old(selectedText) && isSpeaking == old(isSpeaking)
                && playDisabled == old(playDisabled) && stopDisabled == old(stopDisabled)
                && queue == old(queue) && index == old(index) && current == old(current)
                && engine == old(engine) && spoken == old(spoken)
      ensures selectedText != [] ==>
                && Started(selectedText, voice, rate, old(sent) + [Start(Some(selectedText))])
                && Valid() && Sequential()
      ensures old(Valid()) ==> Valid()
      ensures old(Sequential()) ==> Sequential()
    {
      sent := sent + [Start(Some(selectedText))];
      if selectedText != [] {
        SpeakText(selectedText, voice, rate);
      }
    }

    /** The stop button: tell the coordinator, then cancel and detach. */
    method StopClicked()
      modifies this
      ensures sent == old(sent) + [Stop]
      ensures engine == None && current == None
      ensures queue == old(queue) && index == old(index) && spoken == old(spoken)
      ensures selectedText == old(selectedText) && isSpeaking == old(isSpeaking)
      ensures playDisabled == old(playDisabled) && stopDisabled == old(stopDisabled)
      ensures Valid()
      ensures old(Sequential()) ==> Sequential()
    {
      sent := sent + [Stop];
      Cleanup();
    }

    /** A `performSpeech` message: speak its text unless there is none or the
        coordinator reported speaking. */
    method OnPerformSpeech(text: Option<string>, voice: string, rate: real)
      modifies this
      ensures text.Some? && text.value != [] && !old(isSpeaking) ==>
                Started(text.value, voice, rate, old(sent)) && Valid() && Sequential()
      ensures !(text.Some? && text.value != [] && !old(isSpeaking)) ==>
                && selectedText == old(selectedText) && isSpeaking == old(isSpeaking)
                && playDisabled == old(playDisabled) && stopDisabled == old(stopDisabled)
                && queue == old(queue) && index == old(index) && current == old(current)
                && engine == old(engine) && spoken == old(spoken) && sent == old(sent)
      ensures old(Valid()) ==> Valid()
      ensures old(Sequential()) ==> Sequential()
    {
      if text.Some? && text.value != [] && !isSpeaking {
        SpeakText(text.value, voice, rate);
      }
    }
  }

  /** Once playback is stopped, a late end or error report for the utterance that was
      playing moves nothing and sends nothing. */
  method LateReportIsIgnored(d: Driver, voice: string, rate: real)
    requires d.Valid() && d.current.Some?
    modifies d
    ensures d.index == old(d.index) && d.sent == old(d.sent) + [Stop]
    ensures d.engine == None && d.current == None
  {
    var u := d.current.value;
    d.StopClicked();
    d.OnEnd(u, voice, rate);
    d.OnError(u, voice, rate);
  }
}
