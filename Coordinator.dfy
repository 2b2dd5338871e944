/** The background coordinator: the one record of what is being read, kept up to
    date by the popup's messages and broadcast to any open popup after each change. */
module Coordinator {
  import opened JsText
  import opened Messages
  import Splitter

  /** `Math.max(0, Math.min(i, len - 1))`: the index an update may write. */
  function Clamp(i: int, len: nat): (r: nat)
    ensures len == 0 ==> r == 0
    ensures len > 0 ==> r < len
    ensures 0 <= i < len ==> r == i
    ensures len > 0 && i >= len ==> r == len - 1
    ensures i <= 0 ==> r == 0
  {
    var upper := if i < len - 1 then i else len - 1;
    if upper < 0 then 0 else upper
  }

  /** Clamping twice is clamping once. */
  lemma ClampIdempotent(i: int, len: nat)
    ensures Clamp(Clamp(i, len), len) == Clamp(i, len)
  {
  }

  /** The percentage `getState` reports: the share of the queue before the index,
      and 0 for an empty queue. */
  function Progress(index: nat, total: nat): (r: real)
    ensures total == 0 ==> r == 0.0
    ensures index <= total ==> 0.0 <= r <= 100.0
    ensures index < total ==> r < 100.0
    ensures total > 0 ==> (r == 0.0 <==> index == 0)
  {
    if total > 0 then
      var share := index as real / total as real;
      assert share * total as real == index as real;
      share * 100.0
    else 0.0
  }

  /** An argument of `updateState`: each field is left as it is when its change is
      `None`, and `status` is `""` when the update names none. */
  datatype Changes = Changes(isSpeaking: Option<bool>, isPaused: Option<bool>, index: Option<int>, status: string)

  class Coordinator {
    /** `utteranceQueue`: the sentences of the text being read. */
    var queue: seq<string>
    /** `currentUtteranceIndex`. */
    var index: nat
    var isSpeaking: bool
    var isPaused: bool
    /** Every message sent to the open popups, in order. */
    var outbox: seq<Broadcast>

    /** The index is a position of the queue (0 when it is empty), and nothing ever
        pauses. */
    ghost predicate Valid()
      reads this
    {
      && (|queue| == 0 ==> index == 0)
      && (|queue| > 0 ==> index < |queue|)
      && !isPaused
    }

    /** The state at load, before any message. */
    constructor ()
      ensures queue == [] && index == 0 && !isSpeaking && !isPaused && outbox == []
      ensures Valid()
    {
      queue, index, isSpeaking, isPaused, outbox := [], 0, false, false, [];
    }

    /** `initializeExtension`, on install and on browser start: the state is reset
        (the context menu it also recreates is not modelled). */
    method Initialize()
      modifies this
      ensures queue == [] && index == 0 && !isSpeaking && !isPaused
      ensures outbox == old(outbox)
      ensures Valid()
    {
      queue, index, isSpeaking, isPaused := [], 0, false, false;
    }

    /** `updateState`: apply the changes, writing the index only through the clamp,
        then broadcast the whole state once. */
    method UpdateState(changes: Changes)
      modifies this
      ensures queue == old(queue)
      ensures isSpeaking == changes.isSpeaking.GetOr(old(isSpeaking))
      ensures isPaused == changes.isPaused.GetOr(old(isPaused))
      ensures changes.index.Some? ==> index == Clamp(changes.index.value, |queue|)
      ensures changes.index.None? ==> index == old(index)
      ensures outbox == old(outbox) + [StateUpdate(Snapshot(isSpeaking, isPaused, index, |queue|, changes.status))]
      ensures old(Valid()) && (changes.isPaused.Some? ==> !changes.isPaused.value) ==> Valid()
    {
      if changes.isSpeaking.Some? {
        isSpeaking := changes.isSpeaking.value;
      }
      if changes.isPaused.Some? {
        isPaused := changes.isPaused.value;
      }
      if changes.index.Some? {
        index := Clamp(changes.index.value, |queue|);
      }
      outbox := outbox + [StateUpdate(Snapshot(isSpeaking, isPaused, index, |queue|, changes.status))];
    }

    /** `start`: ignored while speaking; otherwise read the text's sentences from
        the first, broadcast "Reading", then ask the popup to speak the original text. */
    method Start(text: Option<string>)
      modifies this
      ensures old(isSpeaking) ==>
                && queue == old(queue) && index == old(index) && isSpeaking && isPaused == old(isPaused)
                && outbox == old(outbox)
      ensures !old(isSpeaking) ==>
                && queue == Splitter.SplitSentences(text.GetOr([])) && index == 0
                && isSpeaking && !isPaused
                && outbox == old(outbox) + [StateUpdate(Snapshot(true, false, 0, |queue|, "Reading")),
                                            PerformSpeech(text)]
      ensures old(Valid()) ==> Valid()
    {
      if !isSpeaking {
        queue := Splitter.SplitSentences(text.GetOr([]));
        index := 0;
        UpdateState(Changes(Some(true), Some(false), Some(0), "Reading"));
        outbox := outbox + [PerformSpeech(text)];
      }
    }

    /** `updateProgress`: only the index moves, to the clamped position (0 when
        missing); the speaking flag is not looked at. */
    method UpdateProgress(position: Option<int>)
      modifies this
      ensures queue == old(queue) && index == Clamp(position.GetOr(0), |queue|)
      ensures isSpeaking == old(isSpeaking) && isPaused == old(isPaused)
      ensures outbox == old(outbox) + [StateUpdate(Snapshot(isSpeaking, isPaused, index, |queue|, ""))]
      ensures old(Valid()) ==> Valid()
    {
      UpdateState(Changes(None, None, Some(position.GetOr(0)), ""));
    }

    /** `speechEnded` (status "Done") and `stop` (status "Stopped"): both flags are
        cleared, queue and index kept. */
    method Finish(status: string)
      modifies this
      ensures queue == old(queue) && index == old(index) && !isSpeaking && !isPaused
      ensures outbox == old(outbox) + [StateUpdate(Snapshot(false, false, index, |queue|, status))]
      ensures old(Valid()) ==> Valid()
    {
      UpdateState(Changes(Some(false), Some(false), None, status));
    }

    /** `getState`: the state as it is, with "Reading" or "Ready" as its status and
        the progress percentage. */
    method GetState() returns (response: Response)
      ensures response == StateReport(
                Snapshot(isSpeaking, isPaused, index, |queue|, if isSpeaking then "Reading" else "Ready"),
                Progress(index, |queue|))
    {
      var status := if isSpeaking then "Reading" else "Ready";
      response := StateReport(Snapshot(isSpeaking, isPaused, index, |queue|, status), Progress(index, |queue|));
    }

    /** The `onMessage` handler, for a message handled without an error: dispatch on
        the action; only `getState` answers, and any other action is ignored. */
    method Handle(msg: Request) returns (response: Option<Response>)
      modifies this
      ensures old(Valid()) ==> Valid()
      ensures msg.Start? ==>
                if old(isSpeaking) then
                  && queue == old(queue) && index == old(index) && isSpeaking && isPaused == old(isPaused)
                  && outbox == old(outbox)
                else
                  && queue == Splitter.SplitSentences(msg.text.GetOr([])) && index == 0
                  && isSpeaking && !isPaused
                  && outbox == old(outbox) + [StateUpdate(Snapshot(true, false, 0, |queue|, "Reading")),
                                              PerformSpeech(msg.text)]
      ensures msg.UpdateProgress? ==>
                && queue == old(queue) && index == Clamp(msg.position.GetOr(0), |queue|)
                && isSpeaking == old(isSpeaking) && isPaused == old(isPaused)
                && outbox == old(outbox) + [StateUpdate(Snapshot(isSpeaking, isPaused, index, |queue|, ""))]
      ensures msg.SpeechEnded? || msg.Stop? ==>
                && queue == old(queue) && index == old(index) && !isSpeaking && !isPaused
                && outbox == old(outbox) + [StateUpdate(Snapshot(false, false, index, |queue|,
                                                                 if msg.Stop? then "Stopped" else "Done"))]
      ensures msg.GetState? || msg.Unknown? ==>
                && queue == old(queue) && index == old(index)
                && isSpeaking == old(isSpeaking) && isPaused == old(isPaused) && outbox == old(outbox)
      ensures msg.GetState? ==>
                response == Some(StateReport(
                  Snapshot(isSpeaking, isPaused, index, |queue|, if isSpeaking then "Reading" else "Ready"),
                  Progress(index, |queue|)))
      ensures !msg.GetState? ==> response == None
    {
      response := None;
      match msg {
        case Start(text) =>
          Start(text);
        case UpdateProgress(position) =>
          UpdateProgress(position);
        case SpeechEnded =>
          Finish("Done");
        case Stop =>
          Finish("Stopped");
        case GetState =>
          var r := GetState();
          response := Some(r);
        case Unknown(_) =>
      }
    }

    /** The handler's `catch`: an error raised while handling clears both flags,
        broadcasts "Error" and answers with the error's message. */
    method HandleError(message: string) returns (response: Response)
      modifies this
      ensures queue == old(queue) && index == old(index) && !isSpeaking && !isPaused
      ensures outbox == old(outbox) + [StateUpdate(Snapshot(false, false, index, |queue|, "Error"))]
      ensures response == ErrorReport(message)
      ensures old(Valid()) ==> Valid()
    {
      UpdateState(Changes(Some(false), Some(false), None, "Error"));
      response := ErrorReport(message);
    }
  }

  /** Stopping twice leaves the state the first stop made; the second stop only
      broadcasts the same update again. */
  method StopIsIdempotent(c: Coordinator)
    modifies c
    ensures c.queue == old(c.queue) && c.index == old(c.index) && !c.isSpeaking && !c.isPaused
    ensures var update := StateUpdate(Snapshot(false, false, c.index, |c.queue|, "Stopped"));
            c.outbox == old(c.outbox) + [update, update]
  {
    var _ := c.Handle(Stop);
    var _ := c.Handle(Stop);
  }

  /** A second `start` while the first is being read is ignored: the queue of the
      first text stays. */
  method SecondStartIsIgnored(c: Coordinator, first: string, second: string)
    requires c.Valid() && !c.isSpeaking
    modifies c
    ensures c.queue == Splitter.SplitSentences(first) && c.index == 0 && c.isSpeaking
    ensures |c.outbox| == |old(c.outbox)| + 2
    ensures c.Valid()
  {
    var _ := c.Handle(Start(Some(first)));
    var _ := c.Handle(Start(Some(second)));
  }

  /** However the popup reports progress, the index stays within the queue. */
  method ProgressStaysInQueue(c: Coordinator, positions: seq<Option<int>>)
    requires c.Valid()
    modifies c
    ensures c.queue == old(c.queue) && c.isSpeaking == old(c.isSpeaking)
    ensures c.Valid()
    ensures |c.queue| > 0 ==> c.index < |c.queue|
  {
    var i := 0;
    while i < |positions|
      invariant 0 <= i <= |positions|
      invariant c.queue == old(c.queue) && c.isSpeaking == old(c.isSpeaking)
      invariant c.Valid()
    {
      var _ := c.Handle(UpdateProgress(positions[i]));
      i := i + 1;
    }
  }

  /** "Stopped" is only ever broadcast, never stored: asked right after a stop, the
      coordinator reports "Ready" at the index where the stop found it. */
  method StopThenGetState(c: Coordinator) returns (response: Response)
    modifies c
    ensures response.StateReport? && response.state.status == "Ready"
    ensures response.state.index == old(c.index) && !response.state.isSpeaking
  {
    var _ := c.Handle(Stop);
    var answer := c.Handle(GetState);
    response := answer.value;
  }
}
