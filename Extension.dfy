/** The popup and the coordinator together: messages the driver sends are handed to
    the coordinator, and its broadcasts back to the driver. */
module Extension {
  import opened JsText
  import opened Messages
  import Driver
  import Coordinator

  /** With no selected text, a state update that says the coordinator is idle enables
      the play button. A click then sends `start` with the empty text: the coordinator
      reads an empty queue, broadcasts "Reading" and then `performSpeech` with the
      empty text. The popup takes the update (play disabled, stop enabled) and
      ignores the empty text, so it speaks nothing and never sends `speechEnded`:
      the coordinator stays speaking until stop is pressed. */
  method EmptyPlayKeepsReading(d: Driver.Driver, c: Coordinator.Coordinator, state: Snapshot,
                               voice: string, rate: real)
    requires d.selectedText == [] && !state.isSpeaking && !c.isSpeaking
    modifies d, c
    ensures d.playDisabled && !d.stopDisabled && d.isSpeaking
    ensures d.sent == old(d.sent) + [Start(Some([]))]
    ensures d.engine == old(d.engine) && d.spoken == old(d.spoken)
    ensures c.isSpeaking && c.queue == [] && c.index == 0
    ensures c.outbox == old(c.outbox) + [StateUpdate(Snapshot(true, false, 0, 0, "Reading")),
                                         PerformSpeech(Some([]))]
  {
    d.UpdateUIState(Some(state));
    d.PlayClicked(voice, rate);
    var start := d.sent[|d.sent| - 1];
    var _ := c.Handle(start);
    var reading := c.outbox[|c.outbox| - 2];
    var perform := c.outbox[|c.outbox| - 1];
    d.UpdateUIState(Some(reading.state));
    d.OnPerformSpeech(perform.text, voice, rate);
  }
}
