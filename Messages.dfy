/** The messages the two surfaces exchange over the extension's runtime messaging. */
module Messages {
  import opened JsText

  /** A message to the coordinator, by its `action`. */
  datatype Request =
    | Start(text: Option<string>)
    | UpdateProgress(position: Option<int>)
    | SpeechEnded
    | Stop
    | GetState
    | Unknown(action: string)

  /** The state the coordinator broadcasts with `stateUpdate` (the broadcast
      `progress` percentage is not modelled). `status` is `""` when the update names
      none. */
  datatype Snapshot = Snapshot(isSpeaking: bool, isPaused: bool, index: nat, totalChunks: nat, status: string)

  /** A message from the coordinator to any open popup. */
  datatype Broadcast =
    | StateUpdate(state: Snapshot)
    | PerformSpeech(text: Option<string>)

  /** What the coordinator answers through `sendResponse`: its state and progress
      for `getState`, or the message of an error raised while handling. */
  datatype Response =
    | StateReport(state: Snapshot, progress: real)
    | ErrorReport(error: string)
}
