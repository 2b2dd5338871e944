# Right-Click TTS Reader: a verified model of its playback core

The extension reads selected page text aloud. Two surfaces hold its state:

- the **popup** (`popup.js`), which packs the text's sentences into chunks of at
  most 600 characters (a single longer sentence becomes a chunk of its own) and
  hands them to the speech engine one at a time;
- the **background coordinator** (`background.js`), which keeps the reading
  state, splits the text into sentences of its own (with an abbreviation pass),
  and broadcasts every change to any open popup.

This project models both in Dafny:

| file | models |
|---|---|
| `JsText.dfy` | the JavaScript string built-ins both surfaces use: `trim`, the line terminators `.` refuses, `\w` for `\b`, `undefined` |
| `SentenceRegex.dfy` | the sentence regular expression (a sentence, or else the rest of the line) with the global flag, as a greedy scanner under the matching rules of ECMA-262 section 22.2 |
| `Chunker.dfy` | the popup's `splitText`: a specification function `Pack` and the loop `PackSentences` proved equal to it |
| `Driver.dfy` | the popup's playback state machine (`speakText`, `speakNext`, `cleanupUtterances`, the `onend`/`onerror` handlers, the state part of `updateUIState`, the play and stop buttons, `performSpeech`) as a class |
| `Splitter.dfy` | the coordinator's `splitText`: abbreviation pass, sentence split, restore, trim, filter |
| `Messages.dfy` | the messages exchanged between the two surfaces |
| `Coordinator.dfy` | `initializeExtension`, `updateState` with its index clamp, and the `onMessage` handler, as a class |
| `Extension.dfy` | the two surfaces together: the driver's messages handled by the coordinator and its broadcasts handed back |

Outgoing messages are appended to a log field (`sent` in the driver, `outbox`
in the coordinator). The speech engine is a field holding the in-flight
utterance. Its completion and failure reports are method calls.

The comment on the abbreviation pass (background.js:42) says that common
abbreviations should not split sentences. The code does not always do that, and
the model follows the code:

- The abbreviation pattern is `\b<abbr>\b`. A word character must follow the
  period, so "Dr. Smith" is not protected and its period still ends a sentence:
  the first match of "Dr. Smith" is "Dr.". `Splitter.ProtectedBeforeWord` and
  `Splitter.UnprotectedBeforeSpace` prove that "Dr.Smith" is protected and
  "Dr. Smith" is not; `SentenceRegex.PeriodAfterDrEndsSentence` proves where the
  first sentence match of "Dr. Smith" ends.
- The period of an abbreviation is not escaped in the pattern, so it matches any
  character. The replacement is the abbreviation's own text, so "Mrs Smith"
  becomes "Mr{abbr-dot} Smith" and is restored as "Mr. Smith".
  `Splitter.WildcardPeriodRewritesText` proves this.
  `Splitter.ProtectAbbreviationRoundTrip` and `Splitter.ListedRoundTrip` prove
  the round trip does hold wherever the pattern matches only the abbreviation
  itself.
- For the same reason `Mrs.` is never protected. The `Mr.` pass runs first and
  turns "Mrs. Smith" into "Mr{abbr-dot}. Smith" (`Splitter.MrPassTakesMrsPeriod`),
  so the period of `Mrs.` ends a sentence that is restored as "Mr..".
- The popup pushes `current.trim()` after testing `current`, not its trim. A
  sentence of exactly 600 characters followed by trailing white space gives an
  empty last chunk (`Chunker.BlankTailChunk`, and `Chunker.BlankTailText` for 599
  non-terminals, a period and two spaces).
- `getState` derives its status from the speaking flag alone. After a stop it
  reports "Ready", not "Stopped"; see `Coordinator.StopThenGetState`.
- With no selected text, a state update saying the coordinator is idle enables
  play. A click then sends `start` with the empty text. The coordinator reads an
  empty queue and reports "Reading", and the popup, taking that update, shows play
  disabled and stop enabled. Since the popup speaks nothing, no `speechEnded`
  clears the coordinator; only stop does (`Extension.EmptyPlayKeepsReading`).
- The two surfaces count chunks with different splitters (the 600-character
  packer in the popup, the abbreviation-aware sentence splitter in the
  coordinator). The model states nothing that relates the two counts.

## Model

| member | source | states |
|---|---|---|
| JsText.Trim | background.js:51 | the result is the infix of the input left after cutting the white space and line terminators at both ends; nothing more could be cut |
| JsText.TrimIdempotent | popup.js:96 | trimming twice is trimming once; a string is its own trim exactly when it has no white space at either end |
| SentenceRegex.MatchAt | popup.js:90 | the match starting at a position: the first alternative whenever it can match, each part greedy (non-terminals, then all terminals, then all closers); else `.+` to the end of the line; else no match, only at the end or at a line terminator with no terminal after it |
| SentenceRegex.MatchesFromNonEmpty | popup.js:90 | no match is the empty string |
| SentenceRegex.MatchesFromCover | popup.js:90 | for text without line breaks, the matches joined are the text exactly |
| SentenceRegex.MatchesFromEmpty | background.js:48 | `match` finds nothing exactly when the text is made of line terminators only, which is when the text itself stands as the one sentence |
| SentenceRegex.SentencesShape | popup.js:90 | `""` gives the one sentence `""`; any other text gives non-empty sentences; a text without line breaks is its sentences joined |
| SentenceRegex.PeriodAfterDrEndsSentence | background.js:48 | the first sentence match of "Dr. Smith" is "Dr.": its period ends the sentence |
| SentenceRegex.SentenceThenBlank | popup.js:90 | a run of non-terminals, a period and two spaces gives the sentence and then the blank `.+` match |
| Chunker.SplitIntoChunks | popup.js:86-103 | the chunks of a text are the trimmed greedy packing of its sentences (`ChunkText`) |
| Chunker.PackSentences | popup.js:92-102 | the loop returns exactly the greedy packing of the sentences, each chunk trimmed, the last one included |
| Chunker.PackKeepsText | popup.js:92-100 | the untrimmed chunks joined are the sentences joined, in order and with nothing dropped; there are no more chunks than sentences |
| Chunker.PackBounded | popup.js:93-98 | every untrimmed chunk is non-empty, and is at most 600 characters unless it is a single sentence |
| Chunker.ChunkTextEmpty | popup.js:89-102 | the empty text gives no chunks |
| Chunker.ChunksBounded | popup.js:87-98 | every chunk is at most 600 characters, or is the trimmed form of one sentence that alone is longer; each such sentence is never cut: its trimmed form is a chunk of its own |
| Chunker.PackKeepsOversized | popup.js:93-98 | every sentence over 600 characters is one of the untrimmed chunks, as it is |
| Chunker.BlankTailChunk | popup.js:96-100 | a sentence of exactly 600 characters followed by a blank one gives an empty last chunk |
| Chunker.BlankTailText | popup.js:86-102 | `splitText` of 599 non-terminals, a period and two spaces gives two chunks, the second one empty |
| Chunker.ChunksKeepOrder | popup.js:90-100 | the untrimmed chunks joined are the sentences joined, and the input itself when it has no line breaks; no more chunks than sentences |
| Driver.Driver.constructor | popup.js:14-35 | the popup starts with an empty queue at index 0, no utterance, the buttons as the page declares them, and play disabled when there is no selected text |
| Driver.Driver.Cleanup | popup.js:148-155 | the engine is cancelled and the current utterance is detached; nothing else changes |
| Driver.Driver.SpeakNext | popup.js:115-146 | past the end of the queue, `speechEnded` is sent once and nothing is spoken; otherwise exactly the chunk at the index is spoken, with the voice and rate chosen now and volume 1.0 |
| Driver.Driver.SpeakText | popup.js:105-113 | after cancelling, the queue is replaced by the chunks of the text, the index is 0, the first chunk is spoken (or `speechEnded` sent when there is none), and nothing else changes |
| Driver.Driver.Advance | popup.js:132-143 | for the current utterance: index plus one, `updateProgress` with the new index, the next chunk spoken; for a detached one: nothing changes; the index stays within the queue |
| Driver.Driver.OnEnd | popup.js:132-136 | the end report makes the shared transition of `Advance` |
| Driver.Driver.OnError | popup.js:138-143 | the error report makes the very same transition as the end report: the failed chunk is skipped |
| Driver.Driver.UpdateUIState | popup.js:198-205 | a missing state changes nothing; otherwise the speaking flag and the index are taken from the coordinator, and exactly one of play and stop is enabled |
| Driver.Driver.PlayClicked | popup.js:167-170 | `start` is sent with the selected text; with text, `speakText` follows it in full; without, nothing else changes; the index stays in step with the engine |
| Driver.Driver.StopClicked | popup.js:172-175 | `stop` is sent, then the engine is cancelled and nothing stays attached; queue, index, flag, text and buttons are kept |
| Driver.Driver.OnPerformSpeech | popup.js:190-193 | when there is text and the popup does not believe it is speaking, `speakText` runs in full; otherwise nothing at all changes |
| Driver.LateReportIsIgnored | popup.js:148-155 | after a stop, late end and error reports for the utterance that was playing move nothing and send nothing |
| Splitter.ReplaceOnlyAtMatches | background.js:44-45 | where the abbreviation's pattern, both word boundaries included, matches nowhere from a position on, the pass leaves the rest of the text as it is |
| Splitter.ReplaceKeepsPlainPrefix | background.js:44-45 | where the pattern matches at no position of a stretch, the pass copies that stretch as it is and goes on after it |
| Splitter.RestorePrefix | background.js:51 | a restored string begins with a period-free word only if the string before restoring did |
| Splitter.RestoreRemovesPlaceholders | background.js:51 | no `{abbr-dot}` survives the restore |
| Splitter.CleanSentences | background.js:51 | every sentence kept is non-empty, trimmed and free of the placeholder |
| Splitter.SplitProtectedClean | background.js:44-51 | whatever the earlier passes made of the text, the remaining passes, the split and the clean-up give only non-empty, trimmed sentences without the placeholder |
| Splitter.SplitSentencesClean | background.js:39-52 | empty text gives no sentences; every sentence is non-empty, trimmed and free of the placeholder |
| Splitter.AbbreviationsHideAPeriod | background.js:43 | each abbreviation of the list has a period to hide |
| Splitter.RestoreAfterPlain | background.js:51 | restoring leaves a prefix without `{` as it is and restores only what follows |
| Splitter.RestoreHidden | background.js:45 | restoring the hidden form of an abbreviation gives the abbreviation back, since only its first period was replaced |
| Splitter.RestoreUndoesPassFrom | background.js:44-51 | from any position on, restoring gives back the text one abbreviation pass rewrote, where the pattern matches only the abbreviation itself |
| Splitter.ProtectAbbreviationRoundTrip | background.js:44-51 | restoring undoes one abbreviation pass, for text without `{` where the pattern matches only the abbreviation itself |
| Splitter.ListedRoundTrip | background.js:43-51 | the round trip holds for each of the seven listed abbreviations, under the same condition |
| Splitter.MrPassRewritesMrs | background.js:43-45 | the `Mr.` pass rewrites "Mrs Smith" to "Mr{abbr-dot} Smith" |
| Splitter.RestoreMrPlaceholder | background.js:51 | restoring "Mr{abbr-dot} Smith" gives "Mr. Smith" |
| Splitter.WildcardPeriodRewritesText | background.js:43-45 | with the period as a wildcard, "Mrs Smith" is rewritten by the `Mr.` pass and restored as "Mr. Smith" |
| Splitter.MrPassTakesMrsPeriod | background.js:43-45 | the `Mr.` pass turns "Mrs. Smith" into "Mr{abbr-dot}. Smith", so the period of `Mrs.` is never hidden |
| Splitter.ProtectedBeforeWord | background.js:44-45 | "Dr.Smith" is protected, since a word character follows the period |
| Splitter.UnprotectedBeforeSpace | background.js:44-45 | "Dr. Smith" is left as it is, because `\b` after the period needs a word character next |
| Coordinator.Clamp | background.js:60 | the written index is 0 for an empty queue and below the queue length otherwise; an index in range is kept, one past the end becomes the last, a negative one becomes 0 |
| Coordinator.ClampIdempotent | background.js:59-61 | clamping an already clamped index changes nothing |
| Coordinator.Progress | background.js:130-132 | the percentage is 0 for an empty queue, within [0, 100] for an index within the queue, below 100 before the last chunk, and 0 exactly at the first chunk |
| Coordinator.Coordinator.constructor | background.js:2-5 | empty queue, index 0, neither speaking nor paused |
| Coordinator.Coordinator.Initialize | background.js:8-13 | the state is reset to the empty queue at index 0, not speaking and not paused |
| Coordinator.Coordinator.UpdateState | background.js:55-82 | each given change is applied, the index only through the clamp, and the whole state is broadcast once with the given status or `""` |
| Coordinator.Coordinator.Start | background.js:88-106 | while speaking: nothing changes and nothing is sent; otherwise the queue becomes the sentences of the text at index 0, speaking and not paused, then "Reading" is broadcast and `performSpeech` carries the original text |
| Coordinator.Coordinator.UpdateProgress | background.js:108-114 | only the index changes, to the clamped position (0 when missing); the speaking flag is not consulted |
| Coordinator.Coordinator.Finish | background.js:116-122 | both flags are cleared and queue and index kept; the status is only broadcast |
| Coordinator.Coordinator.GetState | background.js:124-137 | the report is the state as it is, with the queue length, the progress percentage, and "Reading" exactly when speaking, else "Ready" |
| Coordinator.Coordinator.Handle | background.js:85-141 | each action's transition; `getState` changes nothing and is the only one answered; an unknown action changes nothing; the index stays within the queue and nothing pauses |
| Coordinator.Coordinator.HandleError | background.js:142-146 | an error clears both flags, broadcasts "Error" and answers with the message |
| Coordinator.StopIsIdempotent | background.js:120-122 | a second stop leaves the state as the first left it and only broadcasts the same update again |
| Coordinator.SecondStartIsIgnored | background.js:88-89 | a `start` while the first text is being read keeps the first text's queue |
| Coordinator.ProgressStaysInQueue | background.js:108-114 | whatever positions the popup reports, the index stays within the queue |
| Coordinator.StopThenGetState | background.js:120-135 | right after a stop, the state report says "Ready" at the index the stop found |
| Extension.EmptyPlayKeepsReading | popup.js:167-170 | with no selected text, an idle state update enables play; a click sends `start` with the empty text; the coordinator then reads an empty queue and stays speaking, the popup takes its "Reading" update (play disabled, stop enabled), and nothing is spoken |

## Left out

- The `chrome.*` calls (runtime messaging, storage, context menus, `openPopup`) are I/O. Outgoing messages are modelled only as appended log entries, and incoming ones as method calls. The context-menu handler and the storage of the selected text are not modelled.
- The speech engine is reduced to one in-flight utterance plus end and error reports. Choosing the voice by name is a foreign capability, so an utterance carries the voice name it was asked for.
- `Driver.Driver.SpeakText` treats the 100 ms `setTimeout` as immediate. A report arriving during that delay is not modelled.
- Voice loading and its polling retries (`loadVoices`) are timers over the engine and the page.
- Page rendering is not modelled: status labels, colours, the progress bar and the chunk counters in `updateUIState`.
- `Driver.Driver.Advance`: a report acts only for the utterance in `current`. In the source, `speakNext` replaces `currentUtterance` without detaching the handlers of the previous one, so the model relies on the engine reporting each utterance once (`ReportedOnce`).
- `Driver.Driver.constructor`: the initial state of both buttons comes from the page markup, which is not part of this model, and is taken as parameters. At load, the code disables play only when there is no text.
- `Driver.Driver.UpdateUIState` does not model the popup's `isPaused`, which is written to `false` and never read.
- `Coordinator.Coordinator.UpdateState` does not model the broadcast `progress` percentage. It is floating point, and `updateProgress` computes it from the unclamped position, dividing by zero on an empty queue.
- `Coordinator.Progress` uses exact rationals in place of IEEE doubles.
- `Coordinator.Coordinator.HandleError` is a separate operation. With messages typed as here, nothing in `Handle` can raise an error. The `console` logging in both files is left out.
- Interleaving between the two surfaces is left out. A broadcast clamped against the coordinator's queue may overwrite the driver's index mid-playback, so `UpdateUIState` is an arbitrary external write. `Sequential` is proved to be kept by every other driver operation; the end and error reports keep it for a report the engine makes once (`ReportedOnce`).
- Lengths are counted in characters (Unicode scalar values), not in JavaScript's UTF-16 code units. The two differ only for text outside the Basic Multilingual Plane.
