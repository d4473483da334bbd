# LSM plugin for Falco: decode cache and line framing

This project models the core of the Falco plugin that turns the output of the
`lsm-rs` sensor into Falco events (`pkg/lsm.go`):

* **Field extraction with a one-slot decode cache.** `Plugin.Extract` answers
  one field request for one event. The plugin keeps the number of the last
  decoded event and its decoded `LsmMessage`. A request for that number
  answers from the cache. A request for another number reads the payload and
  unmarshals it into a copy of the cached message. It stores the result
  before it looks at the field name. Then a `switch` maps the seven field
  names of the `Fields` table to the seven attributes.
* **Line framing in the worker of `Open`.** The worker reads the sensor's
  stdout with `ReadString('\n')` and pushes every line it gets, newline
  included. It stops at the first read error, so a last fragment with no
  newline is never pushed.
* **`String`**, which renders a payload unchanged.

Layout, one module per file:

* `base.dfy` (`Base`): `byte`, `u64`, `Option`, and `ReadOutcome`, the result of reading a payload.
* `message.dfy` (`Message`): `LsmMessage`, its JSON tags, and `Overlay`, which is what unmarshalling into an existing struct does.
* `fields.dfy` (`Fields`): the field table and the `switch`.
* `extractor.dfy` (`Extractor`): the cache as a value, the specification `ExtractStep`, runs of many requests, and the class `Plugin`. Its method `Extract` is proved equal to `ExtractStep`.
* `framing.dfy` (`Framing`): the specification `Frames`; the loop `Pump`, which is proved equal to it; and the loop `ReadString`, which is proved to return the bytes up to and including the next newline, or the rest of the stream at end of file.
* `pipeline.dfy` (`Pipeline`): `String`, and sessions that combine framing with extraction.

The JSON decoder is a parameter, `decode: Bytes -> DecodeOutcome`. It gives
either `Malformed` or the object's string members keyed by name. Reading the
payload is a value of the event: either the bytes or `ReadFailed`. Event
numbers are `u64`, as in the source. No arithmetic is done on them.

Behaviour of the code worth knowing, each stated by the members named:

* **Missing keys keep the previous event's value.** The code unmarshals into
  a copy of the cached message, so a key absent from a line keeps the
  previous event's value rather than becoming the empty string (`Overlay`,
  `OverlayWithoutTagsKeepsPrevious`). Only the first decode starts from
  empty strings.
* **Event 0 is a cache hit on a fresh plugin.** The cache starts at event
  number 0 with an all-empty message, so a request for event 0 answers `""`
  and decodes nothing (`FirstRequestForEventZero`, `SessionFromEventZero`).
  A session whose events are numbered from 1 decodes every event
  (`TwoEventSession`).
* **A failed read or decode is retried.** A failure leaves the cached number
  unchanged, so the next request for that number reads and decodes again,
  as if the failed request had not happened. It never answers from a stale
  message (`FailedDecodeIsRetried`).
* **Start errors are not reported.** The error from `cmd.Start()` is
  ignored, and a `StdoutPipe` error is only printed before the worker ends.
  Both are process I/O and are left out.

## Model

| member | source | states |
|---|---|---|
| Message.Get | pkg/lsm.go:39-47 | An attribute is found for a JSON tag exactly when it is one of the seven tags of `LsmMessage`. |
| Message.Overlay | pkg/lsm.go:112-126 | Unmarshalling into a copy of the previous message: each tag present in the payload takes the payload's value, and every other tag keeps the previous value. |
| Message.OverlayIgnoresUnknownKeys | pkg/lsm.go:126 | Payload members that are not tags of `LsmMessage` do not change the decoded message. |
| Message.OverlayWithoutTagsKeepsPrevious | pkg/lsm.go:112-126 | A payload with none of the tags decodes to the previous event's message, unchanged. |
| Message.OverlayWithAllTagsForgetsPrevious | pkg/lsm.go:126 | A payload carrying all seven tags decodes to the same message, whatever the previous one was. |
| Fields.TableShape | pkg/lsm.go:98-107 | The table has seven string-typed entries with distinct names, and these are exactly the names that have a JSON tag. |
| Fields.SelectFollowsTable | pkg/lsm.go:135-151 | The switch resolves a name if and only if the table declares it, and then gives the attribute with that name's JSON tag. |
| Extractor.AnswerIsTableLookup | pkg/lsm.go:135-152 | A value is set if and only if the field is declared, and it is the matching attribute. Otherwise the result is the "no known field" error. |
| Extractor.HitIgnoresPayload | pkg/lsm.go:112-117 | For the cached event number, the result does not depend on the payload or the decoder. The answer comes from the cached message and the cache is unchanged. |
| Extractor.Idempotent | pkg/lsm.go:111-155 | Repeating a request gives the same answer and leaves the same cache. |
| Extractor.FirstRequestForEventZero | pkg/lsm.go:112-117 | On a fresh plugin, a request for event 0 and any declared field answers `""`, does not decode, and keeps the initial cache. |
| Extractor.NewEventReplacesCache | pkg/lsm.go:117-133 | For a new number whose payload reads and decodes, the cache becomes that number and the overlaid message. The answer is the payload's value for the field's tag, or the previous value when the tag is missing, or the unknown-field error. |
| Extractor.FailureKeepsCache | pkg/lsm.go:118-129 | A failed read gives `ReadError` and a failed decode gives `DecodeError`. No value is set and the cache is unchanged. |
| Extractor.UnknownFieldStillCaches | pkg/lsm.go:131-151 | An undeclared field name fails, yet a successful decode has already moved the cache to the event's number. |
| Extractor.FailedDecodeIsRetried | pkg/lsm.go:117-129 | After a failed read or decode, the next request for the same number behaves exactly as if the failed request had not been made: it reads and decodes again and fails again. It does not answer from a stale cache. |
| Extractor.RunOnCachedEvent | pkg/lsm.go:112-117 | Any number of requests for the cached number decode nothing, keep the cache, and each answers from the cached message. |
| Extractor.DecodeOnce | pkg/lsm.go:114-133 | Any number of requests for one event whose payload decodes run the decoder exactly once if that event is not cached, and not at all if it is. The cache ends on that event. |
| Extractor.Plugin.constructor | pkg/lsm.go:32-37 | The cache fields start at their zero values: event 0 with an all-empty message. |
| Extractor.Plugin.Extract | pkg/lsm.go:111-155 | The imperative method's answer and new fields are those of `ExtractStep`. The decode counter grows by one exactly when the number is new and the read succeeds. |
| Framing.FirstNewline | pkg/lsm.go:181 | Gives the position of the first newline, with no newline before it, or None exactly when there is no newline. |
| Framing.ReadString | pkg/lsm.go:181 | The loop returns the bytes up to and including the next newline, which form a line. At end of file, without a newline, it returns the rest of the stream and reports the error. |
| Framing.Pump | pkg/lsm.go:179-188 | The worker loop pushes exactly `Frames(stream)`. |
| Framing.FramesOfLeadingLine | pkg/lsm.go:179-188 | A stream that starts with a line frames as that line followed by the frames of the rest. |
| Framing.FramesAreLines | pkg/lsm.go:181-187 | Every pushed payload ends with its newline and contains no other newline. |
| Framing.FramesCoverStream | pkg/lsm.go:180-184 | The pushed payloads, joined, are a prefix of the stream. What is left contains no newline, so only a trailing fragment is dropped. |
| Framing.FramesUnique | pkg/lsm.go:179-188 | Any split of a prefix of the stream into lines that leaves no newline behind equals `Frames`. |
| Framing.OneFramePerNewline | pkg/lsm.go:179-188 | One payload is pushed per newline in the stream. |
| Pipeline.Render | pkg/lsm.go:195-202 | `String` returns the payload bytes unchanged. On a read error it returns the empty string together with the error. |
| Pipeline.TwoLinesFrame | pkg/lsm.go:179-188 | A stream of two lines is pushed as exactly those two payloads. |
| Pipeline.TwoEventSession | pkg/lsm.go:111-155 | Two sensor lines numbered 1 and 2. Requests for path and uid on event 1 give `/etc/passwd` and `root` with one decode. A request for etype on event 2 gives `exec` with a second decode. |
| Pipeline.SessionFromEventZero | pkg/lsm.go:112-117 | The same session numbered 0 and 1. Event 0 is never decoded and answers `""`. |

## Left out

- Subprocess handling (`exec.Command`, `StdoutPipe`, `Start` with its ignored error, the deferred `Wait`): this is OS process I/O. The stream is given as a byte sequence.
- The goroutine, the unbuffered channel, `close(eventC)` and `source.NewPushInstance`: these are concurrency and backpressure. Only the order and contents of what is pushed are modelled (`Pump` returns the pushed payloads as a sequence).
- `close_fn`, which calls `os.Exit(0)`: process termination.
- The `fmt.Println` diagnostics: output only.
- The internals of `encoding/json` (case-insensitive key matching, `null`, non-string values, partial fills on a type mismatch): the decoder is a parameter giving `Malformed` or a map from member names to strings. On error the partly filled copy is discarded by `Extract`, so partial fills could not be observed anyway.
- `InitSchema`, `Init`, `setDefault` and the `Config` field: parsing the configuration with library code. The flush interval is not used by the modelled logic.
- `SetInfo`, `Info` and the package globals: registration glue. Note that `SetInfo` never assigns `Description`, so `Info` reports an empty description.
- plugin/main.go: identity constants and factory registration, with no logic.
- The `ReadString` error value: the model records only that the read ended. The fragment returned with the error is discarded, as in the source.
