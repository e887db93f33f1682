# Location ingestion core — a Dafny model

The system receives location telemetry (latitude, longitude, altitude) as text
payloads over a request/reply socket. For each request the server thread
decodes three fields with a substring-search decoder (`parseField`), appends the
raw payload as one line to `location.json`, publishes the reading to a shared
`Location` cell under a mutex, and replies `OK`. A display thread copies the
cell out under the same mutex once per frame.

This project models that core as pure functions over immutable values:

- `values.dfy` (`Values`): `Float32` (a C++ `float` kept as its bit pattern;
  `PositiveZero` is `0.0f`), `Option`, `Result`, and `Converter`, the
  uninterpreted, partial text-to-float conversion that stands for `std::stof`.
- `text_search.dfy` (`TextSearch`): `std::string::find` as `Find`, with a
  declarative partner (`OccursAt`, `IsFirstOccurrence`).
- `field_decoder.dfy` (`FieldDecoder`): `parseField` as `ParseField`; the needle
  `"<key>":`, the index just past its colon, and the conversion of the suffix.
- `location_cell.dfy` (`LocationCell`): the `Location` struct, its initial
  state, the publish block, the snapshot block, and `Replay`, an arbitrary
  interleaving of publishes and snapshots, each lock-guarded block being one
  atomic transition.
- `append_log.dfy` (`AppendLog`): the log as the sequence of lines written,
  the file text those lines make, and reading the file back as lines.
- `ingestion_server.dfy` (`IngestionServer`): one loop iteration as `Step`
  (server state and payload to new state and reply), and `Run`, the loop folded
  over a sequence of payloads. Both take the payload decoder as a parameter;
  the server's decoder is `Fields(convert)`, the three `parseField` calls of
  `DecodeReading`.

`std::stof` is called without a `try` (src/main.cpp:28), so an unconvertible
value is not replaced by `0.0f`: the exception escapes `run_server` before the
file write and the publish, and ends the process. In the model, `ParseField`
returns `Failure(Unconvertible(key, text))`, `Step` returns `Aborted` with the
server state unchanged, and `Run` stops at that payload. A key that is absent
yields `0.0f`, as the code does.

## Model

| member | source | states |
|---|---|---|
| TextSearch.FindFrom | src/main.cpp:25 | the scan from `from` returns the first index at or after `from` where the needle occurs, or None exactly when it occurs nowhere from there |
| TextSearch.Find | src/main.cpp:25 | `json.find(needle)`: Some exactly when the needle occurs; the index is the first occurrence and the match lies inside the text (None stands for npos) |
| TextSearch.FindStableUnderAppend | src/main.cpp:25 | text appended after a match never moves the first match, so a later duplicate never wins |
| FieldDecoder.Needle | src/main.cpp:25 | the searched literal is quote, key, quote, colon; its length is `key.size() + 3` |
| FieldDecoder.Convert | src/main.cpp:28 | the conversion succeeds exactly when the converter accepts the text; a rejection is an error naming the key and the text, never a default |
| FieldDecoder.ParseField | src/main.cpp:24-29 | an absent needle gives 0.0f; otherwise the result is the conversion of the payload from one past the colon of the FIRST occurrence, which lies within the payload; any failure names this key and implies the needle was present |
| FieldDecoder.ValueStart | src/main.cpp:25-28 | the conversion start exists exactly when the needle occurs; it is at most the payload length, so `substr` is in range; it is `|key| + 3` past the first occurrence, right after its colon |
| FieldDecoder.NeedleShape | src/main.cpp:25-27 | where the needle occurs, the payload holds the key one place after the match and the colon at offset `|key| + 2`, so `pos + key.size() + 3` is one past the colon |
| FieldDecoder.ParseFieldUsesValueStart | src/main.cpp:25-28 | no start gives 0.0f; a start gives the conversion of the suffix from that start |
| FieldDecoder.AbsentKeyIgnoresConversion | src/main.cpp:25-26 | with the needle absent, the result is 0.0f whatever the conversion does, so the conversion is never consulted |
| FieldDecoder.SuffixDeterminesValue | src/main.cpp:27-28 | two payloads whose texts after their first needles agree decode to the same result, whatever precedes the needles |
| FieldDecoder.LaterDuplicateIgnored | src/main.cpp:25 | appending text (including another `"<key>":`) to a payload that has the key leaves its first occurrence, hence the conversion start, unchanged |
| FieldDecoder.KeyAfterQuoteFreePrefix | src/main.cpp:24-29 | in `pre + "<key>": + rest` with no quote in `pre`, the field decodes as the conversion of exactly `rest` |
| FieldDecoder.KeyAfterNeedleFreePrefix | src/main.cpp:24-29 | in `pre + "<key>": + rest` where no copy of `"<key>":` starts inside `pre` (so `pre` may hold other quoted keys and values), the field decodes as the conversion of exactly `rest` |
| LocationCell.Publish | src/main.cpp:52-58 | after the locked write the flag is up and the cell holds exactly the new reading, all three fields from it |
| LocationCell.Snapshot | src/main.cpp:110-116 | the copied tuple carries the cell's reading and its flag |
| LocationCell.SnapshotInjective | src/main.cpp:110-116 | equal snapshots come from equal cells: a snapshot loses nothing |
| LocationCell.SnapshotAfterPublish | src/main.cpp:52-58 | a read right after a publish returns that reading in full with the flag up |
| LocationCell.PublishOverwrites | src/main.cpp:53-56 | the state after a publish does not depend on the state before it, and republishing the same reading changes nothing |
| LocationCell.InitialSnapshot | src/main.cpp:15-20 | the initial cell reads as (0.0f, 0.0f, 0.0f, false) |
| LocationCell.Replay | src/main.cpp:52-58 | over any interleaving of publishes and snapshots: every snapshot is the starting state's or a published reading in full with the flag up (never torn); once a snapshot shows the flag up, all later ones do; the flag never goes down; the final cell is the start or holds a published reading, and holds one as soon as anything was published; there is exactly one snapshot per snapshot operation |
| LocationCell.ReplayLastWriterWins | src/main.cpp:53-57 | after any interleaving the cell is the start when nothing was published, else exactly the last published reading with the flag up |
| LocationCell.ReplayConcat | src/main.cpp:52-58 | replaying two stretches of operations one after the other is replaying their concatenation: the cell is threaded through and the snapshots of the second stretch follow those of the first |
| LocationCell.SnapshotIsCurrent | src/main.cpp:110-116 | a snapshot taken after some operations is exactly the snapshot of the cell those operations left, whatever follows it |
| LocationCell.FlagStaysUp | src/main.cpp:57 | once anything has been published, every later snapshot shows the flag up |
| LocationCell.SnapshotsLeaveCell | src/main.cpp:110-116 | snapshots never change the cell: any interleaving ends where its publishes alone, in the same order, end |
| LocationCell.FlagRaisedIffPublished | src/main.cpp:52-58 | starting from the initial cell, the flag is up exactly when at least one publish happened |
| AppendLog.Append | src/main.cpp:48-50 | one write appends the payload as the newest line, verbatim, and keeps every older line in place |
| AppendLog.FileTextAppend | src/main.cpp:48-50 | appending a line adds the payload followed by a newline to the end of the file text |
| AppendLog.FileTextConcat | src/main.cpp:48-50 | the file text of a concatenated log is the concatenation of the file texts |
| AppendLog.SplitFirstLine | src/main.cpp:49 | a one-line payload followed by its newline is read back as the first line, and the rest of the file is read on from there |
| AppendLog.SplitFileText | src/main.cpp:49 | reading the file back as lines returns the logged payloads, in order and unmodified, when no payload contains a newline |
| AppendLog.NewlineInPayloadSplits | src/main.cpp:49 | the payload `a\nb` reads back as two lines, so line framing alone cannot recover it |
| IngestionServer.DecodeReading | src/main.cpp:44-46 | the reading decodes exactly when all three fields do, each field equal to its own ParseField; on failure the error is the first failing field in the order latitude, longitude, altitude |
| IngestionServer.Step | src/main.cpp:41-60 | a request is handled exactly when its reading decodes; then the reply is "OK", the log gains exactly this payload, and the cell is the decoded reading published; otherwise nothing changes and the error is the decoding error |
| IngestionServer.StepPublishesFields | src/main.cpp:44-57 | after a handled request the flag is up and each of the three cell fields equals that payload's own parseField result for its key; the file gains payload and newline |
| IngestionServer.Run | src/main.cpp:37-61 | after a run the log is the old log followed by the handled payloads in order; each handled request got one "OK" and decoded; the run stops only at a payload whose decoding fails, with that error; the cell holds the last handled reading, or is untouched if none; the flag never goes down |
| IngestionServer.RunAllDecoded | src/main.cpp:37-61 | when every payload decodes, the log gains exactly p1..pN in order, the replies are N copies of "OK", and the loop does not stop |
| IngestionServer.RunFileText | src/main.cpp:48-50 | the file after a run is the old file followed by one line per handled payload |
| IngestionServer.FlagRaisedIffHandled | src/main.cpp:57 | from the initial cell the flag is up after a run exactly when at least one request was handled |
| IngestionServer.RunPublishesInOrder | src/main.cpp:52-58 | the final cell equals replaying the run's publishes in order, one per handled request |
| IngestionServer.InterleavedRunCell | src/main.cpp:52-58 | for any interleaving of display snapshots with the run's publishes (the publishes kept in order), the cell ends exactly where the run leaves it |
| IngestionServer.LatitudeOnlyScenario | src/main.cpp:44-60 | for `{"latitude":1.0}` the latitude is the conversion of `1.0}`, longitude and altitude are 0.0f, the payload is logged verbatim, and the reply is "OK" |

## Left out

- The request/reply socket (src/main.cpp:32-39, 60): context, bind to port 2222, receive and send are network I/O. Only the reply value `OK` and the one-request-at-a-time order are modelled: `Run` takes the received payloads as a sequence and handles each before the next.
- The payload is modelled as a `string` (a sequence of characters). The source copies the received bytes into a `std::string` unchanged (src/main.cpp:41).
- File handling (src/main.cpp:48-50): opening `location.json` in append mode and closing it are file I/O. The log is the sequence of lines written. The source ignores a failed open; the model assumes every write succeeds.
- Threads and the mutex (src/main.cpp:22, 53, 111, 150-152) are concurrency. Each locked block is one atomic transition, and `Replay` takes any interleaving of them.
- The numeric behaviour of `std::stof` is floating-point parsing in a foreign library. This covers whitespace skipping, the longest numeric prefix and range errors. It is the `Converter` parameter, a partial function: `None` is a thrown exception.
- The uncaught exception ends the process. The model keeps only its effect on the core: `Step` returns `Aborted` with the state unchanged and `Run` stops.
- Float values are kept as bit patterns and never computed with, because the core only copies them.
- Console output (src/main.cpp:35, 42), the SDL/OpenGL/ImGui rendering loop (src/main.cpp:65-109, 117-144) and `main` are UI and process plumbing. The snapshot read at src/main.cpp:110-116 is modelled as `LocationCell.Snapshot`.
- The unused receive result `res` (src/main.cpp:39) is not modelled.
