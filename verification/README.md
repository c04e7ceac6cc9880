# OTA update session of the DHT22 ESP32 sensor

The firmware of the `iot_dht22ota` sensor node can be updated over the air
from a ThingsBoard server over MQTT. The node asks the server for its shared
firmware attributes: title, version and size. When a size arrives, it opens a
flash update transaction on the next OTA partition and reports `DOWNLOADING`.
It then requests the image chunk by chunk, at most 1024 bytes at a time, on
`v2/fw/request/1/chunk/<index>`.

Each chunk that arrives on `v2/fw/response/...` is handled in four steps:
- it is clipped to the bytes still missing;
- it is written to flash as a 4-byte-aligned part plus a short unaligned tail;
- it is counted in `RECEIVED_BYTES`;
- the node either asks for chunk `RECEIVED_BYTES / 1024` or, once every byte
  is in, closes the transaction, switches the boot partition, reports
  `UPDATED` and restarts.

A failed flash call reports `FAILED` and leaves the download open. There is
no separate failed state.

The project models this session in Dafny, in layers:

- `Common` (`common.dfy`): `Option`, bytes, and the 32-bit `usize`
  arithmetic of the ESP32. This covers the truncating cast, `saturating_sub`
  and the wrapping `fetch_add`.
- `Decimal` (`decimal.dfy`): the decimal text `to_string` and `format!` give
  a number, and a parser for it. They round-trip in both directions.
- `Chunking` (`chunking.dfy`): the byte arithmetic. It covers the request
  size, the clipped write length, the aligned/tail split and the next chunk
  index.
- `Messages` (`messages.dfy`):
  - the topics;
  - the three kinds of published message;
  - `Wire`, the topic and payload each message is published with. A
    receiver reads the state label, chunk index and size back from it, and
    tells any two messages apart.
  - the routing of received messages to the handlers.
- `OtaSession` (`session.dfy`): the globals `OTA_IN_PROGRESS`, `FW_SIZE`,
  `RECEIVED_BYTES`, `OTA_HANDLE`, `UPDATE_PARTITION`, `FW_TITLE` and
  `FW_VERSION`, plus a restart flag, as a value. Each handler is a function
  from that value to a `Step`, which holds:
  - the new globals;
  - the messages published;
  - the calls into the flash update API.

  The outcomes of those calls are an input (`FlashResults`).
- `OtaProperties` (`properties.dfy`): what one handler call does, case by
  case.
- `OtaDevice` (`device.dfy`): the globals as the fields of a `Device` object.
  It has one method per source function, and each follows that function
  statement by statement. Every method is proved to leave the fields, the
  ghost log of published messages and the ghost log of flash calls exactly as
  the matching `OtaSession` function says. It also keeps the session
  invariant (`RECEIVED_BYTES <= FW_SIZE < 2^32`, with title and version
  within their buffers).
- `OtaDownload` (`download.dfy`): a whole update against a server that
  answers each chunk request from the image, with every flash call
  succeeding. The node restarts after handing the flash exactly the image,
  in order. It publishes only chunk requests and then one `UPDATED` report,
  and a 1500-byte image is fetched as 1024 + 476 bytes.

Each MQTT callback runs under the client mutex, so each handler call is one
atomic step. The outcomes of the ESP-IDF calls are parameters:
- `esp_ota_get_next_update_partition`;
- `esp_ota_begin`;
- the two `esp_ota_write` calls;
- `esp_ota_end`.

`esp_ota_set_boot_partition` and `esp_restart` are recorded but cannot fail
in the source's view: their results are ignored.

## Model

| member | source | states |
|---|---|---|
| Common.SaturatingSub | iot_dht22ota/src/main.rs:194 | `saturating_sub`: the exact difference when it is not negative, 0 otherwise |
| Common.UsizeCast | iot_dht22ota/src/main.rs:171 | `size as usize` is the value reduced modulo 2^32: below 2^32 and congruent to the input, hence unchanged when it fits |
| Common.WrappingAdd | iot_dht22ota/src/main.rs:241 | `fetch_add` leaves the sum reduced modulo 2^32: below 2^32 and congruent to the sum, hence the plain sum when it fits |
| Decimal.Format | iot_dht22ota/src/main.rs:204 | `to_string` of a count gives canonical decimal digits: no sign, no leading zero; one digit exactly for values below 10 |
| Decimal.Parse | iot_dht22ota/src/main.rs:204 | a receiver's reading of a decimal payload succeeds exactly on canonical digit strings |
| Decimal.ParseFormat | iot_dht22ota/src/main.rs:204 | reading back a formatted count gives the count |
| Decimal.FormatParse | iot_dht22ota/src/main.rs:204 | formatting a parsed canonical string gives the string back |
| Decimal.FormatInjective | iot_dht22ota/src/main.rs:203-204 | different counts are formatted differently |
| Chunking.RequestSize | iot_dht22ota/src/main.rs:194-200 | the requested size is 0 exactly when nothing is missing; it is at most 1024 and at most the missing bytes, and it is either 1024 or all missing bytes |
| Chunking.WritableLen | iot_dht22ota/src/main.rs:224 | the clipped length is at most the payload and at most the missing bytes, and equals one of them |
| Chunking.FirstWriteLen | iot_dht22ota/src/main.rs:227-230 | the first write is never longer than the writable bytes; from 4 bytes on it is a multiple of 4 less than 4 short, below 4 it is all of them |
| Chunking.FirstWriteLenAsWritten | iot_dht22ota/src/main.rs:227-230 | the handler's test (remainder nonzero and length greater than it) picks the same first-write length |
| Chunking.SplitLengths | iot_dht22ota/src/main.rs:245 | first and tail length add up to the writable bytes; the tail is under 4, empty below 4 bytes, and `writable % 4` from 4 bytes on |
| Chunking.NextChunkIndex | iot_dht22ota/src/main.rs:284 | the next index is the chunk whose 1024-byte window holds offset `RECEIVED_BYTES` |
| Chunking.NextChunkStartsAtReceived | iot_dht22ota/src/main.rs:284 | the next chunk starts exactly at `RECEIVED_BYTES` if and only if that is a multiple of 1024 |
| Chunking.NextBoundary | iot_dht22ota/src/main.rs:284 | a full chunk after a chunk boundary is the next boundary, with the next index |
| Messages.ReportPayload | iot_dht22ota/src/main.rs:292 | the telemetry text `{"fw_state":"<label>"}` yields the label back to a receiver |
| Messages.ChunkRequestTopic | iot_dht22ota/src/main.rs:202-203 | the chunk request topic yields the chunk index back to a receiver |
| Messages.Wire | iot_dht22ota/src/main.rs:291-294 | state reports go to the telemetry topic with the label readable; chunk requests carry their index in the topic and their size as decimal text; the attributes request is the fixed topic and JSON text |
| Messages.WireInjective | iot_dht22ota/src/main.rs:203-205 | two published messages go out identically if and only if they are the same message |
| Messages.ChunkTopicIsNotFixed | iot_dht22ota/src/main.rs:20-22 | a chunk request topic is neither the telemetry topic nor the attributes request topic |
| Messages.RouteOf | iot_dht22ota/src/main.rs:91-102 | attributes handler if and only if the topic is the response topic; chunk handler if and only if a topic is present and starts with `v2/fw/response/`; a missing topic is dropped |
| Messages.SubscribedChunkTopicsReachChunkHandler | iot_dht22ota/src/main.rs:126 | every topic the `v2/fw/response/+/chunk/+` subscription delivers reaches the chunk handler |
| OtaSession.ChunkRequests | iot_dht22ota/src/main.rs:191-207 | nothing is published exactly when nothing is missing; otherwise one request for the given chunk of 1..1024 bytes, within the missing bytes, and a whole chunk unless fewer are missing |
| OtaSession.OnAttributes | iot_dht22ota/src/main.rs:143-188 | the metadata handler keeps the session invariant and never restarts |
| OtaSession.Finalize | iot_dht22ota/src/main.rs:268-281 | `esp_ota_end` first; the boot partition is switched if and only if it succeeds; the node restarts and reports `UPDATED` on success and reports `FAILED` otherwise, with nothing else changed |
| OtaSession.OnChunk | iot_dht22ota/src/main.rs:209-221 | the chunk handler keeps the invariant, changes only `RECEIVED_BYTES` and the restart flag, never lowers `RECEIVED_BYTES`, and restarts only with every byte in and after reporting just `UPDATED` |
| OtaSession.WriteStep | iot_dht22ota/src/main.rs:223-230 | the writing part has the same guarantees as the whole handler |
| OtaSession.FirstWriteStep | iot_dht22ota/src/main.rs:232-241 | the first write and its count have the same guarantees |
| OtaSession.TailStep | iot_dht22ota/src/main.rs:244-258 | the tail write and its count have the same guarantees |
| OtaSession.FinishStep | iot_dht22ota/src/main.rs:267-286 | the end of the handler changes nothing but the restart flag, and restarts only when every byte is in, after reporting just `UPDATED` |
| OtaSession.OnMessage | iot_dht22ota/src/main.rs:90-102 | a received message keeps the session invariant; a dropped one changes, publishes and writes nothing |
| OtaProperties.ChunkIgnoredUnlessActive | iot_dht22ota/src/main.rs:209-221 | with no open download or nothing missing a chunk leaves no trace; the flash is touched if and only if a download is open with bytes missing |
| OtaProperties.ChunkWriteSplit | iot_dht22ota/src/main.rs:224-250 | the first write takes the aligned prefix of the writable bytes; a failed one is the only flash call; the tail write takes the rest, under 4 bytes; there is no tail write when the first covered everything |
| OtaProperties.ChunkSuccessCalls | iot_dht22ota/src/main.rs:233-273 | with both writes succeeding, the flash calls are the split writes, followed by the finalization exactly when the image is complete |
| OtaProperties.ChunkSuccessWritesPrefix | iot_dht22ota/src/main.rs:233-257 | with both writes succeeding, the flash gets exactly the first `min(len, remaining)` payload bytes, in order, and `RECEIVED_BYTES` grows by exactly that |
| OtaProperties.ChunkFirstWriteFails | iot_dht22ota/src/main.rs:233-238 | a failed first write reports only `FAILED` and changes no global |
| OtaProperties.ChunkTailWriteFails | iot_dht22ota/src/main.rs:250-255 | a failed tail write reports only `FAILED`; only the aligned part is counted and the download stays open |
| OtaProperties.ChunkCompletesImage | iot_dht22ota/src/main.rs:268-281 | a chunk completing the image calls `esp_ota_end`. On success it switches the boot partition last, reports `UPDATED` and restarts. On failure it reports `FAILED`, and the open download then ignores every chunk |
| OtaProperties.ChunkRequestsNext | iot_dht22ota/src/main.rs:282-286 | a chunk leaving bytes missing publishes exactly one request, for chunk `RECEIVED_BYTES / 1024` |
| OtaProperties.ChunkStaysOnSession | iot_dht22ota/src/main.rs:233-273 | whatever the flash answers, every write and `esp_ota_end` of a chunk goes to `OTA_HANDLE`, and a chunk that restarts the node last set `UPDATE_PARTITION` as boot partition |
| OtaProperties.SucceedingChunkStep | iot_dht22ota/src/main.rs:209-286 | a chunk no longer than the missing bytes, every flash call succeeding, is written whole and counted; the node restarts with just `UPDATED` exactly when that completes the image, and otherwise publishes exactly the request for chunk `RECEIVED_BYTES / 1024` |
| OtaProperties.AttributesWithoutSizeIgnored | iot_dht22ota/src/main.rs:144-150 | a response with no `shared` object or no numeric `fw_size` changes and publishes nothing |
| OtaProperties.AttributesFailureKeepsDownload | iot_dht22ota/src/main.rs:153-167 | no partition or a failed begin reports `FAILED`; only the handle (reset to 0) and the partition pointer change, and begin is not called without a partition |
| OtaProperties.AttributesAccepted | iot_dht22ota/src/main.rs:156-183 | a successful begin opens a download of `size as usize` bytes from zero on the handle `esp_ota_begin` returned and the partition it was begun on, stores title and version with their defaults, reports `DOWNLOADING` and requests chunk 0 for `min(size, 1024)` bytes (nothing for size 0) |
| OtaProperties.FailedRestartWritesToHandleZero | iot_dht22ota/src/main.rs:153-167 | a second response whose begin fails leaves an open download writing to handle 0 |
| OtaProperties.ZeroSizeDownloadStalls | iot_dht22ota/src/main.rs:170-183 | a size of 0 (mod 2^32) reports `DOWNLOADING`, requests nothing, and then every chunk is ignored |
| OtaDevice.Device.constructor | iot_dht22ota/src/main.rs:33-44 | the globals start as their static initialisers, with empty logs |
| OtaDevice.Device.RequestFirmwareAttributes | iot_dht22ota/src/main.rs:137-141 | publishes the attributes request and changes no global |
| OtaDevice.Device.SendFwState | iot_dht22ota/src/main.rs:291-294 | publishes the state report and changes no global |
| OtaDevice.Device.RequestChunk | iot_dht22ota/src/main.rs:191-207 | publishes exactly `ChunkRequests` of the globals and changes no global |
| OtaDevice.Device.HandleOtaResponse | iot_dht22ota/src/main.rs:143-188 | new globals, published messages and flash calls are exactly those of `OnAttributes`, and the invariant holds |
| OtaDevice.Device.HandleFirmwareChunk | iot_dht22ota/src/main.rs:209-221 | new globals, messages and flash calls are exactly those of `OnChunk`, and the invariant holds |
| OtaDevice.Device.AlignedWriteLen | iot_dht22ota/src/main.rs:224-230 | the length the handler computes is `FirstWriteLen` of the writable bytes |
| OtaDevice.Device.WritePayload | iot_dht22ota/src/main.rs:223-245 | the effect is exactly that of `WriteStep` |
| OtaDevice.Device.WriteFirst | iot_dht22ota/src/main.rs:232-241 | the effect is exactly that of `FirstWriteStep`; the count does not wrap |
| OtaDevice.Device.WriteTail | iot_dht22ota/src/main.rs:244-258 | the effect is exactly that of `TailStep` |
| OtaDevice.Device.FinishChunk | iot_dht22ota/src/main.rs:267-286 | the effect is exactly that of `FinishStep` |
| OtaDevice.Device.OnReceived | iot_dht22ota/src/main.rs:90-102 | the effect is exactly that of `OnMessage` |
| OtaDownload.ServeAnswersRequest | iot_dht22ota/src/main.rs:199-205 | a server answering the outstanding request sends exactly the next `min(1024, missing)` image bytes |
| OtaDownload.ServedChunkStep | iot_dht22ota/src/main.rs:209-286 | a served chunk is written whole and counted; the node restarts with `UPDATED` exactly when the image is complete, and otherwise has the next request out on a chunk boundary |
| OtaDownload.RequestedSizeServerMisplacesLastChunk | iot_dht22ota/src/main.rs:200-205 | the short last request of a 1500-byte image (chunk 1, 476 bytes) gets the missing bytes only from a server offsetting by index × 1024; one offsetting by index × requested size returns bytes 476 to 952 |
| OtaDownload.DownloadCompletes | iot_dht22ota/src/main.rs:209-286 | from any chunk boundary the download ends restarted, with the flash handed exactly the rest of the image, in order, every write and `esp_ota_end` on `OTA_HANDLE` and the last call setting `UPDATE_PARTITION` as boot partition, and chunk requests then a single `UPDATED` published |
| OtaDownload.FeedCompletes | iot_dht22ota/src/main.rs:209-286 | with no server model, any sequence of payloads whose lengths add up to the missing bytes, every flash call succeeding, ends restarted with `FW_SIZE` bytes in, the flash handed exactly the payloads in order on `OTA_HANDLE` and `UPDATE_PARTITION` set as boot partition last, and chunk requests followed by a single `UPDATED` with no request after it |
| OtaDownload.UpdateInstallsImage | iot_dht22ota/src/main.rs:143-286 | an accepted response for a non-empty image reports `DOWNLOADING` and requests chunk 0; the download then restarts the node with `UPDATED` last, and the whole flash log begins the partition `esp_ota_get_next_update_partition` returned, writes exactly the image and calls `esp_ota_end` only on the handle `esp_ota_begin` returned, and ends by setting that partition as boot partition |
| OtaDownload.OpenedDownloadInstalls | iot_dht22ota/src/main.rs:233-273 | after an opening step whose only flash call is the begin, the download's flash log writes exactly the image on the session's handle and ends by setting the session's update partition as boot partition |
| OtaDownload.FifteenHundredByteOpening | iot_dht22ota/src/main.rs:170-183 | a 1500-byte image starts with `DOWNLOADING` and a request for 1024 bytes of chunk 0 |
| OtaDownload.FifteenHundredByteDownload | iot_dht22ota/src/main.rs:268-286 | a 1500-byte image then requests 476 bytes of chunk 1 and reports `UPDATED` |

## Left out

- WiFi setup, the MQTT client construction, the subscriptions, the waits for connection and the idle loop: I/O plumbing. The subscription pattern only appears as the topics it delivers.
- `serde_json` parsing of the attributes response: the handler receives the `shared` object already parsed. Each field is `None` when missing or of the wrong type; the `title`/`version` defaults and the `as_u64` size are kept.
- The UTF-8 fallback of the `Received` arm (`from_utf8(..).unwrap_or("")`): it only feeds the parser, which is not modelled.
- The `if let Some(client)` guard of the callback: the client is always present once subscriptions exist, so the case without a client is not modelled.
- The `unwrap()` on every `publish`: publishing is assumed to succeed.
- OtaSession.AttributesAcceptable: the `heapless::String::push_str(..).unwrap()` panics for a title over 32 or a version over 16 are not modelled. Fitting lengths are a precondition, and lengths count characters rather than UTF-8 bytes.
- The ESP-IDF calls are not executed. Their outcomes are the `FlashResults` input, and the calls are recorded in a ghost log. `esp_restart` is a terminal flag: no method may run after it.
- Published messages are logged as `Message` values. The topic and text each is published with is given by `Messages.Wire`, which the device methods do not compute themselves.
- The `Arc`/`Mutex`/atomic memory orderings: each callback is one atomic step.
- Logging, including the unused `written` load after the first `fetch_add`.
- OtaDownload.Serve: the server is not part of the source. The download lemmas assume it starts every answer at chunk index × 1024, whatever size was requested, which is the only convention under which the device's short last request (index `RECEIVED_BYTES / 1024`, size the remaining bytes) gets the missing bytes; `RequestedSizeServerMisplacesLastChunk` shows the other convention going wrong, and `FeedCompletes` covers any payload sizes without a server model.
- The `fw_checksum` attributes are requested but never read by the source, so no checksum check is modelled.
