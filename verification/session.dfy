/** The OTA update session as a state machine over values: the global state of
    the device (`OTA_IN_PROGRESS`, `FW_SIZE`, `RECEIVED_BYTES`, `OTA_HANDLE`,
    `UPDATE_PARTITION`, `FW_TITLE`, `FW_VERSION`) and, for each handler, the
    state it leaves, the messages it publishes and the flash calls it makes.
    The outcomes of the flash calls are inputs. */
module OtaSession {
  import opened Common
  import opened Chunking
  import opened Messages
  import Decimal

  /** A non-null `esp_partition_t` pointer. */
  type PartitionId = nat
  /** An `esp_ota_handle_t`; 0 is the value the handle is reset to. */
  type Handle = nat

  /** Capacities of the `heapless::String`s the title and version are kept in. */
  const TITLE_CAPACITY: nat := 32
  const VERSION_CAPACITY: nat := 16
  const DEFAULT_TITLE: string := "ota"
  const DEFAULT_VERSION: string := "1.0"

  /** The `shared` object of an attributes response, as far as the handler
      reads it: each field is absent when missing or of the wrong JSON type. */
  datatype SharedAttributes = SharedAttributes(title: Option<string>, version: Option<string>, size: Option<nat>)

  /** A call into the flash update API. */
  datatype FlashCall =
    | Begin(partition: PartitionId, size: nat)
    | Write(handle: Handle, data: seq<Byte>)
    | End(handle: Handle)
    | SetBootPartition(bootPartition: Option<PartitionId>)

  /** What the flash update API answers: the next update partition (None for a
      null pointer), the handle `esp_ota_begin` opens (None when it fails), and
      whether the first write, the tail write and `esp_ota_end` succeed. */
  datatype FlashResults = FlashResults(
    nextPartition: Option<PartitionId>,
    begun: Option<Handle>,
    writeOk: bool,
    tailWriteOk: bool,
    endOk: bool)

  /** The device's OTA globals; `restarted` records that `esp_restart` ran. */
  datatype Session = Session(
    inProgress: bool,
    fwSize: nat,
    receivedBytes: nat,
    otaHandle: Handle,
    updatePartition: Option<PartitionId>,
    fwTitle: Option<string>,
    fwVersion: Option<string>,
    restarted: bool)

  /** The effect of handling one message. */
  datatype Step = Step(after: Session, published: seq<Message>, flash: seq<FlashCall>)

  /** The globals at boot. */
  const Initial: Session := Session(false, 0, 0, 0, None, None, None, false)

  /** The session invariant: never more bytes received than declared, both
      counters fit a `usize`, and the stored strings fit their buffers. */
  predicate Valid(s: Session) {
    && s.receivedBytes <= s.fwSize < USIZE_MODULUS
    && (s.fwTitle.Some? ==> |s.fwTitle.value| <= TITLE_CAPACITY)
    && (s.fwVersion.Some? ==> |s.fwVersion.value| <= VERSION_CAPACITY)
  }

  /** What a caller guarantees about an attributes response: the size came out
      of `as_u64`, and when the response gets as far as storing the title and
      version, they fit their buffers (`push_str(..).unwrap()` would panic). */
  predicate AttributesAcceptable(shared: Option<SharedAttributes>, io: FlashResults) {
    shared.Some? && shared.value.size.Some? ==>
      && shared.value.size.value < U64_MODULUS
      && (io.nextPartition.Some? && io.begun.Some? ==>
            && |shared.value.title.GetOr(DEFAULT_TITLE)| <= TITLE_CAPACITY
            && |shared.value.version.GetOr(DEFAULT_VERSION)| <= VERSION_CAPACITY)
  }

  /** `request_chunk(chunk)`: nothing when no byte is missing, otherwise one
      request for chunk `chunk` and between 1 and `CHUNK_SIZE` bytes, never
      more than are missing, and a whole chunk unless fewer are missing. */
  function ChunkRequests(s: Session, chunk: nat): (ms: seq<Message>)
    ensures ms == [] <==> s.fwSize <= s.receivedBytes
    ensures ms != [] ==>
      && |ms| == 1 && ms[0].ChunkRequest? && ms[0].chunk == chunk
      && 1 <= ms[0].size <= CHUNK_SIZE
      && s.receivedBytes + ms[0].size <= s.fwSize
      && (ms[0].size == CHUNK_SIZE || s.receivedBytes + ms[0].size == s.fwSize)
  {
    var size := RequestSize(s.fwSize, s.receivedBytes);
    if size == 0 then [] else [ChunkRequest(chunk, size)]
  }

  /** `handle_ota_response` on an already parsed `shared` object (None when the
      payload is not JSON or has no `shared` key). */
  function OnAttributes(s: Session, shared: Option<SharedAttributes>, io: FlashResults): (r: Step)
    requires Valid(s) && !s.restarted && AttributesAcceptable(shared, io)
    ensures Valid(r.after) && !r.after.restarted
  {
    if shared.None? || shared.value.size.None? then
      Step(s, [], [])
    else
      var attributes := shared.value;
      var size := UsizeCast(attributes.size.value);
      var reset := s.(otaHandle := 0, updatePartition := io.nextPartition);
      if io.nextPartition.None? then
        Step(reset, [StateReport(Failed)], [])
      else
        var begin := Begin(io.nextPartition.value, size);
        if io.begun.None? then
          Step(reset, [StateReport(Failed)], [begin])
        else
          var started := reset.(
            otaHandle := io.begun.value,
            inProgress := true,
            fwSize := size,
            receivedBytes := 0,
            fwTitle := Some(attributes.title.GetOr(DEFAULT_TITLE)),
            fwVersion := Some(attributes.version.GetOr(DEFAULT_VERSION)));
          Step(started, [StateReport(Downloading)] + ChunkRequests(started, 0), [begin])
  }

  /** The end of the chunk handler once every byte is written: `esp_ota_end`,
      then on success the boot partition switch, the `UPDATED` report and the
      restart; on failure a `FAILED` report. */
  function Finalize(s: Session, endOk: bool): (r: Step)
    requires !s.restarted
    ensures |r.flash| >= 1 && r.flash[0] == End(s.otaHandle)
    ensures SetBootPartition(s.updatePartition) in r.flash <==> endOk
    ensures r.after == s.(restarted := endOk)
    ensures r.published == [StateReport(if endOk then Updated else Failed)]
  {
    if endOk then
      Step(s.(restarted := true), [StateReport(Updated)], [End(s.otaHandle), SetBootPartition(s.updatePartition)])
    else
      Step(s, [StateReport(Failed)], [End(s.otaHandle)])
  }

  /** `handle_firmware_chunk`: a chunk is only looked at while a download is
      open and bytes are missing. */
  function OnChunk(s: Session, payload: seq<Byte>, io: FlashResults): (r: Step)
    requires Valid(s) && !s.restarted
    ensures Valid(r.after)
    ensures r.after == s.(receivedBytes := r.after.receivedBytes, restarted := r.after.restarted)
    ensures s.receivedBytes <= r.after.receivedBytes
    ensures r.after.restarted ==> r.after.receivedBytes == s.fwSize && r.published == [StateReport(Updated)]
  {
    if !s.inProgress || Remaining(s.fwSize, s.receivedBytes) == 0 then
      Step(s, [], [])
    else
      WriteStep(s, payload, io)
  }

  /** The writing part of the chunk handler: the payload clipped to the missing
      bytes is cut into an aligned first write and a tail. */
  function WriteStep(s: Session, payload: seq<Byte>, io: FlashResults): (r: Step)
    requires Valid(s) && !s.restarted && s.receivedBytes < s.fwSize
    ensures Valid(r.after)
    ensures r.after == s.(receivedBytes := r.after.receivedBytes, restarted := r.after.restarted)
    ensures s.receivedBytes <= r.after.receivedBytes
    ensures r.after.restarted ==> r.after.receivedBytes == s.fwSize && r.published == [StateReport(Updated)]
  {
    var w := WritableLen(|payload|, Remaining(s.fwSize, s.receivedBytes));
    var first := FirstWriteLen(w);
    FirstWriteStep(s, payload[..first], payload[first..w], io)
  }

  /** The first write of the chunk handler: a failed one reports `FAILED` and
      stops, a successful one is counted and followed by the tail. */
  function FirstWriteStep(s: Session, data: seq<Byte>, tail: seq<Byte>, io: FlashResults): (r: Step)
    requires Valid(s) && !s.restarted && s.receivedBytes + |data| + |tail| <= s.fwSize
    ensures Valid(r.after)
    ensures r.after == s.(receivedBytes := r.after.receivedBytes, restarted := r.after.restarted)
    ensures s.receivedBytes <= r.after.receivedBytes
    ensures r.after.restarted ==> r.after.receivedBytes == s.fwSize && r.published == [StateReport(Updated)]
  {
    var firstWrite := Write(s.otaHandle, data);
    if !io.writeOk then
      Step(s, [StateReport(Failed)], [firstWrite])
    else
      var next := TailStep(s.(receivedBytes := s.receivedBytes + |data|), tail, io);
      Step(next.after, next.published, [firstWrite] + next.flash)
  }

  /** The rest of the chunk handler after a successful first write: the tail
      bytes, when there are any, go out in a second write, which reports
      `FAILED` and stops when it fails and is counted when it succeeds. */
  function TailStep(s: Session, tail: seq<Byte>, io: FlashResults): (r: Step)
    requires Valid(s) && !s.restarted && s.receivedBytes + |tail| <= s.fwSize
    ensures Valid(r.after)
    ensures r.after == s.(receivedBytes := r.after.receivedBytes, restarted := r.after.restarted)
    ensures s.receivedBytes <= r.after.receivedBytes
    ensures r.after.restarted ==> r.after.receivedBytes == s.fwSize && r.published == [StateReport(Updated)]
  {
    if |tail| == 0 then
      FinishStep(s, io.endOk)
    else
      var tailWrite := Write(s.otaHandle, tail);
      if !io.tailWriteOk then
        Step(s, [StateReport(Failed)], [tailWrite])
      else
        var next := FinishStep(s.(receivedBytes := s.receivedBytes + |tail|), io.endOk);
        Step(next.after, next.published, [tailWrite] + next.flash)
  }

  /** The end of the chunk handler, once its writes succeeded: finalize when
      every byte is in, otherwise request chunk `RECEIVED_BYTES / CHUNK_SIZE`. */
  function FinishStep(written: Session, endOk: bool): (r: Step)
    requires Valid(written) && !written.restarted
    ensures r.after == written.(restarted := r.after.restarted)
    ensures r.after.restarted ==> written.receivedBytes == written.fwSize && r.published == [StateReport(Updated)]
  {
    if written.receivedBytes >= written.fwSize then
      Finalize(written, endOk)
    else
      Step(written, ChunkRequests(written, NextChunkIndex(written.receivedBytes)), [])
  }

  /** The `Received` arm of the MQTT callback: route by topic, then run the
      handler. `shared` is what parsing `data` as an attributes response
      yields; parsing itself is not modelled. */
  function OnMessage(s: Session, topic: Option<string>, data: seq<Byte>,
                     shared: Option<SharedAttributes>, io: FlashResults): (r: Step)
    requires Valid(s) && !s.restarted && AttributesAcceptable(shared, io)
    ensures Valid(r.after)
    ensures RouteOf(topic) == Dropped ==> r == Step(s, [], [])
  {
    match RouteOf(topic)
    case ToAttributesHandler => OnAttributes(s, shared, io)
    case ToChunkHandler => OnChunk(s, data, io)
    case Dropped => Step(s, [], [])
  }

  /** The firmware bytes a sequence of flash calls hands to the partition, in
      order. */
  function Written(calls: seq<FlashCall>): seq<Byte> {
    if calls == [] then []
    else
      var last := calls[|calls| - 1];
      Written(calls[..|calls| - 1]) + (if last.Write? then last.data else [])
  }

  lemma {:induction false} WrittenAppend(a: seq<FlashCall>, b: seq<FlashCall>)
    ensures Written(a + b) == Written(a) + Written(b)
    decreases |b|
  {
    if b == [] {
      assert a + b == a;
    } else {
      var b' := b[..|b| - 1];
      assert (a + b)[..|a + b| - 1] == a + b';
      WrittenAppend(a, b');
    }
  }
}
