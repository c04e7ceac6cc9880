/** The MQTT messages of the OTA protocol: topic constants, the telemetry state
    report, the attributes and chunk requests, and the routing of received
    messages to their handlers. */
module Messages {
  import opened Common
  import Decimal

  const OTA_REQUEST_TOPIC: string := "v1/devices/me/attributes/request/1"
  const OTA_RESPONSE_TOPIC: string := "v1/devices/me/attributes/response/1"
  const OTA_TELEMETRY_TOPIC: string := "v1/devices/me/telemetry"
  const FW_STATE_ATTR: string := "fw_state"
  /** Every chunk response topic starts with this. */
  const CHUNK_RESPONSE_PREFIX: string := "v2/fw/response/"
  /** The request id written into every chunk request topic. */
  const REQUEST_ID: nat := 1
  /** The payload of the shared-attributes request. */
  const ATTRIBUTES_REQUEST: string :=
    "{\"sharedKeys\":\"fw_title,fw_version,fw_size,fw_checksum,fw_checksum_algorithm\"}"

  /** The states the device reports on the telemetry topic. */
  datatype FwState = Downloading | Updated | Failed

  function Label(st: FwState): string {
    match st
    case Downloading => "DOWNLOADING"
    case Updated => "UPDATED"
    case Failed => "FAILED"
  }

  /** The messages the device publishes. */
  datatype Message =
    | AttributesRequest
    | StateReport(state: FwState)
    | ChunkRequest(chunk: nat, size: nat)

  /** What goes over MQTT: a topic and a text payload. */
  datatype Publication = Publication(topic: string, payload: string)

  const REPORT_PREFIX: string := "{\"" + FW_STATE_ATTR + "\":\""
  const REPORT_SUFFIX: string := "\"}"

  /** What a receiver of a telemetry payload reads as the reported state. */
  function ReportedLabel(payload: string): Option<string> {
    if |payload| >= |REPORT_PREFIX| + |REPORT_SUFFIX|
       && payload[..|REPORT_PREFIX|] == REPORT_PREFIX
       && payload[|payload| - |REPORT_SUFFIX|..] == REPORT_SUFFIX
    then Some(payload[|REPORT_PREFIX|..|payload| - |REPORT_SUFFIX|])
    else None
  }

  const CHUNK_REQUEST_PREFIX: string := "v2/fw/request/" + Decimal.Format(REQUEST_ID) + "/chunk/"

  /** The chunk index a receiver reads from a chunk request topic. */
  function ChunkIndexOf(topic: string): Option<nat> {
    if CHUNK_REQUEST_PREFIX <= topic then Decimal.Parse(topic[|CHUNK_REQUEST_PREFIX|..]) else None
  }

  /** The payload `send_fw_state` formats, `{"fw_state":"<label>"}`, from
      which the state label is read back unchanged. */
  function ReportPayload(state: string): (payload: string)
    ensures ReportedLabel(payload) == Some(state)
  {
    var payload := REPORT_PREFIX + state + REPORT_SUFFIX;
    assert payload[..|REPORT_PREFIX|] == REPORT_PREFIX;
    assert payload[|payload| - |REPORT_SUFFIX|..] == REPORT_SUFFIX;
    assert payload[|REPORT_PREFIX|..|payload| - |REPORT_SUFFIX|] == state;
    payload
  }

  /** The topic `request_chunk` formats; the index is read back from it. */
  function ChunkRequestTopic(chunk: nat): (t: string)
    ensures ChunkIndexOf(t) == Some(chunk)
  {
    var t := CHUNK_REQUEST_PREFIX + Decimal.Format(chunk);
    assert t[..|CHUNK_REQUEST_PREFIX|] == CHUNK_REQUEST_PREFIX;
    assert t[|CHUNK_REQUEST_PREFIX|..] == Decimal.Format(chunk);
    Decimal.ParseFormat(chunk);
    t
  }

  /** The topic and payload each message is published with: the attributes
      request as a fixed JSON text, a state report on the telemetry topic, a
      chunk request as the decimal byte count on the topic of its chunk. A
      receiver reads the state, chunk index and size back unchanged. */
  function Wire(m: Message): (p: Publication)
    ensures m.AttributesRequest? ==> p == Publication(OTA_REQUEST_TOPIC, ATTRIBUTES_REQUEST)
    ensures m.StateReport? ==>
      p.topic == OTA_TELEMETRY_TOPIC && ReportedLabel(p.payload) == Some(Label(m.state))
    ensures m.ChunkRequest? ==>
      ChunkIndexOf(p.topic) == Some(m.chunk) && Decimal.Parse(p.payload) == Some(m.size)
  {
    match m
    case AttributesRequest => Publication(OTA_REQUEST_TOPIC, ATTRIBUTES_REQUEST)
    case StateReport(st) => Publication(OTA_TELEMETRY_TOPIC, ReportPayload(Label(st)))
    case ChunkRequest(chunk, size) =>
      Decimal.ParseFormat(size);
      Publication(ChunkRequestTopic(chunk), Decimal.Format(size))
  }

  /** A chunk request topic is neither of the two fixed topics. */
  lemma ChunkTopicIsNotFixed(t: string)
    requires CHUNK_REQUEST_PREFIX <= t
    ensures t != OTA_TELEMETRY_TOPIC && t != OTA_REQUEST_TOPIC
  {
    assert t[1] == CHUNK_REQUEST_PREFIX[1] == '2';
    assert OTA_TELEMETRY_TOPIC[1] == '1' && OTA_REQUEST_TOPIC[1] == '1';
  }

  /** Different messages go out differently: a receiver can always tell which
      message was published. */
  lemma WireInjective(m: Message, n: Message)
    ensures Wire(m) == Wire(n) <==> m == n
  {
    if Wire(m) == Wire(n) {
      var t := Wire(m).topic;
      if m.ChunkRequest? {
        ChunkTopicIsNotFixed(t);
      } else if n.ChunkRequest? {
        ChunkTopicIsNotFixed(t);
      } else if m.StateReport? && n.StateReport? {
        assert Some(Label(m.state)) == ReportedLabel(Wire(m).payload) == Some(Label(n.state));
      }
    }
  }

  /** Where the MQTT callback sends a received message. */
  datatype Route = ToAttributesHandler | ToChunkHandler | Dropped

  /** Exact match on the attributes response topic first, then a prefix match
      on the chunk response topics; a message without a topic is treated as
      having the empty topic. */
  function RouteOf(topic: Option<string>): (r: Route)
    ensures r == ToAttributesHandler <==> topic == Some(OTA_RESPONSE_TOPIC)
    ensures r == ToChunkHandler <==> topic.Some? && CHUNK_RESPONSE_PREFIX <= topic.value
    ensures topic.None? ==> r == Dropped
  {
    var t := topic.GetOr("");
    if t == OTA_RESPONSE_TOPIC then
      assert OTA_RESPONSE_TOPIC[1] != CHUNK_RESPONSE_PREFIX[1];
      ToAttributesHandler
    else if CHUNK_RESPONSE_PREFIX <= t then
      assert t[1] == '2' && OTA_RESPONSE_TOPIC[1] == '1';
      ToChunkHandler
    else
      Dropped
  }

  /** Every topic the `v2/fw/response/+/chunk/+` subscription delivers reaches
      the chunk handler, whatever the request id and chunk index in it. */
  lemma SubscribedChunkTopicsReachChunkHandler(id: string, chunk: string)
    requires '/' !in id && '/' !in chunk
    ensures RouteOf(Some(CHUNK_RESPONSE_PREFIX + id + "/chunk/" + chunk)) == ToChunkHandler
  {
    var t := CHUNK_RESPONSE_PREFIX + id + "/chunk/" + chunk;
    assert t[..|CHUNK_RESPONSE_PREFIX|] == CHUNK_RESPONSE_PREFIX;
  }
}
