/** The device's OTA globals and callbacks as an object whose methods update
    them in place. Each method is one callback run under the client mutex, so
    it is one atomic step; its effect is proved equal to the matching function
    of `OtaSession`. Published messages and flash calls are logged in ghost
    fields; the flash call outcomes are inputs. */
module OtaDevice {
  import opened Common
  import opened Chunking
  import opened Messages
  import opened OtaSession

  class Device {
    var inProgress: bool
    var fwSize: nat
    var receivedBytes: nat
    var otaHandle: Handle
    var updatePartition: Option<PartitionId>
    var fwTitle: Option<string>
    var fwVersion: Option<string>
    var restarted: bool

    /** Every message published so far, oldest first. */
    ghost var outbox: seq<Message>
    /** Every flash API call made so far, oldest first. */
    ghost var flashLog: seq<FlashCall>

    /** The globals as a session value. */
    function State(): Session
      reads this
    {
      Session(inProgress, fwSize, receivedBytes, otaHandle, updatePartition, fwTitle, fwVersion, restarted)
    }

    predicate Valid()
      reads this
    {
      OtaSession.Valid(State())
    }

    /** The globals as the static initialisers set them. */
    constructor ()
      ensures Valid() && State() == Initial
      ensures outbox == [] && flashLog == []
    {
      inProgress, fwSize, receivedBytes, otaHandle := false, 0, 0, 0;
      updatePartition, fwTitle, fwVersion, restarted := None, None, None, false;
      outbox, flashLog := [], [];
    }

    /** `request_firmware_attributes`: asks for the shared attributes and
      changes no session state. */
    method RequestFirmwareAttributes()
      modifies this
      ensures State() == old(State()) && flashLog == old(flashLog)
      ensures outbox == old(outbox) + [AttributesRequest]
    {
      outbox := outbox + [AttributesRequest];
    }

    /** `send_fw_state`. */
    method SendFwState(st: FwState)
      modifies this
      ensures State() == old(State()) && flashLog == old(flashLog)
      ensures outbox == old(outbox) + [StateReport(st)]
    {
      outbox := outbox + [StateReport(st)];
    }

    /** `request_chunk`. */
    method RequestChunk(chunk: nat)
      modifies this
      ensures State() == old(State()) && flashLog == old(flashLog)
      ensures outbox == old(outbox) + ChunkRequests(old(State()), chunk)
    {
      var total := fwSize;
      var written := receivedBytes;
      var remaining := SaturatingSub(total, written);
      if remaining == 0 {
        return;
      }
      var expectedSize := Min(remaining, CHUNK_SIZE);
      outbox := outbox + [ChunkRequest(chunk, expectedSize)];
    }

    /** `handle_ota_response`, given the `shared` object of the parsed payload
        (None when the payload is not JSON or has no `shared` key). */
    method HandleOtaResponse(shared: Option<SharedAttributes>, io: FlashResults)
      requires Valid() && !restarted && AttributesAcceptable(shared, io)
      modifies this
      ensures Valid()
      ensures State() == OnAttributes(old(State()), shared, io).after
      ensures outbox == old(outbox) + OnAttributes(old(State()), shared, io).published
      ensures flashLog == old(flashLog) + OnAttributes(old(State()), shared, io).flash
    {
      if shared.None? || shared.value.size.None? {
        return;
      }
      var title := shared.value.title.GetOr(DEFAULT_TITLE);
      var version := shared.value.version.GetOr(DEFAULT_VERSION);
      var size := shared.value.size.value;

      otaHandle := 0;
      updatePartition := io.nextPartition;
      if updatePartition.None? {
        SendFwState(Failed);
        return;
      }

      flashLog := flashLog + [Begin(updatePartition.value, UsizeCast(size))];
      if io.begun.None? {
        SendFwState(Failed);
        return;
      }
      otaHandle := io.begun.value;

      inProgress := true;
      fwSize := UsizeCast(size);
      receivedBytes := 0;
      fwTitle := Some(title);
      fwVersion := Some(version);

      SendFwState(Downloading);
      RequestChunk(0);
    }

    /** `handle_firmware_chunk`: drops the chunk unless a download is open
        and bytes are missing. */
    method HandleFirmwareChunk(payload: seq<Byte>, io: FlashResults)
      requires Valid() && !restarted
      modifies this
      ensures Valid()
      ensures State() == OnChunk(old(State()), payload, io).after
      ensures outbox == old(outbox) + OnChunk(old(State()), payload, io).published
      ensures flashLog == old(flashLog) + OnChunk(old(State()), payload, io).flash
    {
      if !inProgress {
        return;
      }
      var totalSize := fwSize;
      var writtenBefore := receivedBytes;
      var remaining := SaturatingSub(totalSize, writtenBefore);
      if remaining == 0 {
        return;
      }
      WritePayload(payload, remaining, io);
    }

    /** The length of the first write of `handle_firmware_chunk`: the
        remainder modulo the write alignment is cut off when there is one and
        something is left. */
    static method AlignedWriteLen(writable: nat) returns (writeLen: nat)
      ensures writeLen == FirstWriteLen(writable)
    {
      FirstWriteLenAsWritten(writable);
      writeLen := writable;
      var remainder := writeLen % WRITE_ALIGNMENT;
      if remainder != 0 && writeLen > remainder {
        writeLen := writeLen - remainder;
      }
    }

    /** The writes of `handle_firmware_chunk`: at most `remaining` bytes, an
        aligned first write and a tail of what the alignment cut off. */
    method WritePayload(payload: seq<Byte>, remaining: nat, io: FlashResults)
      requires Valid() && !restarted && receivedBytes < fwSize
      requires remaining == fwSize - receivedBytes
      modifies this
      ensures Valid()
      ensures State() == WriteStep(old(State()), payload, io).after
      ensures outbox == old(outbox) + WriteStep(old(State()), payload, io).published
      ensures flashLog == old(flashLog) + WriteStep(old(State()), payload, io).flash
    {
      var writable := Min(|payload|, remaining);
      var writeLen := AlignedWriteLen(writable);
      var tailLen := SaturatingSub(writable, writeLen);
      WriteFirst(payload[..writeLen], payload[writeLen..writeLen + tailLen], io);
    }

    /** The first write of `handle_firmware_chunk`. `fetch_add` on the received
        byte count is a wrapping 32-bit addition; it never wraps, since the
        count stays at most `FW_SIZE`. */
    method WriteFirst(data: seq<Byte>, tail: seq<Byte>, io: FlashResults)
      requires Valid() && !restarted && receivedBytes + |data| + |tail| <= fwSize
      modifies this
      ensures Valid()
      ensures State() == FirstWriteStep(old(State()), data, tail, io).after
      ensures outbox == old(outbox) + FirstWriteStep(old(State()), data, tail, io).published
      ensures flashLog == old(flashLog) + FirstWriteStep(old(State()), data, tail, io).flash
    {
      flashLog := flashLog + [Write(otaHandle, data)];
      if !io.writeOk {
        SendFwState(Failed);
        return;
      }
      receivedBytes := WrappingAdd(receivedBytes, |data|);
      WriteTail(tail, io);
    }

    /** The tail write of `handle_firmware_chunk`, skipped when there is no
        tail, followed by the end of the handler. */
    method WriteTail(tail: seq<Byte>, io: FlashResults)
      requires Valid() && !restarted && receivedBytes + |tail| <= fwSize
      modifies this
      ensures Valid()
      ensures State() == TailStep(old(State()), tail, io).after
      ensures outbox == old(outbox) + TailStep(old(State()), tail, io).published
      ensures flashLog == old(flashLog) + TailStep(old(State()), tail, io).flash
    {
      if |tail| > 0 {
        flashLog := flashLog + [Write(otaHandle, tail)];
        if !io.tailWriteOk {
          SendFwState(Failed);
          return;
        }
        receivedBytes := WrappingAdd(receivedBytes, |tail|);
      }
      FinishChunk(fwSize, io.endOk);
    }

    /** The end of `handle_firmware_chunk`, once the writes succeeded: finalize
        when every byte is in, otherwise request the next chunk. */
    method FinishChunk(totalSize: nat, endOk: bool)
      requires Valid() && !restarted && totalSize == fwSize
      modifies this
      ensures Valid()
      ensures State() == FinishStep(old(State()), endOk).after
      ensures outbox == old(outbox) + FinishStep(old(State()), endOk).published
      ensures flashLog == old(flashLog) + FinishStep(old(State()), endOk).flash
    {
      if receivedBytes >= totalSize {
        flashLog := flashLog + [End(otaHandle)];
        if endOk {
          flashLog := flashLog + [SetBootPartition(updatePartition)];
          SendFwState(Updated);
          restarted := true;
        } else {
          SendFwState(Failed);
        }
      } else {
        var nextChunk := receivedBytes / CHUNK_SIZE;
        RequestChunk(nextChunk);
      }
    }

    /** The `Received` arm of the MQTT callback. `shared` is what parsing `data`
        as an attributes response yields. */
    method OnReceived(topic: Option<string>, data: seq<Byte>,
                      shared: Option<SharedAttributes>, io: FlashResults)
      requires Valid() && !restarted && AttributesAcceptable(shared, io)
      modifies this
      ensures Valid()
      ensures State() == OnMessage(old(State()), topic, data, shared, io).after
      ensures outbox == old(outbox) + OnMessage(old(State()), topic, data, shared, io).published
      ensures flashLog == old(flashLog) + OnMessage(old(State()), topic, data, shared, io).flash
    {
      var topicStr := topic.GetOr("");
      if topicStr == OTA_RESPONSE_TOPIC {
        HandleOtaResponse(shared, io);
      } else if CHUNK_RESPONSE_PREFIX <= topicStr {
        HandleFirmwareChunk(data, io);
      }
    }
  }
}
