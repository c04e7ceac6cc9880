/** What one handler call does, case by case, stated over the session model. */
module OtaProperties {
  import opened Common
  import opened Chunking
  import opened Messages
  import opened OtaSession

  /** The chunk handler has work to do: a download is open and bytes are missing. */
  predicate Active(s: Session) {
    s.inProgress && s.receivedBytes < s.fwSize
  }

  /** A chunk is dropped without a trace (no state change, no flash call, no
      message) exactly when no download is open or nothing is missing; in every
      other case it reaches the flash. */
  lemma ChunkIgnoredUnlessActive(s: Session, payload: seq<Byte>, io: FlashResults)
    requires Valid(s) && !s.restarted
    ensures !Active(s) ==> OnChunk(s, payload, io) == Step(s, [], [])
    ensures OnChunk(s, payload, io).flash == [] <==> !Active(s)
  {
  }

  /** The first flash write takes the writable bytes cut down to a multiple of
      four (or all of them when fewer than four), from the start of the payload;
      a tail write, when there is one, takes the rest of the writable bytes,
      fewer than four; both go to the session's handle. */
  lemma ChunkWriteSplit(s: Session, payload: seq<Byte>, io: FlashResults)
    requires Valid(s) && !s.restarted && Active(s)
    ensures var w := WritableLen(|payload|, s.fwSize - s.receivedBytes);
            var first := FirstWriteLen(w);
            var r := OnChunk(s, payload, io);
            && r.flash[0] == Write(s.otaHandle, payload[..first])
            && (w >= WRITE_ALIGNMENT ==> first % WRITE_ALIGNMENT == 0)
            && (!io.writeOk ==> |r.flash| == 1)
            && (io.writeOk && first < w ==>
                  && w - first < WRITE_ALIGNMENT
                  && r.flash[1] == Write(s.otaHandle, payload[first..w]))
            && (io.writeOk && first == w ==> forall i :: 1 <= i < |r.flash| ==> !r.flash[i].Write?)
  {
    var w := WritableLen(|payload|, s.fwSize - s.receivedBytes);
    SplitLengths(w);
  }

  lemma WrittenOne(c: FlashCall)
    ensures Written([c]) == if c.Write? then c.data else []
  {
    assert [c][..0] == [];
  }

  lemma WrittenTwo(c: FlashCall, d: FlashCall)
    requires c.Write? && d.Write?
    ensures Written([c, d]) == c.data + d.data
  {
    WrittenAppend([c], [d]);
    WrittenOne(c);
    WrittenOne(d);
  }

  /** Finalizing writes no firmware bytes. */
  lemma FinalizeWritesNothing(s: Session, endOk: bool)
    requires !s.restarted
    ensures Written(Finalize(s, endOk).flash) == []
  {
    var f := Finalize(s, endOk).flash;
    if endOk {
      assert f == [End(s.otaHandle)] + [SetBootPartition(s.updatePartition)];
      WrittenAppend([End(s.otaHandle)], [SetBootPartition(s.updatePartition)]);
      WrittenOne(End(s.otaHandle));
      WrittenOne(SetBootPartition(s.updatePartition));
    } else {
      WrittenOne(End(s.otaHandle));
    }
  }

  /** The flash calls of a chunk whose writes succeed: the split writes,
      followed by the finalization when the chunk completes the image. */
  lemma ChunkSuccessCalls(s: Session, payload: seq<Byte>, io: FlashResults)
    requires Valid(s) && !s.restarted && Active(s)
    requires io.writeOk && io.tailWriteOk
    ensures var w := WritableLen(|payload|, s.fwSize - s.receivedBytes);
            var first := FirstWriteLen(w);
            var firstWrite := Write(s.otaHandle, payload[..first]);
            var writes := if first < w then [firstWrite, Write(s.otaHandle, payload[first..w])] else [firstWrite];
            var r := OnChunk(s, payload, io);
            && r.after.receivedBytes == s.receivedBytes + w
            && (w < s.fwSize - s.receivedBytes ==> r.flash == writes)
            && (w == s.fwSize - s.receivedBytes ==>
                  r.flash == writes + Finalize(s.(receivedBytes := s.receivedBytes + w), io.endOk).flash)
  {
    var w := WritableLen(|payload|, s.fwSize - s.receivedBytes);
    SplitLengths(w);
  }

  /** A chunk whose writes both succeed hands the flash exactly the first
      `min(len, remaining)` payload bytes, in order, and counts exactly those. */
  lemma ChunkSuccessWritesPrefix(s: Session, payload: seq<Byte>, io: FlashResults)
    requires Valid(s) && !s.restarted && Active(s)
    requires io.writeOk && io.tailWriteOk
    ensures var w := WritableLen(|payload|, s.fwSize - s.receivedBytes);
            var r := OnChunk(s, payload, io);
            && Written(r.flash) == payload[..w]
            && r.after.receivedBytes == s.receivedBytes + w
  {
    var w := WritableLen(|payload|, s.fwSize - s.receivedBytes);
    var first := FirstWriteLen(w);
    SplitLengths(w);
    var firstWrite := Write(s.otaHandle, payload[..first]);
    var writes := if first < w then [firstWrite, Write(s.otaHandle, payload[first..w])] else [firstWrite];
    assert Written(writes) == payload[..w] by {
      if first < w {
        WrittenTwo(firstWrite, Write(s.otaHandle, payload[first..w]));
        assert payload[..first] + payload[first..w] == payload[..w];
      } else {
        WrittenOne(firstWrite);
      }
    }
    var written := s.(receivedBytes := s.receivedBytes + w);
    ChunkSuccessCalls(s, payload, io);
    if w == s.fwSize - s.receivedBytes {
      var done := Finalize(written, io.endOk);
      WrittenAppend(writes, done.flash);
      FinalizeWritesNothing(written, io.endOk);
    }
  }

  /** A failed first write reports `FAILED` and changes nothing: no byte is
      counted, the download stays open and no chunk is requested. */
  lemma ChunkFirstWriteFails(s: Session, payload: seq<Byte>, io: FlashResults)
    requires Valid(s) && !s.restarted && Active(s) && !io.writeOk
    ensures OnChunk(s, payload, io).after == s
    ensures OnChunk(s, payload, io).published == [StateReport(Failed)]
  {
  }

  /** A failed tail write reports `FAILED` with only the aligned part counted;
      the download stays open and no chunk is requested. */
  lemma ChunkTailWriteFails(s: Session, payload: seq<Byte>, io: FlashResults)
    requires Valid(s) && !s.restarted && Active(s) && io.writeOk && !io.tailWriteOk
    requires WritableLen(|payload|, s.fwSize - s.receivedBytes) >= WRITE_ALIGNMENT
    requires WritableLen(|payload|, s.fwSize - s.receivedBytes) % WRITE_ALIGNMENT != 0
    ensures var w := WritableLen(|payload|, s.fwSize - s.receivedBytes);
            var r := OnChunk(s, payload, io);
            && r.after == s.(receivedBytes := s.receivedBytes + w - w % WRITE_ALIGNMENT)
            && r.after.inProgress
            && r.published == [StateReport(Failed)]
  {
  }

  /** A chunk whose writes succeed and that completes the image ends the
      update: on a good `esp_ota_end` the boot partition is switched, `UPDATED`
      reported and the device restarts; on a bad one `FAILED` is reported and
      the download stays open with nothing missing, so every later chunk is
      dropped. */
  lemma ChunkCompletesImage(s: Session, payload: seq<Byte>, io: FlashResults)
    requires Valid(s) && !s.restarted && Active(s) && io.writeOk && io.tailWriteOk
    requires |payload| >= s.fwSize - s.receivedBytes
    ensures var r := OnChunk(s, payload, io);
            && r.after.receivedBytes == s.fwSize
            && End(s.otaHandle) in r.flash
            && (io.endOk ==> r.after.restarted && r.published == [StateReport(Updated)]
                             && r.flash[|r.flash| - 1] == SetBootPartition(s.updatePartition))
            && (!io.endOk ==> !r.after.restarted && r.after.inProgress && r.published == [StateReport(Failed)]
                              && !Active(r.after))
  {
    var w := WritableLen(|payload|, s.fwSize - s.receivedBytes);
    SplitLengths(w);
  }

  /** A chunk whose writes succeed and that leaves bytes missing requests the
      chunk at index `RECEIVED_BYTES / CHUNK_SIZE`, for at most the missing
      bytes, and nothing else. */
  lemma ChunkRequestsNext(s: Session, payload: seq<Byte>, io: FlashResults)
    requires Valid(s) && !s.restarted && Active(s) && io.writeOk && io.tailWriteOk
    requires |payload| < s.fwSize - s.receivedBytes
    ensures var r := OnChunk(s, payload, io);
            && r.after.receivedBytes == s.receivedBytes + |payload|
            && Active(r.after) && !r.after.restarted
            && |r.published| == 1
            && r.published == ChunkRequests(r.after, NextChunkIndex(r.after.receivedBytes))
            && r.published[0].chunk == (s.receivedBytes + |payload|) / CHUNK_SIZE
  {
    var w := WritableLen(|payload|, s.fwSize - s.receivedBytes);
    SplitLengths(w);
  }

  /** Every write and every `esp_ota_end` in `calls` goes to handle `h`. */
  predicate OnHandle(calls: seq<FlashCall>, h: Handle) {
    forall i :: 0 <= i < |calls| && (calls[i].Write? || calls[i].End?) ==> calls[i].handle == h
  }

  /** What a chunk-handler step does with the session `s` it started from: its
      writes and its `esp_ota_end` use `s`'s handle, and when it restarts the
      device its last flash call sets `s`'s update partition as boot partition. */
  predicate StaysOnSession(r: Step, s: Session) {
    && OnHandle(r.flash, s.otaHandle)
    && (r.after.restarted ==> |r.flash| > 0 && r.flash[|r.flash| - 1] == SetBootPartition(s.updatePartition))
  }

  lemma OnHandleAppend(a: seq<FlashCall>, b: seq<FlashCall>, h: Handle)
    requires OnHandle(a, h) && OnHandle(b, h)
    ensures OnHandle(a + b, h)
  {
    forall i | 0 <= i < |a + b| && ((a + b)[i].Write? || (a + b)[i].End?)
      ensures (a + b)[i].handle == h
    {
      if i >= |a| {
        assert (a + b)[i] == b[i - |a|];
      }
    }
  }

  lemma FinishStaysOnSession(written: Session, endOk: bool)
    requires Valid(written) && !written.restarted
    ensures StaysOnSession(FinishStep(written, endOk), written)
  {
  }

  lemma TailStaysOnSession(s: Session, tail: seq<Byte>, io: FlashResults)
    requires Valid(s) && !s.restarted && s.receivedBytes + |tail| <= s.fwSize
    ensures StaysOnSession(TailStep(s, tail, io), s)
  {
    if |tail| > 0 && io.tailWriteOk {
      var written := s.(receivedBytes := s.receivedBytes + |tail|);
      FinishStaysOnSession(written, io.endOk);
      var next := FinishStep(written, io.endOk);
      OnHandleAppend([Write(s.otaHandle, tail)], next.flash, s.otaHandle);
    } else {
      FinishStaysOnSession(s, io.endOk);
    }
  }

  lemma FirstWriteStaysOnSession(s: Session, data: seq<Byte>, tail: seq<Byte>, io: FlashResults)
    requires Valid(s) && !s.restarted && s.receivedBytes + |data| + |tail| <= s.fwSize
    ensures StaysOnSession(FirstWriteStep(s, data, tail, io), s)
  {
    if io.writeOk {
      var written := s.(receivedBytes := s.receivedBytes + |data|);
      TailStaysOnSession(written, tail, io);
      var next := TailStep(written, tail, io);
      OnHandleAppend([Write(s.otaHandle, data)], next.flash, s.otaHandle);
    }
  }

  /** Whatever the flash answers, every write and `esp_ota_end` a chunk causes
      goes to the handle `esp_ota_begin` returned (`OTA_HANDLE`), and a chunk
      that restarts the device has just set `UPDATE_PARTITION` as the boot
      partition. */
  lemma ChunkStaysOnSession(s: Session, payload: seq<Byte>, io: FlashResults)
    requires Valid(s) && !s.restarted
    ensures StaysOnSession(OnChunk(s, payload, io), s)
  {
    if s.inProgress && Remaining(s.fwSize, s.receivedBytes) > 0 {
      var w := WritableLen(|payload|, Remaining(s.fwSize, s.receivedBytes));
      var first := FirstWriteLen(w);
      SplitLengths(w);
      FirstWriteStaysOnSession(s, payload[..first], payload[first..w], io);
    }
  }

  /** A chunk that fits in the missing bytes, every flash call succeeding: the
      whole chunk is written and counted; the device restarts after reporting
      `UPDATED` exactly when that completes the image, and otherwise requests
      the chunk at index `RECEIVED_BYTES / CHUNK_SIZE` and nothing else. */
  lemma SucceedingChunkStep(s: Session, chunk: seq<Byte>, io: FlashResults)
    requires Valid(s) && !s.restarted && Active(s)
    requires io.writeOk && io.tailWriteOk && io.endOk
    requires |chunk| <= s.fwSize - s.receivedBytes
    ensures var r := OnChunk(s, chunk, io);
            && Written(r.flash) == chunk
            && r.after.receivedBytes == s.receivedBytes + |chunk|
            && (r.after.restarted <==> r.after.receivedBytes == s.fwSize)
            && (r.after.restarted ==> r.published == [StateReport(Updated)])
            && (!r.after.restarted ==>
                  && Active(r.after)
                  && |r.published| == 1 && r.published[0].ChunkRequest?
                  && r.published == ChunkRequests(r.after, NextChunkIndex(r.after.receivedBytes)))
  {
    ChunkSuccessWritesPrefix(s, chunk, io);
    assert chunk[..|chunk|] == chunk;
    if |chunk| == s.fwSize - s.receivedBytes {
      ChunkCompletesImage(s, chunk, io);
    } else {
      ChunkRequestsNext(s, chunk, io);
    }
  }

  /** An attributes response without a numeric `fw_size` (or one that is not
      JSON with a `shared` object) changes nothing and publishes nothing. */
  lemma AttributesWithoutSizeIgnored(s: Session, shared: Option<SharedAttributes>, io: FlashResults)
    requires Valid(s) && !s.restarted && AttributesAcceptable(shared, io)
    requires shared.None? || shared.value.size.None?
    ensures OnAttributes(s, shared, io) == Step(s, [], [])
  {
  }

  /** With no update partition, or a rejected `esp_ota_begin`, the response
      reports `FAILED` and only the handle (reset to 0) and the partition
      pointer change: an open download stays open with its counters. */
  lemma AttributesFailureKeepsDownload(s: Session, a: SharedAttributes, io: FlashResults)
    requires Valid(s) && !s.restarted && AttributesAcceptable(Some(a), io)
    requires a.size.Some? && (io.nextPartition.None? || io.begun.None?)
    ensures var r := OnAttributes(s, Some(a), io);
            && r.after == s.(otaHandle := 0, updatePartition := io.nextPartition)
            && r.published == [StateReport(Failed)]
            && (io.nextPartition.None? ==> r.flash == [])
  {
  }

  /** An accepted response opens a download of `fw_size as usize` bytes from
      zero (whether or not one was already open) on the handle `esp_ota_begin`
      opened and the partition it was opened on, stores the title and version
      with their defaults, reports `DOWNLOADING` and requests chunk 0 for
      `min(size, CHUNK_SIZE)` bytes, or requests nothing when the size is 0. */
  lemma AttributesAccepted(s: Session, a: SharedAttributes, io: FlashResults)
    requires Valid(s) && !s.restarted && AttributesAcceptable(Some(a), io)
    requires a.size.Some? && io.nextPartition.Some? && io.begun.Some?
    ensures var r := OnAttributes(s, Some(a), io);
            var size := UsizeCast(a.size.value);
            && r.after.inProgress && r.after.fwSize == size && r.after.receivedBytes == 0
            && r.after.otaHandle == io.begun.value
            && r.after.updatePartition == io.nextPartition
            && r.after.fwTitle == Some(a.title.GetOr(DEFAULT_TITLE))
            && r.after.fwVersion == Some(a.version.GetOr(DEFAULT_VERSION))
            && r.flash == [Begin(io.nextPartition.value, size)]
            && r.published[0] == StateReport(Downloading)
            && (size == 0 ==> |r.published| == 1)
            && (size > 0 ==> |r.published| == 2
                             && r.published[1] == ChunkRequest(0, Min(size, CHUNK_SIZE)))
  {
  }

  /** A second response whose `esp_ota_begin` fails in the middle of a download
      leaves the download open on handle 0, so the next chunk is written to
      handle 0. */
  lemma FailedRestartWritesToHandleZero(s: Session, a: SharedAttributes, io: FlashResults,
                                        payload: seq<Byte>, later: FlashResults)
    requires Valid(s) && !s.restarted && Active(s) && AttributesAcceptable(Some(a), io)
    requires a.size.Some? && io.nextPartition.Some? && io.begun.None?
    ensures var after := OnAttributes(s, Some(a), io).after;
            && Active(after)
            && OnChunk(after, payload, later).flash[0].Write?
            && OnChunk(after, payload, later).flash[0].handle == 0
  {
  }

  /** A response declaring size 0 (or a multiple of 2^32) reports
      `DOWNLOADING` and then drops every chunk: the download never ends. */
  lemma ZeroSizeDownloadStalls(s: Session, a: SharedAttributes, io: FlashResults,
                               payload: seq<Byte>, later: FlashResults)
    requires Valid(s) && !s.restarted && AttributesAcceptable(Some(a), io)
    requires a.size.Some? && a.size.value % USIZE_MODULUS == 0
    requires io.nextPartition.Some? && io.begun.Some?
    ensures var r := OnAttributes(s, Some(a), io);
            && r.published == [StateReport(Downloading)]
            && OnChunk(r.after, payload, later) == Step(r.after, [], [])
  {
  }
}
