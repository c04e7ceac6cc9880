/** A whole firmware download: the device's chunk requests answered by a
    server that serves the image faithfully, every flash call succeeding. */
module OtaDownload {
  import opened Common
  import opened Chunking
  import opened Messages
  import opened OtaSession
  import opened OtaProperties
  import Decimal

  /** A server holding `image` answers a chunk request with the requested
      number of bytes from offset `index * CHUNK_SIZE`, clipped to the image;
      a request it cannot read is answered with an empty payload. */
  function Serve(image: seq<Byte>, request: Publication): (payload: seq<Byte>)
    ensures |payload| <= |image|
  {
    match (ChunkIndexOf(request.topic), Decimal.Parse(request.payload))
    case (Some(index), Some(size)) =>
      var start := Min(index * CHUNK_SIZE, |image|);
      image[start..Min(start + size, |image|)]
    case _ => []
  }

  /** Flash calls that all succeed. */
  predicate AllSucceed(io: FlashResults) {
    io.writeOk && io.tailWriteOk && io.endOk
  }

  /** Mid-download: an open download of `image` with a whole number of chunks
      in, bytes still missing, and `request` the device's outstanding chunk
      request. */
  predicate MidDownload(s: Session, image: seq<Byte>, request: Message) {
    && Valid(s) && !s.restarted && Active(s)
    && s.fwSize == |image|
    && s.receivedBytes % CHUNK_SIZE == 0
    && [request] == ChunkRequests(s, NextChunkIndex(s.receivedBytes))
  }

  /** The server's answer to the outstanding request is exactly the next
      `min(CHUNK_SIZE, missing)` bytes of the image. */
  lemma ServeAnswersRequest(s: Session, image: seq<Byte>, request: Message)
    requires MidDownload(s, image, request)
    ensures Serve(image, Wire(request))
            == image[s.receivedBytes..s.receivedBytes + RequestSize(s.fwSize, s.receivedBytes)]
  {
    var n := RequestSize(s.fwSize, s.receivedBytes);
    var index := NextChunkIndex(s.receivedBytes);
    assert request == ChunkRequest(index, n);
    assert index * CHUNK_SIZE == s.receivedBytes by {
      NextChunkStartsAtReceived(s.receivedBytes);
    }
  }

  /** A server that instead started each answer at `index * size`, with
      `size` the byte count the request asked for. */
  function ServeAtRequestedSize(image: seq<Byte>, request: Publication): (payload: seq<Byte>)
    ensures |payload| <= |image|
  {
    match (ChunkIndexOf(request.topic), Decimal.Parse(request.payload))
    case (Some(index), Some(size)) =>
      var start := Min(index * size, |image|);
      image[start..Min(start + size, |image|)]
    case _ => []
  }

  /** The short last request of a 1500-byte image asks chunk 1 for 476 bytes:
      only a server offsetting by `index * CHUNK_SIZE` answers it with the
      missing bytes 1024 to 1500; one offsetting by the requested size answers
      with bytes 476 to 952, which the device would write as the image's end. */
  lemma RequestedSizeServerMisplacesLastChunk(image: seq<Byte>)
    requires |image| == 1500
    ensures Serve(image, Wire(ChunkRequest(1, 476))) == image[1024..1500]
    ensures ServeAtRequestedSize(image, Wire(ChunkRequest(1, 476))) == image[476..952]
  {
  }

  /** One round trip: the served chunk is written whole and counted; then
      either the image is complete and the device reports `UPDATED` and
      restarts, or it is still downloading with the next request out. */
  lemma ServedChunkStep(s: Session, image: seq<Byte>, request: Message, io: FlashResults)
    requires MidDownload(s, image, request) && AllSucceed(io)
    ensures var payload := Serve(image, Wire(request));
            var r := OnChunk(s, payload, io);
            && Written(r.flash) == payload
            && r.after.receivedBytes == s.receivedBytes + |payload|
            && |payload| > 0
            && (r.after.restarted <==> r.after.receivedBytes == s.fwSize)
            && (r.after.restarted ==> r.published == [StateReport(Updated)])
            && (!r.after.restarted ==> |r.published| == 1 && MidDownload(r.after, image, r.published[0]))
  {
    var payload := Serve(image, Wire(request));
    ServeAnswersRequest(s, image, request);
    assert |payload| == RequestSize(s.fwSize, s.receivedBytes);
    SucceedingChunkStep(s, payload, io);
    var r := OnChunk(s, payload, io);
    if !r.after.restarted {
      assert |payload| == CHUNK_SIZE;
      NextBoundary(s.receivedBytes);
      assert MidDownload(r.after, image, r.published[0]);
    }
  }

  /** The rest of the download from `s`: the device handles the server's
      answer to each outstanding request until it restarts. */
  function Download(s: Session, image: seq<Byte>, request: Message, io: FlashResults): (r: Step)
    requires MidDownload(s, image, request) && AllSucceed(io)
    decreases s.fwSize - s.receivedBytes
  {
    var one := OnChunk(s, Serve(image, Wire(request)), io);
    ServedChunkStep(s, image, request, io);
    if one.after.restarted then one
    else
      var rest := Download(one.after, image, one.published[0], io);
      Step(rest.after, one.published + rest.published, one.flash + rest.flash)
  }

  /** A download is over: the device restarted with `total` bytes in, the
      flash was handed `data` through writes and an `esp_ota_end` on handle
      `h` only, the last flash call set `p` as boot partition, and the
      messages were chunk requests followed by one `UPDATED` report. */
  predicate Completed(r: Step, data: seq<Byte>, total: nat, h: Handle, p: Option<PartitionId>) {
    && r.after.restarted
    && r.after.receivedBytes == total
    && Written(r.flash) == data
    && OnHandle(r.flash, h)
    && |r.flash| > 0 && r.flash[|r.flash| - 1] == SetBootPartition(p)
    && |r.published| >= 1
    && r.published[|r.published| - 1] == StateReport(Updated)
    && forall i :: 0 <= i < |r.published| - 1 ==> r.published[i].ChunkRequest?
  }

  /** A round that writes `x` on handle `h` and requests a chunk, followed by
      a completed download of `y`, is a completed download of `x + y`. */
  lemma CompletedAfterRound(one: Step, rest: Step, x: seq<Byte>, y: seq<Byte>,
                            total: nat, h: Handle, p: Option<PartitionId>)
    requires Written(one.flash) == x && OnHandle(one.flash, h)
    requires |one.published| == 1 && one.published[0].ChunkRequest?
    requires Completed(rest, y, total, h, p)
    ensures Completed(Step(rest.after, one.published + rest.published, one.flash + rest.flash), x + y, total, h, p)
  {
    var r := Step(rest.after, one.published + rest.published, one.flash + rest.flash);
    WrittenAppend(one.flash, rest.flash);
    OnHandleAppend(one.flash, rest.flash, h);
    assert r.flash[|r.flash| - 1] == rest.flash[|rest.flash| - 1];
    assert r.published[|r.published| - 1] == rest.published[|rest.published| - 1];
    forall i | 0 <= i < |r.published| - 1
      ensures r.published[i].ChunkRequest?
    {
      if i > 0 {
        assert r.published[i] == rest.published[i - 1];
      }
    }
  }

  lemma SliceSplit(image: seq<Byte>, a: nat, b: nat)
    requires a <= b <= |image|
    ensures image[a..b] + image[b..] == image[a..]
  {
  }

  /** A download that starts mid-image ends with the device restarted, having
      handed the flash exactly the missing part of the image, in order, on the
      open handle, then switched the boot partition to the update partition,
      and having published chunk requests and then, last, a single `UPDATED`
      report. */
  lemma {:induction false} DownloadCompletes(s: Session, image: seq<Byte>, request: Message, io: FlashResults)
    requires MidDownload(s, image, request) && AllSucceed(io)
    ensures Completed(Download(s, image, request, io), image[s.receivedBytes..], |image|,
                      s.otaHandle, s.updatePartition)
    decreases s.fwSize - s.receivedBytes
  {
    var payload := Serve(image, Wire(request));
    var one := OnChunk(s, payload, io);
    ServedChunkStep(s, image, request, io);
    ServeAnswersRequest(s, image, request);
    ChunkStaysOnSession(s, payload, io);
    var a, b := s.receivedBytes, one.after.receivedBytes;
    assert payload == image[a..b];
    if one.after.restarted {
      assert Download(s, image, request, io) == one;
      assert image[a..] == image[a..b];
    } else {
      var next := one.published[0];
      DownloadCompletes(one.after, image, next, io);
      var rest := Download(one.after, image, next, io);
      assert Download(s, image, request, io)
          == Step(rest.after, one.published + rest.published, one.flash + rest.flash);
      CompletedAfterRound(one, rest, image[a..b], image[b..], |image|, s.otaHandle, s.updatePartition);
      SliceSplit(image, a, b);
    }
  }

  /** An update from start to end: an accepted attributes response for an
      image of at least one byte opens the download, reports `DOWNLOADING` and
      requests chunk 0; answering every request from the image then leaves the
      device restarted, every write and the `esp_ota_end` having gone to the
      handle `esp_ota_begin` returned, the partition it was begun on handed
      exactly the image and set as boot partition by the last flash call. */
  lemma {:induction false} UpdateInstallsImage(s: Session, a: SharedAttributes, image: seq<Byte>, io: FlashResults)
    requires Valid(s) && !s.restarted && AttributesAcceptable(Some(a), io)
    requires a.size == Some(|image|) && 0 < |image| < USIZE_MODULUS
    requires io.nextPartition.Some? && io.begun.Some? && AllSucceed(io)
    ensures var begun := OnAttributes(s, Some(a), io);
            && |begun.published| == 2
            && begun.published[0] == StateReport(Downloading)
            && MidDownload(begun.after, image, begun.published[1])
            && var rest := Download(begun.after, image, begun.published[1], io);
               var flash := begun.flash + rest.flash;
               && rest.after.restarted
               && flash[0] == Begin(io.nextPartition.value, |image|)
               && Written(flash) == image
               && OnHandle(flash, io.begun.value)
               && flash[|flash| - 1] == SetBootPartition(io.nextPartition)
               && rest.published[|rest.published| - 1] == StateReport(Updated)
  {
    var begun := OnAttributes(s, Some(a), io);
    AttributesAccepted(s, a, io);
    assert begun.published[1..] == ChunkRequests(begun.after, 0);
    assert NextChunkIndex(0) == 0;
    OpenedDownloadInstalls(begun, image, io);
  }

  /** The download that follows an opening step whose only flash call is a
      `Begin`: the whole flash log writes the image on the session's handle
      and ends by setting the session's update partition as boot partition. */
  lemma OpenedDownloadInstalls(begun: Step, image: seq<Byte>, io: FlashResults)
    requires |begun.published| == 2 && MidDownload(begun.after, image, begun.published[1]) && AllSucceed(io)
    requires begun.after.receivedBytes == 0 && |begun.flash| == 1 && begun.flash[0].Begin?
    ensures var rest := Download(begun.after, image, begun.published[1], io);
            var flash := begun.flash + rest.flash;
            && rest.after.restarted
            && flash[0] == begun.flash[0]
            && Written(flash) == image
            && OnHandle(flash, begun.after.otaHandle)
            && flash[|flash| - 1] == SetBootPartition(begun.after.updatePartition)
            && rest.published[|rest.published| - 1] == StateReport(Updated)
  {
    DownloadCompletes(begun.after, image, begun.published[1], io);
    var rest := Download(begun.after, image, begun.published[1], io);
    assert image[0..] == image;
    assert begun.flash == [begun.flash[0]];
    BeginThenCompleted(begun.flash[0], rest, image, begun.after.otaHandle, begun.after.updatePartition);
  }

  /** A `Begin` followed by the flash calls of a completed download. */
  lemma BeginThenCompleted(begin: FlashCall, rest: Step, data: seq<Byte>, h: Handle, p: Option<PartitionId>)
    requires begin.Begin? && Completed(rest, data, |data|, h, p)
    ensures var flash := [begin] + rest.flash;
            && flash[0] == begin
            && Written(flash) == data
            && OnHandle(flash, h)
            && flash[|flash| - 1] == SetBootPartition(p)
  {
    WrittenAppend([begin], rest.flash);
    WrittenOne(begin);
    OnHandleAppend([begin], rest.flash, h);
  }

  /** The bytes of `chunks`, one after the other. */
  function Concat(chunks: seq<seq<Byte>>): seq<Byte> {
    if chunks == [] then [] else chunks[0] + Concat(chunks[1..])
  }

  /** The device handling `chunks` in order, whatever their sizes, until it
      restarts; chunks after a restart never reach it. */
  function Feed(s: Session, chunks: seq<seq<Byte>>, io: FlashResults): (r: Step)
    requires Valid(s) && !s.restarted
    decreases |chunks|
  {
    if chunks == [] then Step(s, [], [])
    else
      var one := OnChunk(s, chunks[0], io);
      if one.after.restarted then one
      else
        var rest := Feed(one.after, chunks[1..], io);
        Step(rest.after, one.published + rest.published, one.flash + rest.flash)
  }

  /** Without any assumption about the server: payloads whose lengths add up
      to the missing bytes, every flash call succeeding, leave the device
      restarted with `FW_SIZE` bytes in, the flash handed exactly those
      payloads in order on the open handle and the update partition set as
      boot partition, and the messages chunk requests followed by a single
      `UPDATED` report, with no request after it. */
  lemma {:induction false} FeedCompletes(s: Session, chunks: seq<seq<Byte>>, io: FlashResults)
    requires Valid(s) && !s.restarted && Active(s) && AllSucceed(io)
    requires |Concat(chunks)| == s.fwSize - s.receivedBytes
    ensures Completed(Feed(s, chunks, io), Concat(chunks), s.fwSize, s.otaHandle, s.updatePartition)
    decreases |chunks|
  {
    assert chunks != [];
    var c := chunks[0];
    assert Concat(chunks) == c + Concat(chunks[1..]);
    var one := OnChunk(s, c, io);
    SucceedingChunkStep(s, c, io);
    ChunkStaysOnSession(s, c, io);
    if one.after.restarted {
      assert Concat(chunks[1..]) == [];
      assert Concat(chunks) == c;
      assert Feed(s, chunks, io) == one;
    } else {
      FeedCompletes(one.after, chunks[1..], io);
      var rest := Feed(one.after, chunks[1..], io);
      assert Feed(s, chunks, io)
          == Step(rest.after, one.published + rest.published, one.flash + rest.flash);
      CompletedAfterRound(one, rest, c, Concat(chunks[1..]), s.fwSize, s.otaHandle, s.updatePartition);
    }
  }

  /** A 1500-byte image: the attributes response reports `DOWNLOADING` and
      requests chunk 0 for 1024 bytes. */
  lemma FifteenHundredByteOpening(s: Session, a: SharedAttributes, io: FlashResults)
    requires Valid(s) && !s.restarted && AttributesAcceptable(Some(a), io)
    requires a.size == Some(1500)
    requires io.nextPartition.Some? && io.begun.Some?
    ensures var begun := OnAttributes(s, Some(a), io);
            && begun.published == [StateReport(Downloading), ChunkRequest(0, 1024)]
            && begun.after.fwSize == 1500 && begun.after.receivedBytes == 0
  {
    AttributesAccepted(s, a, io);
  }

  /** ... and the download then requests chunk 1 for the remaining 476 bytes
      and reports `UPDATED`. */
  lemma FifteenHundredByteDownload(s: Session, image: seq<Byte>, io: FlashResults)
    requires MidDownload(s, image, ChunkRequest(0, 1024)) && AllSucceed(io)
    requires |image| == 1500
    ensures Download(s, image, ChunkRequest(0, 1024), io).published
            == [ChunkRequest(1, 476), StateReport(Updated)]
  {
    ServedChunkStep(s, image, ChunkRequest(0, 1024), io);
    var one := OnChunk(s, Serve(image, Wire(ChunkRequest(0, 1024))), io);
    assert one.after.receivedBytes == 1024;
    assert one.published == [ChunkRequest(1, 476)];
    ServedChunkStep(one.after, image, ChunkRequest(1, 476), io);
    var two := OnChunk(one.after, Serve(image, Wire(ChunkRequest(1, 476))), io);
    assert two.after.restarted;
    assert Download(one.after, image, ChunkRequest(1, 476), io) == two;
  }
}
