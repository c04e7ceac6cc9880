/** The byte arithmetic of the firmware download: how much to ask for, how much
    of an incoming chunk to write, how that is split into an aligned write and a
    short tail, and which chunk to ask for next. */
module Chunking {
  import opened Common

  /** Largest chunk the device ever requests. */
  const CHUNK_SIZE: nat := 1024
  /** The flash write granularity the first write is cut down to. */
  const WRITE_ALIGNMENT: nat := 4

  /** Bytes of the image still missing: `total.saturating_sub(written)`. */
  function Remaining(total: nat, written: nat): (r: nat)
    ensures r == 0 <==> total <= written
    ensures r > 0 ==> written + r == total
  {
    SaturatingSub(total, written)
  }

  /** Byte count `request_chunk` puts in its request: the missing bytes,
      capped at one chunk. */
  function RequestSize(total: nat, written: nat): (n: nat)
    ensures n == 0 <==> total <= written
    ensures n <= CHUNK_SIZE && n <= Remaining(total, written)
    ensures n == CHUNK_SIZE || n == Remaining(total, written)
  {
    Min(Remaining(total, written), CHUNK_SIZE)
  }

  /** How much of a payload of `payloadLen` bytes the chunk handler writes at
      all: the payload clipped to the missing byte count. */
  function WritableLen(payloadLen: nat, remaining: nat): (w: nat)
    ensures w <= payloadLen && w <= remaining
    ensures w == payloadLen || w == remaining
  {
    Min(payloadLen, remaining)
  }

  /** Length of the first flash write: `w` rounded down to a multiple of the
      alignment, except that a `w` below the alignment is written whole. */
  function FirstWriteLen(w: nat): (a: nat)
    ensures a <= w
    ensures w >= WRITE_ALIGNMENT ==> a % WRITE_ALIGNMENT == 0 && w - a < WRITE_ALIGNMENT
    ensures w < WRITE_ALIGNMENT ==> a == w
  {
    if w < WRITE_ALIGNMENT then w else w - w % WRITE_ALIGNMENT
  }

  /** The handler's own test, "cut the remainder off when there is one and
      something is left", picks the same length. */
  lemma FirstWriteLenAsWritten(w: nat)
    ensures var remainder := w % WRITE_ALIGNMENT;
            FirstWriteLen(w) == if remainder != 0 && w > remainder then w - remainder else w
  {
  }

  /** Length of the tail write: what the first write left of the `w` writable
      bytes (`min(len, remaining).saturating_sub(write_len)`). */
  function TailWriteLen(w: nat, first: nat): nat {
    SaturatingSub(w, first)
  }

  /** The two writes cover the writable bytes exactly; the tail is what the
      alignment cut off, so it is shorter than the alignment unit and empty
      when fewer than four bytes are writable. */
  lemma SplitLengths(w: nat)
    ensures FirstWriteLen(w) + TailWriteLen(w, FirstWriteLen(w)) == w
    ensures TailWriteLen(w, FirstWriteLen(w)) < WRITE_ALIGNMENT
    ensures w < WRITE_ALIGNMENT ==> TailWriteLen(w, FirstWriteLen(w)) == 0
    ensures w >= WRITE_ALIGNMENT ==> TailWriteLen(w, FirstWriteLen(w)) == w % WRITE_ALIGNMENT
  {
  }

  /** Index of the chunk requested after `received` bytes: the chunk whose
      `CHUNK_SIZE`-byte window contains offset `received`. */
  function NextChunkIndex(received: nat): (i: nat)
    ensures i * CHUNK_SIZE <= received < (i + 1) * CHUNK_SIZE
  {
    received / CHUNK_SIZE
  }

  /** When `received` is a whole number of chunks, the next index starts
      exactly at `received`; otherwise it starts before it. */
  lemma NextChunkStartsAtReceived(received: nat)
    ensures NextChunkIndex(received) * CHUNK_SIZE == received <==> received % CHUNK_SIZE == 0
  {
  }

  /** A whole chunk further on is again a chunk boundary. */
  lemma NextBoundary(received: nat)
    requires received % CHUNK_SIZE == 0
    ensures (received + CHUNK_SIZE) % CHUNK_SIZE == 0
    ensures NextChunkIndex(received + CHUNK_SIZE) == NextChunkIndex(received) + 1
  {
  }
}
