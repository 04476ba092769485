/** lib/WebStreamDefaultReader.ts: the low-level pull over a reader handle
    that hands out chunks of its own size, keeping the unread tail of the last
    chunk for the next call. */
module OwnedChunkAdapter {
  import opened Bytes
  import opened Outcomes
  import opened WebSources
  import opened ReaderState

  predicate IsOwnedChunk(r: Reader)
  {
    r.adapter.OwnedChunk? && Valid(r)
  }

  /** Only the adapter's own fields and the end flag may differ. */
  predicate SameBase(r: Reader, r': Reader)
  {
    r'.adapter.OwnedChunk? && r'.interrupted == r.interrupted && r'.peekQueue == r.peekQueue
  }

  lemma OwnedPending(r: Reader)
    requires r.adapter.OwnedChunk?
    ensures Pending(r) == if r.endOfStream then [] else Surplus(r.adapter) + ChunkContent(r.adapter.handle)
  {
  }

  /** Serve from the retained chunk first: copy `min(left in chunk, length)`
      bytes, advance the cursor, and drop the chunk once it is used up. */
  function ServeSurplus(r: Reader, length: nat): (p: (Bytes, Reader))
    requires IsOwnedChunk(r)
    ensures IsOwnedChunk(p.1) && SameBase(r, p.1)
    ensures p.1.endOfStream == r.endOfStream && p.1.adapter.handle == r.adapter.handle
    ensures p.0 + Surplus(p.1.adapter) == Surplus(r.adapter)
    ensures |p.0| == Min(length, |Surplus(r.adapter)|)
    ensures p.1.adapter.buffer.None? <==> (r.adapter.buffer.None? || |p.0| == |Surplus(r.adapter)|)
  {
    match r.adapter.buffer
    case None => ([], r)
    case Some(b) =>
      var off := r.adapter.bufferOffset;
      var toCopy := Min(|b| - off, length);
      var off' := off + toCopy;
      assert b[off..] == b[off..off'] + b[off'..];
      if off' >= |b| then
        (b[off..off'], r.(adapter := r.adapter.(buffer := None, bufferOffset := 0)))
      else
        (b[off..off'], r.(adapter := r.adapter.(bufferOffset := off')))
  }

  /** Where the chunk loop left the handle: the bytes it produced, whether it
      saw done, and the chunk it kept with the cursor into it. */
  datatype Pumped = Pumped(out: Bytes, handle: ChunkSource, ended: bool, kept: Option<Bytes>, cursor: nat)

  /** What the handle can still give after the loop. */
  function Left(p: Pumped): Bytes
  {
    if p.ended then []
    else (if p.kept.Some? && p.cursor <= |p.kept.value| then p.kept.value[p.cursor..] else []) + ChunkContent(p.handle)
  }

  /** The `while (length > 0 && !this.endOfStream)` loop: read a chunk; done
      sets end-of-stream and stops; a chunk longer than still needed gives its
      prefix and is kept with the cursor after that prefix; a chunk that fits
      is taken whole; a result without a value is skipped. */
  function Pump(h: ChunkSource, acc: Bytes, length: nat): (p: Pumped)
    ensures |acc| <= |p.out| <= |acc| + length && p.out[..|acc|] == acc
    ensures p.out + Left(p) == acc + ChunkContent(h)
    ensures |p.out| < |acc| + length ==> p.ended
    ensures p.kept.Some? ==> !p.ended && p.cursor < |p.kept.value|
    ensures p.kept.None? ==> p.cursor == 0
    ensures p.handle.cancelled == h.cancelled && p.handle.released == h.released
    decreases |h.script|
  {
    if length > 0 then
      var (res, h1) := NextChunk(h);
      if res.done then
        Pumped(acc, h1, true, None, 0)
      else if res.value.None? then
        assert ChunkContent(h) == ChunkContent(h1);
        Pump(h1, acc, length)
      else
        var chunk := res.value.value;
        assert ChunkContent(h) == chunk + ChunkContent(h1);
        Assoc(acc, chunk, ChunkContent(h1));
        if |chunk| > length then
          var head, tail := chunk[..length], chunk[length..];
          assert chunk == head + tail;
          var p := Pumped(acc + head, h1, false, Some(chunk), length);
          assert Left(p) == tail + ChunkContent(h1);
          Assoc(acc, head, tail);
          Assoc(acc + head, tail, ChunkContent(h1));
          assert (acc + head)[..|acc|] == acc;
          p
        else
          var p := Pump(h1, acc + chunk, length - |chunk|);
          assert p.out[..|acc|] == p.out[..|acc + chunk|][..|acc|];
          p
    else
      Pumped(acc, h, false, None, 0)
  }

  /** A reader that took over the loop's state can still give what the
      loop left. */
  lemma PumpedPending(p: Pumped, r: Reader)
    requires r.endOfStream == p.ended && r.adapter == OwnedChunk(p.kept, p.cursor, p.handle)
    ensures Pending(r) == Left(p)
  {
  }

  /** The chunk loop after the retained chunk is used up, with `served`
      bytes already produced: the reader takes over where the loop left the
      handle. */
  function RunLoop(r: Reader, served: Bytes, length: nat): (p: (Bytes, Reader))
    requires IsOwnedChunk(r) && !r.endOfStream && r.adapter.buffer.None? && |served| <= length
    ensures IsOwnedChunk(p.1) && SameBase(r, p.1)
    ensures |p.0| <= length
    ensures p.0 + Pending(p.1) == served + Pending(r)
    ensures |p.0| < length ==> p.1.endOfStream
  {
    var p := Pump(r.adapter.handle, served, length - |served|);
    var r2 := r.(endOfStream := p.ended, adapter := OwnedChunk(p.kept, p.cursor, p.handle));
    LoopResult(r, served, length, p, r2);
    (p.out, r2)
  }

  lemma LoopResult(r: Reader, served: Bytes, length: nat, p: Pumped, r2: Reader)
    requires IsOwnedChunk(r) && !r.endOfStream && r.adapter.buffer.None? && |served| <= length
    requires p == Pump(r.adapter.handle, served, length - |served|)
    requires r2 == r.(endOfStream := p.ended, adapter := OwnedChunk(p.kept, p.cursor, p.handle))
    ensures IsOwnedChunk(r2) && SameBase(r, r2)
    ensures |p.out| <= length
    ensures p.out + Pending(r2) == served + Pending(r)
    ensures |p.out| < length ==> r2.endOfStream
  {
    OwnedPending(r);
    PumpedPending(p, r2);
  }

  /** Lines 18-64 entered without end-of-stream: the surplus, then the chunk
      loop. */
  function Assemble(r: Reader, length: nat): (p: (Bytes, Reader))
    requires IsOwnedChunk(r) && !r.endOfStream
    ensures IsOwnedChunk(p.1) && SameBase(r, p.1)
    ensures |p.0| <= length
    ensures p.0 + Pending(p.1) == Pending(r)
    ensures |p.0| < length ==> p.1.endOfStream
  {
    var sp := ServeSurplus(r, length);
    var served := sp.0;
    var r1 := sp.1;
    OwnedPending(r);
    OwnedPending(r1);
    if |served| == length then
      sp
    else
      assert Surplus(r1.adapter) == [];
      RunLoop(r1, served, length)
  }

  /** `readFromStream` as the engine uses it. Entering at end-of-stream throws
      without touching the handle; otherwise it returns the first
      `min(length, what is left)` bytes the handle can still give, and a
      short count only once the handle said done. */
  function ReadFromStream(r: Reader, length: nat): (o: Outcome<Reader>)
    requires IsOwnedChunk(r)
    ensures o.Failed? <==> r.endOfStream
    ensures o.Failed? ==> o.error == EndOfStream && o.next == r
    ensures o.Delivered? || o.Failed?
    ensures IsOwnedChunk(o.next) && SameBase(r, o.next)
    ensures o.Delivered? ==> o.bytes + Pending(o.next) == Pending(r)
    ensures o.Delivered? ==> |o.bytes| == Min(length, |Pending(r)|)
    ensures o.Delivered? && |o.bytes| < length ==> o.next.endOfStream
  {
    if r.endOfStream then Failed(EndOfStream, r)
    else
      var (out, r') := Assemble(r, length);
      Delivered(out, r')
  }

  /** `readFromStream` as written: lines 66-68 also throw when this call
      itself saw done before producing a byte. */
  function ReadFromStreamAsWritten(r: Reader, length: nat): (o: Outcome<Reader>)
    requires IsOwnedChunk(r)
    ensures o.Failed? <==> (r.endOfStream || (o.next.endOfStream && |Assemble(r, length).0| == 0))
    ensures o.Failed? ==> o.error == EndOfStream
    ensures o.Delivered? ==> o == ReadFromStream(r, length)
  {
    if r.endOfStream then Failed(EndOfStream, r)
    else
      var (out, r') := Assemble(r, length);
      if |out| == 0 && r'.endOfStream then Failed(EndOfStream, r') else Delivered(out, r')
  }

  /** `abort()`: cancel the handle, after which it delivers nothing. */
  function Abort(r: Reader): (r': Reader)
    requires IsOwnedChunk(r)
    ensures IsOwnedChunk(r') && SameBase(r, r') && r'.endOfStream == r.endOfStream
    ensures Pending(r') == Surplus(r.adapter) || r.endOfStream
    ensures r'.adapter.handle.cancelled && ChunkContent(r'.adapter.handle) == []
  {
    r.(adapter := r.adapter.(handle := r.adapter.handle.(cancelled := true)))
  }

  /** `close()`: abort, then release the handle's lock on the stream. */
  function Close(r: Reader): (r': Reader)
    requires IsOwnedChunk(r)
    ensures IsOwnedChunk(r') && SameBase(r, r')
    ensures r'.adapter.handle.cancelled && r'.adapter.handle.released
    ensures r'.adapter.handle.script == r.adapter.handle.script
  {
    var a := Abort(r);
    a.(adapter := a.adapter.(handle := a.adapter.handle.(released := true)))
  }

  /** The invariant of the retained chunk holds after every call: a kept
      chunk has unread bytes left and never coexists with end-of-stream. */
  lemma ReadKeepsRemainderInvariant(r: Reader, length: nat)
    requires IsOwnedChunk(r)
    ensures var r' := ReadFromStream(r, length).next;
      r'.adapter.buffer.Some? ==> r'.adapter.bufferOffset < |r'.adapter.buffer.value| && !r'.endOfStream
  {
  }

  /** A chunk longer than what is still needed contributes its prefix; the
      whole chunk is kept with the cursor at that length and the call returns
      exactly the requested length. */
  lemma {:induction false} LongChunkIsKept(r: Reader, length: nat, chunk: Bytes)
    requires IsOwnedChunk(r) && !r.endOfStream && r.adapter.buffer.None?
    requires 0 < length < |chunk|
    requires !r.adapter.handle.cancelled && |r.adapter.handle.script| > 0
    requires r.adapter.handle.script[0] == ReadResult(false, Some(chunk))
    ensures var o := ReadFromStream(r, length);
      && o.Delivered? && o.bytes == chunk[..length]
      && o.next.adapter.buffer == Some(chunk) && o.next.adapter.bufferOffset == length
      && o.next.adapter.handle.script == r.adapter.handle.script[1..]
  {
  }

  /** Counterexample for lines 66-68: after `peek(3)` consumed a 3-byte chunk
      exactly, the handle's next result is done. The base `read(4)` has taken
      the 3 peeked bytes off the stack, leaving it empty, and asks for 1 more;
      the as-written pull throws EndOfStreamError, so the whole read throws
      and the 3 bytes are lost, while the corrected pull returns 0 and the
      read returns 3. */
  lemma AsWrittenThrowsAfterPeekedBytes()
    ensures var r := Reader(false, false, [], OwnedChunk(None, 0, ChunkSource([], false, false)));
      && ReadFromStreamAsWritten(r, 1) == Failed(EndOfStream, r.(endOfStream := true))
      && ReadFromStream(r, 1) == Delivered([], r.(endOfStream := true))
  {
    var r := Reader(false, false, [], OwnedChunk(None, 0, ChunkSource([], false, false)));
    assert Assemble(r, 1) == ([], r.(endOfStream := true));
  }
}
