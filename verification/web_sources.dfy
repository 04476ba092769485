/** Scripted stand-ins for the two kinds of WHATWG stream reader handle. The
    stream internals are not part of this model: a source is the list of
    results its successive reads settle with. */
module WebSources {
  import opened Bytes
  import opened Outcomes

  /** What one `reader.read(...)` settles with: `{done, value}`. */
  datatype ReadResult = ReadResult(done: bool, value: Option<Bytes>)

  function ValueBytes(res: ReadResult): Bytes
  {
    if res.value.Some? then res.value.value else []
  }

  /** A default (owned-chunk) reader handle: the scripted results of its
      `read()` calls. An exhausted script, like a closed stream, settles every
      further read as done; `cancel()` and `releaseLock()` are flags. */
  datatype ChunkSource = ChunkSource(script: seq<ReadResult>, cancelled: bool, released: bool)

  /** The bytes the script hands out before its first `done`. */
  function Promised(script: seq<ReadResult>): Bytes
  {
    if |script| == 0 || script[0].done then [] else ValueBytes(script[0]) + Promised(script[1..])
  }

  /** The bytes later `read()` calls will still deliver. */
  function ChunkContent(s: ChunkSource): Bytes
  {
    if s.cancelled then [] else Promised(s.script)
  }

  /** One `read()` on a default reader handle. */
  function NextChunk(s: ChunkSource): (p: (ReadResult, ChunkSource))
    ensures p.1.cancelled == s.cancelled && p.1.released == s.released
    ensures p.0.done ==> ChunkContent(s) == []
    ensures !p.0.done ==> ChunkContent(s) == ValueBytes(p.0) + ChunkContent(p.1)
    ensures !p.0.done ==> |p.1.script| < |s.script|
  {
    if s.cancelled || |s.script| == 0 then (ReadResult(true, None), s)
    else (s.script[0], s.(script := s.script[1..]))
  }

  /** A BYOB (borrowed-buffer) reader handle over a byte stream: the chunks
      still queued in the stream, after which it is closed. A read with a view
      of n bytes fills it from the head chunk and leaves the rest queued;
      every view size asked for is logged in `requested`. */
  datatype ByteSource = ByteSource(queue: seq<Bytes>, cancelled: bool, requested: seq<nat>)

  /** A byte stream never queues an empty chunk (enqueue refuses one). */
  predicate WellFormed(s: ByteSource)
  {
    forall i :: 0 <= i < |s.queue| ==> |s.queue[i]| > 0
  }

  function ByteContent(s: ByteSource): Bytes
  {
    if s.cancelled then [] else Queued(s.queue)
  }

  /** One `reader.read(new Uint8Array(n))`. A closed stream settles with an
      empty view and done; a cancelled one with done and no value. */
  function Fill(s: ByteSource, n: nat): (p: (ReadResult, ByteSource))
    ensures p.1.requested == s.requested + [n]
    ensures p.1.cancelled == s.cancelled
    ensures WellFormed(s) ==> WellFormed(p.1)
    ensures p.0.done ==> ByteContent(s) == [] && ByteContent(p.1) == []
    ensures !p.0.done ==> p.0.value.Some? && |p.0.value.value| <= n
    ensures !p.0.done ==> p.0.value.value + ByteContent(p.1) == ByteContent(s)
    ensures WellFormed(s) && 0 < n && !p.0.done ==> 0 < |p.0.value.value|
  {
    var s' := s.(requested := s.requested + [n]);
    if s.cancelled then (ReadResult(true, None), s')
    else if |s.queue| == 0 then (ReadResult(true, Some([])), s')
    else
      var c := s.queue[0];
      var k := Min(|c|, n);
      assert s.queue == [c] + s.queue[1..];
      QueuedCons(c, s.queue[1..]);
      if k < |c| then
        QueuedCons(c[k..], s.queue[1..]);
        assert c == c[..k] + c[k..];
        (ReadResult(false, Some(c[..k])), s'.(queue := [c[k..]] + s.queue[1..]))
      else
        assert c[..k] == c;
        (ReadResult(false, Some(c)), s'.(queue := s.queue[1..]))
  }
}
