/** lib/WebStreamReaderFactory.ts: pick the adapter for a WHATWG byte stream
    by the kind of reader handle the stream hands out. */
module Factory {
  import opened Bytes
  import opened Outcomes
  import opened WebSources
  import opened ReaderState

  /** The class of the handle `getReader` returned. */
  datatype HandleKind = DefaultHandle | ByobHandle

  /** The mode a `getReader` call asked for. */
  datatype Mode = ByobMode | DefaultMode

  /** A web stream: the kind of handle it hands out, the chunks queued in it
      (after which it is closed), and the modes `getReader` was called with. */
  datatype WebStream = WebStream(kind: HandleKind, chunks: seq<Bytes>, acquisitions: seq<Mode>)

  /** The results a default handle's `read()` calls settle with. */
  function ScriptOf(chunks: seq<Bytes>): (script: seq<ReadResult>)
    ensures |script| == |chunks|
    ensures forall i :: 0 <= i < |chunks| ==> script[i] == ReadResult(false, Some(chunks[i]))
  {
    if |chunks| == 0 then [] else [ReadResult(false, Some(chunks[0]))] + ScriptOf(chunks[1..])
  }

  /** A default handle over the chunks delivers exactly their bytes. */
  lemma {:induction false} ScriptDeliversChunks(chunks: seq<Bytes>)
    ensures Promised(ScriptOf(chunks)) == Queued(chunks)
  {
    if |chunks| > 0 {
      var script := ScriptOf(chunks);
      assert script[1..] == ScriptOf(chunks[1..]);
      ScriptDeliversChunks(chunks[1..]);
      QueuedCons(chunks[0], chunks[1..]);
      assert chunks == [chunks[0]] + chunks[1..];
    }
  }

  /** Lines 7-14, `makeWebStreamReader`: acquire one handle in BYOB mode; a
      default handle gets the owned-chunk adapter, any other the
      borrowed-buffer adapter. Either way the new reader starts with an
      empty stack, clear flags, and exactly the stream's bytes to give. */
  function MakeWebStreamReader(s: WebStream): (p: (Reader, WebStream))
    ensures p.1 == s.(acquisitions := s.acquisitions + [ByobMode])
    ensures p.0.adapter.OwnedChunk? <==> s.kind == DefaultHandle
    ensures p.0.adapter.Borrowed? <==> s.kind == ByobHandle
    ensures p.0.peekQueue == [] && !p.0.endOfStream && !p.0.interrupted
    ensures RequestLog(p.0) == []
    ensures Content(p.0) == Queued(s.chunks)
    ensures (forall i :: 0 <= i < |s.chunks| ==> 0 < |s.chunks[i]|) ==> Valid(p.0)
    ensures s.kind == DefaultHandle ==> Valid(p.0)
  {
    var s' := s.(acquisitions := s.acquisitions + [ByobMode]);
    match s.kind
    case DefaultHandle =>
      ScriptDeliversChunks(s.chunks);
      (Reader(false, false, [], OwnedChunk(None, 0, ChunkSource(ScriptOf(s.chunks), false, false))), s')
    case ByobHandle =>
      (Reader(false, false, [], Borrowed(ByteSource(s.chunks, false, []))), s')
  }

  /** The choice depends on the handle kind only: two streams with the same
      kind and chunks give the same reader, whatever their history. */
  lemma SelectionIgnoresHistory(s: WebStream, t: WebStream)
    requires s.kind == t.kind && s.chunks == t.chunks
    ensures MakeWebStreamReader(s).0 == MakeWebStreamReader(t).0
  {
  }
}
