/** The state of one reader (lib/AbstractStreamReader.ts plus the fields of
    whichever adapter subclass it is) and what it can still deliver. */
module ReaderState {
  import opened Bytes
  import opened Outcomes
  import opened Completion
  import opened WebSources
  import NodeSource

  /** Cap on the length of one low-level pull: 1 MiB. */
  const MaxStreamReadSize: nat := 1024 * 1024

  /** The subclass part of a reader. */
  datatype Adapter =
      /** WebStreamDefaultReader: the retained chunk and the cursor into it. */
    | OwnedChunk(buffer: Option<Bytes>, bufferOffset: nat, handle: ChunkSource)
      /** WebStreamByobReader: nothing retained. */
    | Borrowed(byob: ByteSource)
      /** StreamReader: the slot for the one postponed read. */
    | Push(deferred: Option<Deferred>, stream: NodeSource.NodeStream)

  /** `peekQueue` is used as a stack: push and pop at its end. */
  datatype Reader = Reader(endOfStream: bool, interrupted: bool, peekQueue: seq<Bytes>, adapter: Adapter)

  /** The unconsumed tail of the retained chunk. */
  function Surplus(a: Adapter): Bytes
    requires a.OwnedChunk?
  {
    if a.buffer.Some? && a.bufferOffset <= |a.buffer.value| then a.buffer.value[a.bufferOffset..] else []
  }

  function AdapterContent(a: Adapter): Bytes
  {
    match a
    case OwnedChunk(_, _, h) => Surplus(a) + ChunkContent(h)
    case Borrowed(s) => ByteContent(s)
    case Push(_, s) => NodeSource.Content(s)
  }

  /** What later pulls can still obtain: nothing once end-of-stream is flagged. */
  function Pending(r: Reader): Bytes
  {
    if r.endOfStream then [] else AdapterContent(r.adapter)
  }

  /** What later reads can obtain from the source: nothing once interrupted. */
  function StreamContent(r: Reader): Bytes
  {
    if r.interrupted then [] else Pending(r)
  }

  /** Everything later reads can return, peeked bytes first. */
  function Content(r: Reader): Bytes
  {
    Stacked(r.peekQueue) + StreamContent(r)
  }

  /** The invariants every operation keeps. For the owned-chunk adapter a
      retained chunk always has unread bytes and never coexists with
      end-of-stream; a borrowed-buffer source that said done has nothing
      left; a push reader at rest has no read waiting in its slot. */
  predicate Valid(r: Reader)
  {
    match r.adapter
    case OwnedChunk(buffer, off, _) =>
      && (buffer.Some? ==> off < |buffer.value| && !r.endOfStream)
      && (buffer.None? ==> off == 0)
    case Borrowed(s) => WellFormed(s) && (r.endOfStream ==> ByteContent(s) == [])
    case Push(d, _) => d.None? || !d.value.state.Waiting?
  }

  /** The lengths of the low-level requests the source has seen so far (the
      owned-chunk handle takes no length). */
  function RequestLog(r: Reader): seq<nat>
  {
    match r.adapter
    case OwnedChunk(_, _, _) => []
    case Borrowed(s) => s.requested
    case Push(_, s) => s.requested
  }

  /** `after` extends `before` only by requests of 1 to 1 MiB bytes. */
  predicate RequestsBounded(before: seq<nat>, after: seq<nat>)
  {
    && |before| <= |after|
    && after[..|before|] == before
    && forall i :: |before| <= i < |after| ==> 0 < after[i] <= MaxStreamReadSize
  }

  /** Neither flag ever goes back from true to false. */
  predicate FlagsGrow(r: Reader, r': Reader)
  {
    (r.endOfStream ==> r'.endOfStream) && (r.interrupted ==> r'.interrupted)
  }

  /** The adapter keeps its kind: a reader never changes subclass. */
  predicate SameKind(r: Reader, r': Reader)
  {
    && (r.adapter.OwnedChunk? <==> r'.adapter.OwnedChunk?)
    && (r.adapter.Borrowed? <==> r'.adapter.Borrowed?)
    && (r.adapter.Push? <==> r'.adapter.Push?)
  }

  lemma RequestsBoundedTrans(a: seq<nat>, b: seq<nat>, c: seq<nat>)
    requires RequestsBounded(a, b) && RequestsBounded(b, c)
    ensures RequestsBounded(a, c)
  {
    assert c[..|a|] == c[..|b|][..|a|];
  }

  /** Every request the stream saw after `before` asked for `n` bytes. */
  predicate LoggedOnly(before: seq<nat>, after: seq<nat>, n: nat)
  {
    |before| <= |after| && after[..|before|] == before && forall i :: |before| <= i < |after| ==> after[i] == n
  }

  lemma LoggedOnlyTrans(a: seq<nat>, b: seq<nat>, c: seq<nat>, n: nat)
    requires LoggedOnly(a, b, n) && LoggedOnly(b, c, n)
    ensures LoggedOnly(a, c, n)
  {
    assert c[..|a|] == c[..|b|][..|a|];
  }

  lemma LoggedOnlyBounded(a: seq<nat>, b: seq<nat>, n: nat)
    requires LoggedOnly(a, b, n) && 0 < n <= MaxStreamReadSize
    ensures RequestsBounded(a, b)
  {
  }
}
