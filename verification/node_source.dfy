/** A scripted stand-in for a Node.js Readable in paused mode. The stream
    internals are not part of this model: the source is the bytes already
    buffered, whether the producer has pushed end-of-file, and the script of
    what happens next while a read waits. */
module NodeSource {
  import opened Bytes
  import opened Outcomes

  /** What the next step of the event loop brings while a read is suspended:
      the producer pushes a chunk (a 'readable' follows), pushes EOF, the
      stream emits 'error' or 'close', or the caller calls `abort()`. */
  datatype Event = Arrive(data: Bytes) | PushEnd | Failure(code: nat) | Closed | CallerAbort

  datatype NodeStream = NodeStream(buffered: Bytes, eof: bool, events: seq<Event>, requested: seq<nat>)

  /** Bytes the script pushes before its first other event. */
  function Arrivals(events: seq<Event>): Bytes
  {
    if |events| == 0 || !events[0].Arrive? then [] else events[0].data + Arrivals(events[1..])
  }

  /** Everything the stream can still hand out. */
  function Content(s: NodeStream): Bytes
  {
    s.buffered + (if s.eof then [] else Arrivals(s.events))
  }

  /** `readable.read(size)`: `size` bytes when that many are buffered; after
      EOF, whatever is left; otherwise null. Every size asked for is logged. */
  function Drain(s: NodeStream, size: nat): (p: (Option<Bytes>, NodeStream))
    ensures p.1.eof == s.eof && p.1.events == s.events
    ensures p.1.requested == s.requested + [size]
    ensures p.0.Some? <==> 0 < size && (size <= |s.buffered| || (s.eof && 0 < |s.buffered|))
    ensures p.0.Some? ==> p.0.value + p.1.buffered == s.buffered
    ensures p.0.Some? ==> |p.0.value| == Min(size, |s.buffered|)
    ensures p.0.None? ==> p.1.buffered == s.buffered
  {
    var s' := s.(requested := s.requested + [size]);
    if 0 < size <= |s.buffered| then
      assert s.buffered == s.buffered[..size] + s.buffered[size..];
      (Some(s.buffered[..size]), s'.(buffered := s.buffered[size..]))
    else if 0 < size && s.eof && 0 < |s.buffered| then
      (Some(s.buffered), s'.(buffered := []))
    else
      (None, s')
  }

  /** A producer that pushes chunks and then EOF, with no error, close or abort
      in between. */
  predicate Orderly(s: NodeStream)
  {
    && (forall i :: 0 <= i < |s.events| - 1 ==> s.events[i].Arrive?)
    && (s.eof ==> |s.events| == 0)
    && (!s.eof ==> 0 < |s.events| && s.events[|s.events| - 1] == PushEnd)
  }
}
