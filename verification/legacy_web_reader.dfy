/** lib/WebStreamReader.ts: the standalone BYOB web-stream reader that came
    before the shared engine. Its peeked slices form a FIFO queue, and a read
    with anything queued is served from the queue alone. */
module LegacyWebReader {
  import opened Bytes
  import opened Outcomes
  import opened WebSources

  /** The peeked slices, front first, and the BYOB handle. */
  datatype WebReader = WebReader(peekQueue: seq<Bytes>, source: ByteSource)

  /** Everything later reads can return, queued slices first. */
  function Content(w: WebReader): Bytes
  {
    Queued(w.peekQueue) + ByteContent(w.source)
  }

  /** Lines 16-18: acquire a BYOB handle on a stream holding `chunks`. */
  function Construct(chunks: seq<Bytes>): (w: WebReader)
    ensures w.peekQueue == [] && w.source.requested == [] && !w.source.cancelled
    ensures Content(w) == Queued(chunks)
  {
    WebReader([], ByteSource(chunks, false, []))
  }

  /** Lines 33-41 stated recursively: shift the front slice, take
      `min(slice length, still wanted)` of it, put an unconsumed tail back at
      the front, and go on while bytes are wanted and slices remain. */
  function TakeFromQueue(q: seq<Bytes>, length: nat): (r: (Bytes, seq<Bytes>))
    ensures r.0 + Queued(r.1) == Queued(q)
    ensures |r.0| == Min(length, |Queued(q)|)
    decreases |q|
  {
    if |q| == 0 || length == 0 then ([], q)
    else
      var head, rest := q[0], q[1..];
      assert q == [head] + rest;
      QueuedCons(head, rest);
      var n := Min(|head|, length);
      if n < |head| then
        QueuedCons(head[n..], rest);
        assert head == head[..n] + head[n..];
        (head[..n], [head[n..]] + rest)
      else
        var more := TakeFromQueue(rest, length - n);
        assert head[..n] == head;
        (head + more.0, more.1)
  }

  /** One step of `TakeFromQueue` on a non-empty queue. */
  lemma TakeStep(q: seq<Bytes>, n: nat)
    requires 0 < |q| && 0 < n
    ensures var k := Min(|q[0]|, n);
      && (k < |q[0]| ==> TakeFromQueue(q, n) == (q[0][..k], [q[0][k..]] + q[1..]))
      && (k == |q[0]| ==> TakeFromQueue(q, n) == (q[0] + TakeFromQueue(q[1..], n - k).0, TakeFromQueue(q[1..], n - k).1))
  {
    assert q[0][..|q[0]|] == q[0];
  }

  /** The loop state (`bytesRead`, `peekQueue`) is on the way to
      `TakeFromQueue(queue, length)`: what is still to take, taken from what
      is still queued, completes it. */
  predicate OnTheWay(queue: seq<Bytes>, length: nat, bytesRead: Bytes, peekQueue: seq<Bytes>)
  {
    |bytesRead| <= length
    && var t := TakeFromQueue(peekQueue, length - |bytesRead|);
      bytesRead + t.0 == TakeFromQueue(queue, length).0 && t.1 == TakeFromQueue(queue, length).1
  }

  /** One pass of the loop body keeps the loop state on the way. */
  lemma DrainStep(queue: seq<Bytes>, length: nat, bytesRead: Bytes, peekQueue: seq<Bytes>)
    requires OnTheWay(queue, length, bytesRead, peekQueue)
    requires 0 < |peekQueue| && |bytesRead| < length
    ensures var peeked := peekQueue[0];
      var toCopy := Min(|peeked|, length - |bytesRead|);
      OnTheWay(queue, length, bytesRead + peeked[..toCopy],
        if toCopy < |peeked| then [peeked[toCopy..]] + peekQueue[1..] else peekQueue[1..])
  {
    var peeked := peekQueue[0];
    var toCopy := Min(|peeked|, length - |bytesRead|);
    TakeStep(peekQueue, length - |bytesRead|);
    var bytesRead' := bytesRead + peeked[..toCopy];
    if toCopy < |peeked| {
      var q' := [peeked[toCopy..]] + peekQueue[1..];
      assert TakeFromQueue(q', length - |bytesRead'|) == ([], q');
      assert bytesRead' + [] == bytesRead';
    } else {
      assert peeked[..toCopy] == peeked;
      var more := TakeFromQueue(peekQueue[1..], length - |bytesRead| - toCopy);
      assert bytesRead' + more.0 == bytesRead + (peeked + more.0);
    }
  }

  /** The loop of lines 32-42 as written. */
  method DrainQueue(queue: seq<Bytes>, length: nat) returns (bytesRead: Bytes, peekQueue: seq<Bytes>)
    ensures bytesRead + Queued(peekQueue) == Queued(queue)
    ensures |bytesRead| == Min(length, |Queued(queue)|)
    ensures bytesRead == TakeFromQueue(queue, length).0 && peekQueue == TakeFromQueue(queue, length).1
  {
    peekQueue := queue;
    bytesRead := [];
    assert [] + TakeFromQueue(queue, length).0 == TakeFromQueue(queue, length).0;
    while |peekQueue| > 0 && |bytesRead| < length
      invariant OnTheWay(queue, length, bytesRead, peekQueue)
      decreases length - |bytesRead|, |peekQueue|
    {
      var peeked := peekQueue[0];
      var toCopy := Min(|peeked|, length - |bytesRead|);
      DrainStep(queue, length, bytesRead, peekQueue);
      bytesRead := bytesRead + peeked[..toCopy];
      if toCopy < |peeked| {
        peekQueue := [peeked[toCopy..]] + peekQueue[1..];
      } else {
        peekQueue := peekQueue[1..];
      }
    }
    assert TakeFromQueue(peekQueue, length - |bytesRead|) == ([], peekQueue);
    assert bytesRead + [] == bytesRead;
  }

  /** Lines 26-57, `read`: zero bytes at once; with anything queued, only the
      queue serves, `min(length, queued bytes)` of them; otherwise one BYOB
      read with a view of `length` bytes, `done` throwing EndOfStreamError.
      The bytes returned are always the front of what the reader holds. */
  function Read(w: WebReader, length: nat): (o: Outcome<WebReader>)
    ensures length == 0 ==> o == Delivered([], w)
    ensures o.Delivered? || o.Failed?
    ensures o.Delivered? ==> o.bytes + Content(o.next) == Content(w) && |o.bytes| <= length
    ensures 0 < length && 0 < |w.peekQueue| ==>
      o.Delivered? && o.next.source == w.source && |o.bytes| == Min(length, |Queued(w.peekQueue)|)
    ensures 0 < length && |w.peekQueue| == 0 ==> o.next.peekQueue == [] && o.next.source.requested == w.source.requested + [length]
    ensures o.Failed? ==> o.error == EndOfStream && 0 < length && |w.peekQueue| == 0 && ByteContent(w.source) == []
    ensures WellFormed(w.source) && 0 < length && |w.peekQueue| == 0 && ByteContent(w.source) == [] ==> o.Failed?
    ensures WellFormed(w.source) ==> WellFormed(o.next.source)
  {
    if length == 0 then
      Delivered([], w)
    else if |w.peekQueue| > 0 then
      var (bytesRead, q) := TakeFromQueue(w.peekQueue, length);
      Assoc(bytesRead, Queued(q), ByteContent(w.source));
      Delivered(bytesRead, w.(peekQueue := q))
    else
      var (result, s) := Fill(w.source, length);
      if result.done then
        Failed(EndOfStream, w.(source := s))
      else if result.value.Some? then
        Delivered(result.value.value, w.(source := s))
      else
        Delivered([], w.(source := s))
  }

  /** Lines 20-24, `peek` as written: the bytes read are appended at the END
      of the queue, behind whatever the read left queued. */
  function PeekAsWritten(w: WebReader, length: nat): (o: Outcome<WebReader>)
    ensures !o.Delivered? ==> o == Read(w, length)
    ensures o.Delivered? ==> Read(w, length).Delivered? && o.bytes == Read(w, length).bytes
    ensures o.Delivered? ==> o.next.peekQueue == Read(w, length).next.peekQueue + [o.bytes]
    ensures o.Delivered? && Read(w, length).next.peekQueue == [] ==> Content(o.next) == Content(w)
  {
    match Read(w, length)
    case Delivered(b, w1) =>
      QueuedAppend(w1.peekQueue, b);
      assert w1.peekQueue == [] ==> w1.peekQueue + [b] == [b] + [];
      QueuedCons(b, []);
      Delivered(b, w1.(peekQueue := w1.peekQueue + [b]))
    case Failed(e, w1) => Failed(e, w1)
    case Suspended(w1) => Suspended(w1)
  }

  /** `peek` as evidently intended: the bytes read go back at the FRONT, so
      nothing is consumed whatever was queued. */
  function Peek(w: WebReader, length: nat): (o: Outcome<WebReader>)
    ensures !o.Delivered? ==> o == Read(w, length)
    ensures o.Delivered? ==> Read(w, length).Delivered? && o.bytes == Read(w, length).bytes
    ensures o.Delivered? ==> o.next.peekQueue == [o.bytes] + Read(w, length).next.peekQueue
    ensures o.Delivered? ==> Content(o.next) == Content(w) && o.bytes == Content(w)[..|o.bytes|]
  {
    match Read(w, length)
    case Delivered(b, w1) =>
      QueuedCons(b, w1.peekQueue);
      Assoc(b, Queued(w1.peekQueue), ByteContent(w1.source));
      Delivered(b, w1.(peekQueue := [b] + w1.peekQueue))
    case Failed(e, w1) => Failed(e, w1)
    case Suspended(w1) => Suspended(w1)
  }

  /** With the intended peek, a later `read` of at most the peeked count
      returns the front of the peeked bytes without calling the source. */
  lemma PeekThenRead(w: WebReader, k: nat, m: nat)
    requires Peek(w, k).Delivered? && 0 < m <= |Peek(w, k).bytes|
    ensures var p := Peek(w, k);
      && Read(p.next, m).Delivered?
      && Read(p.next, m).bytes == p.bytes[..m]
      && Read(p.next, m).next.source == p.next.source
  {
    var p := Peek(w, k);
    var t := TakeFromQueue(p.next.peekQueue, m);
    QueuedCons(p.bytes, p.next.peekQueue[1..]);
    assert p.next.peekQueue == [p.bytes] + p.next.peekQueue[1..];
    assert Queued(p.next.peekQueue)[..m] == p.bytes[..m];
    assert t.0 == Queued(p.next.peekQueue)[..m];
  }

  /** Overlapping peeks agree under the intended peek. */
  lemma RepeekSeesSamePrefix(w: WebReader, k: nat, m: nat)
    requires Peek(w, k).Delivered? && 0 < m <= |Peek(w, k).bytes|
    ensures Peek(Peek(w, k).next, m).Delivered?
    ensures Peek(Peek(w, k).next, m).bytes == Peek(w, k).bytes[..m]
  {
    PeekThenRead(w, k, m);
  }

  /** Even as written, one peek from an empty queue followed by a read of
      at most the peeked count returns the same front bytes. */
  lemma AsWrittenSinglePeekThenRead(w: WebReader, k: nat, m: nat)
    requires w.peekQueue == [] && PeekAsWritten(w, k).Delivered? && 0 < m <= |PeekAsWritten(w, k).bytes|
    ensures var p := PeekAsWritten(w, k);
      Read(p.next, m).Delivered? && Read(p.next, m).bytes == p.bytes[..m]
  {
    var p := PeekAsWritten(w, k);
    assert p.next.peekQueue == [p.bytes];
    var t := TakeFromQueue([p.bytes], m);
    QueuedCons(p.bytes, []);
    assert Queued([p.bytes])[..m] == p.bytes[..m];
  }

  /** lib/WebStreamReader.ts:22 as written: over a stream holding 1, 2, 3, 4,
      peek 3 bytes, then peek 1, then read 1. The second peek takes the front
      byte and re-queues it BEHIND the tail 2, 3, so the read returns 2 where
      both peeks promised 1; the intended peek returns 1. */
  lemma AsWrittenRepeekReordersBytes()
    ensures var w := Construct([[1, 2, 3, 4]]);
      && PeekAsWritten(w, 3).Delivered?
      && PeekAsWritten(PeekAsWritten(w, 3).next, 1).Delivered?
      && PeekAsWritten(PeekAsWritten(w, 3).next, 1).bytes == [1]
      && Read(PeekAsWritten(PeekAsWritten(w, 3).next, 1).next, 1).Delivered?
      && Read(PeekAsWritten(PeekAsWritten(w, 3).next, 1).next, 1).bytes == [2]
      && Read(Peek(Peek(w, 3).next, 1).next, 1).Delivered?
      && Read(Peek(Peek(w, 3).next, 1).next, 1).bytes == [1]
  {
    var w := Construct([[1, 2, 3, 4]]);
    var c: Bytes := [1, 2, 3, 4];
    var one: Bytes := [1];
    var three: Bytes := [1, 2, 3];
    var tail: Bytes := [2, 3];
    assert c[..3] == three && c[3..] == [4];
    assert three[..1] == one && three[1..] == tail;
    assert tail[..1] == [2];
    var p1 := PeekAsWritten(w, 3);
    assert p1.bytes == three && p1.next.peekQueue == [three];
    var p2 := PeekAsWritten(p1.next, 1);
    assert [three][0] == three && [three][1..] == [];
    assert TakeFromQueue([three], 1) == (one, [tail] + []);
    assert p2.bytes == one && p2.next.peekQueue == [tail, one];
    assert [tail, one][0] == tail;
    assert TakeFromQueue([tail, one], 1).0 == [2];
    var q1 := Peek(w, 3);
    assert q1.next.peekQueue == [three];
    var q2 := Peek(q1.next, 1);
    assert q2.next.peekQueue == [one, tail];
    assert [one, tail][0] == one && [one, tail][1..] == [tail];
    assert TakeFromQueue([one, tail], 1).0 == one;
  }
}
