/** src/index.ts: the first StreamReader over a Node.js Readable. Peeked
    slices sit at the FRONT of an array, `read` recurses slice by slice, and
    an End-Of-Stream failure inside the recursion becomes a partial read. One
    postponed request waits for 'readable' or 'end'. */
module LegacyStreamReader {
  import opened Bytes
  import opened Outcomes
  import NS = NodeSource

  /** The reader: the length of the postponed request (the caller's buffer
      and offset travel with the bytes returned), the end flag, the peeked
      slices front first, and the source. */
  datatype Legacy = Legacy(request: Option<nat>, endOfStream: bool, peekQueue: seq<Bytes>, stream: NS.NodeStream)

  /** What `_read` can still obtain: nothing once 'end' was seen. */
  function SourceContent(l: Legacy): Bytes
  {
    if l.endOfStream then [] else NS.Content(l.stream)
  }

  /** Everything later reads can return, peeked slices first. */
  function Content(l: Legacy): Bytes
  {
    Queued(l.peekQueue) + SourceContent(l)
  }

  /** Lines 47-50: refuse a source without `read` or `once`; otherwise no
      request, no end, nothing peeked. */
  function Construct(hasRead: bool, hasOnce: bool, s: NS.NodeStream): (o: Outcome<Option<Legacy>>)
    ensures o.Failed? <==> !(hasRead && hasOnce)
    ensures o.Failed? ==> o.error == InvalidSource && o.next.None?
    ensures o.Delivered? ==> o.next.Some? && o.bytes == []
    ensures o.Delivered? ==> var l := o.next.value;
      l.request.None? && l.stream == s && Content(l) == NS.Content(s)
  {
    if !hasRead || !hasOnce then Failed(InvalidSource, None)
    else Delivered([], Some(Legacy(None, false, [], s)))
  }

  /** Lines 51-57, the 'end' listener: set the end flag; a pending request is
      rejected with End-Of-Stream and the slot cleared. */
  function OnEnd(l: Legacy): (l': Legacy)
    ensures l'.endOfStream && l'.request.None? && SourceContent(l') == []
    ensures l'.peekQueue == l.peekQueue && l'.stream == l.stream
  {
    l.(endOfStream := true, request := None)
  }

  /** The state in which a request starts waiting: a drain of its length
      failed, so after EOF nothing is buffered. */
  predicate Primed(l: Legacy)
  {
    l.request.Some? && 0 < l.request.value && !l.endOfStream && (l.stream.eof ==> |l.stream.buffered| == 0)
  }

  /** The waiting request, stepped through the event script. 'end' fires
      once EOF is pushed and the buffer is empty; a chunk or EOF fires
      'readable'. No 'error' or 'close' listener exists and there is no
      `abort()`: after such an event the request is never settled. */
  function Await(l: Legacy): (o: Outcome<Legacy>)
    requires Primed(l)
    ensures o.next.peekQueue == l.peekQueue
    ensures o.Delivered? ==> o.next.request.None? && !o.next.endOfStream
    ensures o.Delivered? ==> o.bytes + SourceContent(o.next) == SourceContent(l)
    ensures o.Delivered? ==> |o.bytes| == Min(l.request.value, |SourceContent(l)|) && 0 < |o.bytes|
    ensures o.Failed? ==> o.error == EndOfStream && SourceContent(l) == []
    ensures o.Failed? ==> o.next.endOfStream && o.next.request.None?
    ensures o.Suspended? ==> o.next.request == l.request && !o.next.endOfStream
    decreases |l.stream.events|
  {
    var s := l.stream;
    if s.eof && |s.buffered| == 0 then
      Failed(EndOfStream, OnEnd(l))
    else if |s.events| == 0 then
      Suspended(l)
    else
      var s1 := s.(events := s.events[1..]);
      match s.events[0]
      case Arrive(data) =>
        Assoc(s.buffered, data, NS.Arrivals(s1.events));
        TryRead(l, l.(stream := s1.(buffered := s.buffered + data)))
      case PushEnd =>
        TryRead(l, l.(stream := s1.(eof := true)))
      case Failure(_) => Suspended(l.(stream := s1))
      case Closed => Suspended(l.(stream := s1))
      case CallerAbort => Suspended(l.(stream := s1))
  }

  /** Lines 149-159, `tryRead` in state `l1`, one event after `l`: drain the
      request's length; on data resolve (the slot is cleared by the
      settlement handler of lines 139-145), otherwise wait again. */
  function TryRead(l: Legacy, l1: Legacy): (o: Outcome<Legacy>)
    requires Primed(l) && l1.request == l.request && l1.peekQueue == l.peekQueue && !l1.endOfStream
    requires |l1.stream.events| < |l.stream.events|
    requires SourceContent(l1) == SourceContent(l)
    ensures o.next.peekQueue == l.peekQueue
    ensures o.Delivered? ==> o.next.request.None? && !o.next.endOfStream
    ensures o.Delivered? ==> o.bytes + SourceContent(o.next) == SourceContent(l)
    ensures o.Delivered? ==> |o.bytes| == Min(l.request.value, |SourceContent(l)|) && 0 < |o.bytes|
    ensures o.Failed? ==> o.error == EndOfStream && SourceContent(l) == []
    ensures o.Failed? ==> o.next.endOfStream && o.next.request.None?
    ensures o.Suspended? ==> o.next.request == l.request && !o.next.endOfStream
    decreases |l.stream.events|, 0
  {
    var (got, s2) := NS.Drain(l1.stream, l1.request.value);
    if got.Some? then
      Delivered(got.value, l1.(request := None, stream := s2))
    else
      Await(l1.(stream := s2))
  }

  /** Lines 116-147, `_read`: a second request while one waits trips the
      assertion; after 'end' the read is rejected; otherwise the drained
      bytes are returned at once, or the request waits. */
  function ReadSource(l: Legacy, length: nat): (o: Outcome<Legacy>)
    requires 0 < length
    ensures l.request.Some? ==> o == Failed(ConcurrentRead, l)
    ensures l.request.None? ==> o.next.peekQueue == l.peekQueue && (l.endOfStream ==> o.next.endOfStream)
    ensures o.Delivered? ==> |o.bytes| <= length
    ensures l.request.None? && o.Delivered? ==> o.next.request.None?
    ensures l.request.None? && o.Delivered? ==> o.bytes + SourceContent(o.next) == SourceContent(l)
    ensures l.request.None? && o.Delivered? ==> |o.bytes| == Min(length, |SourceContent(l)|) && 0 < |o.bytes|
    ensures l.request.None? && o.Failed? ==> o.error == EndOfStream && SourceContent(l) == []
    ensures l.request.None? && o.Failed? ==> o.next.endOfStream && o.next.request.None?
    ensures o.Suspended? ==> o.next.request == Some(length)
  {
    if l.request.Some? then
      Failed(ConcurrentRead, l)
    else if l.endOfStream then
      Failed(EndOfStream, l)
    else
      var (got, s) := NS.Drain(l.stream, length);
      if got.Some? then
        Delivered(got.value, l.(stream := s))
      else
        Await(l.(request := Some(length), stream := s))
  }

  /** What a `read` of `length` bytes promises: with no request pending,
      the front `min(length, all)` of everything left, or End-Of-Stream when
      nothing is left; a second request fails as concurrent; a request that
      waits stays in the slot. */
  predicate ReadPromise(l: Legacy, length: nat, o: Outcome<Legacy>)
  {
    && (l.endOfStream ==> o.next.endOfStream)
    && (o.Delivered? ==> |o.bytes| <= length)
    && (l.request.None? && o.Delivered? ==> o.next.request.None?)
    && (l.request.None? && o.Delivered? ==> o.bytes + Content(o.next) == Content(l))
    && (l.request.None? && o.Delivered? ==> |o.bytes| == Min(length, |Content(l)|))
    && (l.request.None? && o.Failed? ==> o.error == EndOfStream && 0 < length && Content(l) == [])
    && (l.request.None? && o.Failed? ==> Content(o.next) == [] && o.next.request.None?)
    && (o.Failed? && o.error == ConcurrentRead ==> l.request.Some?)
    && (o.Suspended? ==> o.next.request.Some?)
  }

  /** Lines 87-92: a head slice that covers the request serves it; its tail,
      if any, goes back to the front. */
  function ServeHead(l: Legacy, length: nat): (o: Outcome<Legacy>)
    requires 0 < |l.peekQueue| && 0 < length <= |l.peekQueue[0]|
    ensures o.Delivered? && ReadPromise(l, length, o)
    ensures o.bytes == l.peekQueue[0][..length]
    ensures o.next.stream == l.stream && o.next.request == l.request && o.next.endOfStream == l.endOfStream
  {
    var head, rest := l.peekQueue[0], l.peekQueue[1..];
    assert l.peekQueue == [head] + rest;
    QueuedCons(head, rest);
    Assoc(head, Queued(rest), SourceContent(l));
    assert head == head[..length] + head[length..];
    if length < |head| then
      var l1 := l.(peekQueue := [head[length..]] + rest);
      QueuedCons(head[length..], rest);
      Assoc(head[length..], Queued(rest), SourceContent(l));
      Assoc(head[..length], head[length..], Queued(rest) + SourceContent(l));
      Delivered(head[..length], l1)
    else
      Delivered(head, l.(peekQueue := rest))
  }

  /** Lines 94-105: the head slice in front of the recursive read's outcome;
      End-Of-Stream there becomes a read of the head alone. */
  function Prepend(head: Bytes, o: Outcome<Legacy>): Outcome<Legacy>
  {
    match o
    case Delivered(b, l1) => Delivered(head + b, l1)
    case Failed(e, l1) => if e == EndOfStream then Delivered(head, l1) else Failed(e, l1)
    case Suspended(l1) => Suspended(l1)
  }

  lemma PrependPromise(l: Legacy, length: nat, o: Outcome<Legacy>)
    requires 0 < |l.peekQueue| && |l.peekQueue[0]| < length
    requires ReadPromise(l.(peekQueue := l.peekQueue[1..]), length - |l.peekQueue[0]|, o)
    ensures ReadPromise(l, length, Prepend(l.peekQueue[0], o))
  {
    var head, rest := l.peekQueue[0], l.peekQueue[1..];
    var inner := l.(peekQueue := rest);
    assert l.peekQueue == [head] + rest;
    QueuedCons(head, rest);
    assert Content(l) == head + Content(inner) by {
      Assoc(head, Queued(rest), SourceContent(l));
    }
    if o.Delivered? {
      Assoc(head, o.bytes, Content(o.next));
    }
  }

  /** With nothing peeked, `_read`'s outcome is the read's. */
  lemma SourcePromise(l: Legacy, length: nat)
    requires |l.peekQueue| == 0 && 0 < length
    ensures ReadPromise(l, length, ReadSource(l, length))
  {
    hide ReadSource;
    var o := ReadSource(l, length);
    assert Content(l) == SourceContent(l);
    if l.request.None? {
      assert Content(o.next) == SourceContent(o.next);
    }
  }

  /** Lines 82-107, `read`: zero bytes at once; a head slice that covers the
      request serves it alone; a shorter head is copied and the rest read
      recursively, an End-Of-Stream there giving a partial read. */
  function Read(l: Legacy, length: nat): (o: Outcome<Legacy>)
    ensures length == 0 ==> o == Delivered([], l)
    ensures ReadPromise(l, length, o)
    ensures 0 < |l.peekQueue| && 0 < length <= |l.peekQueue[0]| ==> o == ServeHead(l, length)
    decreases |l.peekQueue|
  {
    if length == 0 then
      Delivered([], l)
    else if |l.peekQueue| > 0 then
      var head := l.peekQueue[0];
      if length <= |head| then
        ServeHead(l, length)
      else
        var o := Read(l.(peekQueue := l.peekQueue[1..]), length - |head|);
        PrependPromise(l, length, o);
        Prepend(head, o)
    else
      SourcePromise(l, length);
      ReadSource(l, length)
  }

  /** A producer that pushes chunks and then EOF settles every waiting
      request, with bytes or with End-Of-Stream. */
  lemma {:induction false} OrderlyAwaitSettles(l: Legacy)
    requires Primed(l) && NS.Orderly(l.stream)
    ensures !Await(l).Suspended?
    decreases |l.stream.events|
  {
    var s := l.stream;
    if !(s.eof && |s.buffered| == 0) {
      assert !s.eof && 0 < |s.events|;
      var s1 := s.(events := s.events[1..]);
      match s.events[0]
      case Arrive(data) =>
        assert 1 < |s.events|;
        var l1 := l.(stream := s1.(buffered := s.buffered + data));
        var (got, s2) := NS.Drain(l1.stream, l1.request.value);
        if got.None? {
          assert NS.Orderly(s2);
          OrderlyAwaitSettles(l1.(stream := s2));
        }
      case PushEnd =>
        var l1 := l.(stream := s1.(eof := true));
        var (got, s2) := NS.Drain(l1.stream, l1.request.value);
        if got.None? {
          var l2 := l1.(stream := s2);
          assert s2.eof && |s2.buffered| == 0;
          assert Await(l2) == Failed(EndOfStream, OnEnd(l2));
        }
      case Failure(_) =>
        assert false;
      case Closed =>
        assert false;
      case CallerAbort =>
        assert false;
    }
  }

  /** Over such a producer a read with no request pending always settles:
      bytes whenever any are left, End-Of-Stream when nothing is left and
      nothing is peeked. A peeked empty slice turns that failure into a read
      of 0 bytes. */
  lemma {:induction false} OrderlyReadSettles(l: Legacy, length: nat)
    requires l.request.None? && NS.Orderly(l.stream) && 0 < length
    ensures !Read(l, length).Suspended?
    ensures Content(l) != [] ==> Read(l, length).Delivered? && 0 < |Read(l, length).bytes|
    ensures l.peekQueue == [] && Content(l) == [] ==> Read(l, length) == Failed(EndOfStream, Read(l, length).next)
    decreases |l.peekQueue|
  {
    hide Await;
    hide TryRead;
    if |l.peekQueue| > 0 {
      var head, rest := l.peekQueue[0], l.peekQueue[1..];
      if length > |head| {
        OrderlyReadSettles(l.(peekQueue := rest), length - |head|);
      }
    } else if !l.endOfStream {
      var (got, s) := NS.Drain(l.stream, length);
      if got.None? {
        OrderlyAwaitSettles(l.(request := Some(length), stream := s));
      }
    }
  }

  /** Lines 68-73, `peek` as written: read into the caller's buffer, then put
      `buffer.slice(offset, bytesRead)` back at the front. */
  function PeekAsWritten(l: Legacy, buf: Bytes, offset: nat, length: nat): Outcome<Legacy>
    requires offset + length <= |buf|
  {
    match Read(l, length)
    case Delivered(b, l1) =>
      Delivered(b, l1.(peekQueue := [JsSlice(Write(buf, offset, b), offset, |b|)] + l1.peekQueue))
    case Failed(e, l1) => Failed(e, l1)
    case Suspended(l1) => Suspended(l1)
  }

  /** The slice `peek` puts back as written: past offset 0 it is not the
      bytes read; it starts at the right place but ends `offset` bytes early,
      and is empty once the offset reaches the count read. */
  lemma PeekAsWrittenKeeps(l: Legacy, buf: Bytes, offset: nat, length: nat)
    requires offset + length <= |buf|
    ensures var o := PeekAsWritten(l, buf, offset, length);
      && (!o.Delivered? ==> o == Read(l, length))
      && (o.Delivered? ==> Read(l, length).Delivered? && o.bytes == Read(l, length).bytes)
      && (o.Delivered? ==> |o.next.peekQueue| > 0 && o.next.peekQueue[1..] == Read(l, length).next.peekQueue)
      && (o.Delivered? ==> o.next.peekQueue[0] == if offset < |o.bytes| then o.bytes[..|o.bytes| - offset] else [])
  {
    hide Read;
    var r := Read(l, length);
    if r.Delivered? {
      var b := r.bytes;
      var buf' := Write(buf, offset, b);
      var kept := JsSlice(buf', offset, |b|);
      assert offset < |b| ==> kept == buf'[offset..offset + |b|][..|b| - offset];
    }
  }

  /** `peek` as evidently intended: put back
      `buffer.slice(offset, offset + bytesRead)`, the bytes just read, so
      nothing is consumed. */
  function Peek(l: Legacy, buf: Bytes, offset: nat, length: nat): (o: Outcome<Legacy>)
    requires offset + length <= |buf|
    ensures !o.Delivered? ==> o == Read(l, length)
    ensures o.Delivered? ==> Read(l, length).Delivered? && o.bytes == Read(l, length).bytes
    ensures o.Delivered? ==> o.next.peekQueue == [o.bytes] + Read(l, length).next.peekQueue
    ensures o.Delivered? && l.request.None? ==> Content(o.next) == Content(l) && o.bytes == Content(l)[..|o.bytes|]
  {
    match Read(l, length)
    case Delivered(b, l1) =>
      var buf' := Write(buf, offset, b);
      var kept := JsSlice(buf', offset, offset + |b|);
      assert kept == b;
      var l2 := l1.(peekQueue := [kept] + l1.peekQueue);
      QueuedCons(b, l1.peekQueue);
      Assoc(b, Queued(l1.peekQueue), SourceContent(l1));
      assert l.request.None? ==> Content(l)[..|b|] == b;
      Delivered(b, l2)
    case Failed(e, l1) => Failed(e, l1)
    case Suspended(l1) => Suspended(l1)
  }

  /** At offset 0 the slice as written is the right one. */
  lemma AsWrittenAgreesAtOffsetZero(l: Legacy, buf: Bytes, length: nat)
    requires length <= |buf|
    ensures PeekAsWritten(l, buf, 0, length) == Peek(l, buf, 0, length)
  {
    PeekAsWrittenKeeps(l, buf, 0, length);
  }

  /** With the intended slice, a `read` of at most the peeked count returns
      the peeked bytes from the front slice, without touching the source,
      whatever the offset of the peek. */
  lemma PeekThenRead(l: Legacy, buf: Bytes, offset: nat, k: nat, m: nat)
    requires offset + k <= |buf| && l.request.None?
    requires Peek(l, buf, offset, k).Delivered? && 0 < m <= |Peek(l, buf, offset, k).bytes|
    ensures var p := Peek(l, buf, offset, k);
      && Read(p.next, m).Delivered?
      && Read(p.next, m).bytes == p.bytes[..m]
      && Read(p.next, m).next.stream == p.next.stream
  {
    var p := Peek(l, buf, offset, k);
    assert p.next.peekQueue[0] == p.bytes;
  }

  /** src/index.ts:70 as written: peek 2 bytes into a 4-byte buffer at
      offset 2 over a source holding 7, 8, 9. The slice put back is empty, so
      the next 1-byte read returns 9 instead of the peeked 7; the intended
      peek gives 7. */
  lemma AsWrittenPeekLosesBytes()
    ensures var l := Legacy(None, false, [], NS.NodeStream([7, 8, 9], false, [NS.PushEnd], []));
      && PeekAsWritten(l, [0, 0, 0, 0], 2, 2).Delivered?
      && PeekAsWritten(l, [0, 0, 0, 0], 2, 2).bytes == [7, 8]
      && Read(PeekAsWritten(l, [0, 0, 0, 0], 2, 2).next, 1) == Delivered([9], AfterNine())
      && Read(Peek(l, [0, 0, 0, 0], 2, 2).next, 1).Delivered?
      && Read(Peek(l, [0, 0, 0, 0], 2, 2).next, 1).bytes == [7]
  {
    var l := Legacy(None, false, [], NS.NodeStream([7, 8, 9], false, [NS.PushEnd], []));
    var bs: Bytes := [7, 8, 9];
    var seven: Bytes := [7, 8];
    assert bs[..2] == seven && bs[2..] == [9];
    assert NS.Drain(l.stream, 2).0 == Some(seven);
    assert NS.Drain(l.stream, 2).1 == NS.NodeStream([9], false, [NS.PushEnd], [2]);
    var r := Read(l, 2);
    assert r == Delivered([7, 8], l.(stream := NS.NodeStream([9], false, [NS.PushEnd], [2])));
    var p := PeekAsWritten(l, [0, 0, 0, 0], 2, 2);
    assert p.next.peekQueue == [[]];
    var q := p.next;
    assert Read(q, 1) == Read(q.(peekQueue := []), 1);
    var nine: Bytes := [9];
    assert nine[..1] == [9] && nine[1..] == [];
    assert NS.Drain(q.stream, 1).0 == Some(nine);
    assert NS.Drain(q.stream, 1).1 == AfterNine().stream;
    assert Read(q.(peekQueue := []), 1) == Delivered([9], AfterNine());
  }

  /** The state of the example above once 9 has been read. */
  function AfterNine(): Legacy
  {
    Legacy(None, false, [], NS.NodeStream([], false, [NS.PushEnd], [2, 1]))
  }
}
