/** lib/AbstractStreamReader.ts: `read` and `peek` over the peek stack and
    the chunked "pull until satisfied, end-of-stream or interrupted" loop,
    with the abstract `readFromStream` dispatched to the reader's adapter. */
module Engine {
  import opened Bytes
  import opened Outcomes
  import opened ReaderState
  import opened PeekStack
  import OwnedChunkAdapter
  import BorrowedBufferAdapter
  import PushAdapter

  /** The abstract `readFromStream` (line 116). Every pull asks for `length`
      bytes only, returns at most that many, taken from the front of what the
      adapter can still deliver, and returns none only at end-of-stream. */
  function Pull(r: Reader, length: nat): (o: Outcome<Reader>)
    requires Valid(r)
    ensures o.next.peekQueue == r.peekQueue && FlagsGrow(r, o.next) && SameKind(r, o.next)
    ensures LoggedOnly(RequestLog(r), RequestLog(o.next), length)
    ensures !o.Suspended? ==> Valid(o.next)
    ensures o.Delivered? ==> o.next.interrupted == r.interrupted && |o.bytes| <= length
    ensures o.Delivered? && 0 < length && !r.endOfStream ==> o.bytes + Pending(o.next) == Pending(r)
    ensures o.Delivered? && 0 < length && |o.bytes| == 0 ==> o.next.endOfStream
    ensures o.Failed? && !r.endOfStream ==> o.next.interrupted && (o.error == Abort || o.error.SourceFailure?)
    ensures o.Suspended? ==> PushAdapter.Waiting(o.next)
  {
    match r.adapter
    case OwnedChunk(_, _, _) => OwnedChunkAdapter.ReadFromStream(r, length)
    case Borrowed(_) => BorrowedBufferAdapter.ReadFromStream(r, length)
    case Push(_, _) => PushAdapter.ReadFromStream(r, length)
  }

  /** A pull of `chunk` after `acc`, then a result covering `acc + chunk`:
      the result covers `acc` and accounts for everything before the pull. */
  lemma Extend(acc: Bytes, chunk: Bytes, before: Bytes, mid: Bytes, out: Bytes, after: Bytes)
    requires before == chunk + mid
    requires |acc + chunk| <= |out| && out[..|acc + chunk|] == acc + chunk
    requires out + after == (acc + chunk) + mid
    ensures |acc| <= |out| && out[..|acc|] == acc
    ensures out + after == acc + before
  {
    assert out[..|acc|] == out[..|acc + chunk|][..|acc|];
    Assoc(acc, chunk, mid);
  }

  /** Lines 95-114: while bytes are still wanted and end-of-stream is not
      flagged, fail with AbortError if interrupted, else pull
      `min(remaining, 1 MiB)` bytes; a pull of 0 bytes ends the loop. */
  function ReadRemainderFromStream(r: Reader, acc: Bytes, remaining: nat): (o: Outcome<Reader>)
    requires Valid(r)
    ensures o.next.peekQueue == r.peekQueue && FlagsGrow(r, o.next) && SameKind(r, o.next)
    ensures RequestsBounded(RequestLog(r), RequestLog(o.next))
    ensures !o.Suspended? ==> Valid(o.next)
    ensures o.Delivered? ==> |acc| <= |o.bytes| <= |acc| + remaining && o.bytes[..|acc|] == acc
    ensures o.Delivered? ==> o.bytes + StreamContent(o.next) == acc + StreamContent(r)
    ensures o.Delivered? && |o.bytes| < |acc| + remaining ==> o.next.endOfStream
    ensures o.Failed? ==> o.next.interrupted && (o.error == Abort || o.error.SourceFailure?)
    ensures r.interrupted && 0 < remaining && !r.endOfStream ==> o == Failed(Abort, r)
    ensures o.Suspended? ==> PushAdapter.Waiting(o.next)
    decreases remaining
  {
    hide Pull;
    if remaining > 0 && !r.endOfStream then
      var reqLen := Min(remaining, MaxStreamReadSize);
      if r.interrupted then
        Failed(Abort, r)
      else
        var p := Pull(r, reqLen);
        LoggedOnlyBounded(RequestLog(r), RequestLog(p.next), reqLen);
        match p
        case Delivered(chunk, r1) =>
          assert StreamContent(r) == chunk + StreamContent(r1);
          if |chunk| == 0 then
            Delivered(acc, r1)
          else
            var o := ReadRemainderFromStream(r1, acc + chunk, remaining - |chunk|);
            RequestsBoundedTrans(RequestLog(r), RequestLog(r1), RequestLog(o.next));
            if o.Delivered? then
              Extend(acc, chunk, StreamContent(r), StreamContent(r1), o.bytes, StreamContent(o.next));
              o
            else
              o
        case Failed(e, r1) => Failed(e, r1)
        case Suspended(r1) => Suspended(r1)
    else
      Delivered(acc, r)
  }

  /** Line 100: with nothing wanted, or at end-of-stream, the loop does not
      run and the bytes gathered so far are the result. */
  lemma RemainderDone(r: Reader, acc: Bytes, remaining: nat)
    requires Valid(r) && (remaining == 0 || r.endOfStream)
    ensures ReadRemainderFromStream(r, acc, remaining) == Delivered(acc, r)
  {
  }

  /** One turn of the pull loop (lines 100-111) on a reader that is not
      interrupted: pull, then stop on 0 bytes or go on from where the pull
      left the reader. */
  lemma RemainderStep(r: Reader, acc: Bytes, remaining: nat)
    requires Valid(r) && 0 < remaining && !r.endOfStream && !r.interrupted
    ensures ReadRemainderFromStream(r, acc, remaining) ==
      match Pull(r, Min(remaining, MaxStreamReadSize))
      case Delivered(chunk, r1) =>
        if |chunk| == 0 then Delivered(acc, r1) else ReadRemainderFromStream(r1, acc + chunk, remaining - |chunk|)
      case Failed(e, r1) => Failed(e, r1)
      case Suspended(r1) => Suspended(r1)
  {
    hide Pull;
    hide Content;
    hide StreamContent;
    hide Pending;
    hide AdapterContent;
    hide RequestsBounded;
    hide LoggedOnly;
    hide RequestLog;
  }

  /** Lines 62-64: a total of 0 bytes becomes EndOfStreamError. */
  function ZeroIsEnd(o: Outcome<Reader>): Outcome<Reader>
  {
    if o.Delivered? && |o.bytes| == 0 then Failed(EndOfStream, o.next) else o
  }

  /** What lines 60-65 make of the stack's bytes and the pull loop's
      outcome. */
  lemma ReadOutcome(r: Reader, length: nat, fromStack: Bytes, q: seq<Bytes>, o: Outcome<Reader>)
    requires Valid(r) && 0 < length && (fromStack, q) == TakeFromStack(r.peekQueue, length)
    requires Valid(r.(peekQueue := q))
    requires o == ReadRemainderFromStream(r.(peekQueue := q), fromStack, length - |fromStack|)
    ensures var o' := ZeroIsEnd(o);
      && FlagsGrow(r, o'.next) && SameKind(r, o'.next) && RequestsBounded(RequestLog(r), RequestLog(o'.next))
      && (!o'.Suspended? ==> Valid(o'.next))
      && (o'.Delivered? ==> o'.bytes + Content(o'.next) == Content(r))
      && (o'.Delivered? ==> |o'.bytes| == Min(length, |Content(r)|))
      && (o'.Delivered? ==> 0 < |o'.bytes|)
      && (o'.Failed? && o'.error == EndOfStream ==> Content(r) == [])
      && (o'.Failed? && o'.error != EndOfStream ==> o'.next.interrupted && (o'.error == Abort || o'.error.SourceFailure?))
      && (o'.Suspended? ==> PushAdapter.Waiting(o'.next))
  {
    if o.Delivered? {
      DeliveredContent(r, length, fromStack, q, o);
    }
  }

  /** The bytes the stack gave, then what the loop pulled, are the front of
      what the reader held. */
  lemma DeliveredContent(r: Reader, length: nat, fromStack: Bytes, q: seq<Bytes>, o: Outcome<Reader>)
    requires Valid(r) && 0 < length && (fromStack, q) == TakeFromStack(r.peekQueue, length)
    requires Valid(r.(peekQueue := q))
    requires o == ReadRemainderFromStream(r.(peekQueue := q), fromStack, length - |fromStack|)
    requires o.Delivered?
    ensures o.bytes + Content(o.next) == Content(r)
    ensures |o.bytes| < length ==> Content(o.next) == []
  {
    var r1 := r.(peekQueue := q);
    var sc := StreamContent(r);
    assert StreamContent(r1) == sc;
    assert Content(r) == (fromStack + Stacked(q)) + sc;
    if |fromStack| < length {
      assert Stacked(q) == [];
      assert fromStack + Stacked(q) == fromStack;
      assert Content(o.next) == StreamContent(o.next);
    } else {
      assert o.bytes == fromStack && o.next == r1;
      Assoc(fromStack, Stacked(q), sc);
    }
  }

  /** Lines 55-66, `read`: a zero length returns 0 at once; otherwise the
      stack first, then the source. The bytes returned are the front of
      everything the reader can still give, `min(length, all of it)` of them;
      EndOfStreamError means there was nothing at all. */
  function Read(r: Reader, length: nat): (o: Outcome<Reader>)
    requires Valid(r)
    ensures length == 0 ==> o == Delivered([], r)
    ensures FlagsGrow(r, o.next) && SameKind(r, o.next) && RequestsBounded(RequestLog(r), RequestLog(o.next))
    ensures !o.Suspended? ==> Valid(o.next)
    ensures o.Delivered? ==> o.bytes + Content(o.next) == Content(r)
    ensures o.Delivered? ==> |o.bytes| == Min(length, |Content(r)|)
    ensures o.Delivered? && 0 < length ==> 0 < |o.bytes|
    ensures o.Failed? && o.error == EndOfStream ==> 0 < length && Content(r) == []
    ensures o.Failed? && o.error != EndOfStream ==> o.next.interrupted && (o.error == Abort || o.error.SourceFailure?)
    ensures o.Suspended? ==> PushAdapter.Waiting(o.next)
  {
    if length == 0 then
      Delivered([], r)
    else
      var (fromStack, q) := TakeFromStack(r.peekQueue, length);
      var r1 := r.(peekQueue := q);
      assert Valid(r1);
      var o := ReadRemainderFromStream(r1, fromStack, length - |fromStack|);
      ReadOutcome(r, length, fromStack, q, o);
      ZeroIsEnd(o)
  }

  /** Lines 60-64 for a non-zero length: the stack's bytes, then the pull
      loop for the rest, a total of 0 becoming EndOfStreamError. */
  lemma ReadStep(r: Reader, length: nat)
    requires Valid(r) && 0 < length
    ensures var t := TakeFromStack(r.peekQueue, length);
      && Valid(r.(peekQueue := t.1))
      && Read(r, length) == ZeroIsEnd(ReadRemainderFromStream(r.(peekQueue := t.1), t.0, length - |t.0|))
  {
    hide ReadRemainderFromStream;
    hide Pull;
    hide Content;
    hide StreamContent;
    hide Pending;
    hide AdapterContent;
    hide RequestsBounded;
    hide LoggedOnly;
    hide RequestLog;
  }

  /** Lines 49-53, `peek`: read, then push the bytes read back on top of the
      stack, so nothing is consumed. */
  function Peek(r: Reader, length: nat): (o: Outcome<Reader>)
    requires Valid(r)
    ensures !o.Delivered? ==> o == Read(r, length)
    ensures o.Delivered? ==>
              var o1 := Read(r, length);
              o1.Delivered? && o1.bytes == o.bytes && o.next == o1.next.(peekQueue := o1.next.peekQueue + [o.bytes])
    ensures o.Delivered? ==> Content(o.next) == Content(r) && o.bytes == Content(r)[..|o.bytes|]
    ensures o.Delivered? ==> |o.bytes| == Min(length, |Content(r)|)
    ensures !o.Suspended? ==> Valid(o.next)
  {
    match Read(r, length)
    case Delivered(b, r1) =>
      var r2 := r1.(peekQueue := r1.peekQueue + [b]);
      assert StreamContent(r2) == StreamContent(r1);
      StackedPush(r1.peekQueue, b);
      Assoc(b, Stacked(r1.peekQueue), StreamContent(r1));
      assert Content(r2) == b + Content(r1);
      assert Content(r)[..|b|] == b;
      Delivered(b, r2)
    case Failed(e, r1) => Failed(e, r1)
    case Suspended(r1) => Suspended(r1)
  }
}
