/** What several calls of lib/AbstractStreamReader.ts promise together: peeked
    bytes come back first and in order, an interrupted reader fails fast, and
    over a well-behaved source a read always settles, failing exactly when
    nothing is left. */
module EngineProperties {
  import opened Bytes
  import opened Outcomes
  import opened ReaderState
  import opened PeekStack
  import opened Engine
  import OwnedChunkAdapter
  import PushAdapter
  import NS = NodeSource

  /** A read the stack alone can serve returns the front of the stack and
      leaves the source, its request log and both flags as they were. */
  lemma ReadServedByStack(r: Reader, m: nat)
    requires Valid(r) && 0 < m <= |Stacked(r.peekQueue)|
    ensures Read(r, m).Delivered?
    ensures Read(r, m).bytes == Stacked(r.peekQueue)[..m]
    ensures Stacked(Read(r, m).next.peekQueue) == Stacked(r.peekQueue)[m..]
    ensures Read(r, m).next.adapter == r.adapter
    ensures Read(r, m).next.endOfStream == r.endOfStream && Read(r, m).next.interrupted == r.interrupted
  {
    var t := TakeFromStack(r.peekQueue, m);
    var r1 := r.(peekQueue := t.1);
    assert |t.0| == m;
    assert ReadRemainderFromStream(r1, t.0, 0) == Delivered(t.0, r1);
    assert Stacked(r.peekQueue) == t.0 + Stacked(t.1);
    assert Stacked(r.peekQueue)[..m] == t.0;
  }

  /** Lines 49-53: after `peek` returned `b`, a `read` of at most `|b|` bytes
      returns the front of `b` without reaching the source. */
  lemma PeekThenRead(r: Reader, k: nat, m: nat)
    requires Valid(r) && Peek(r, k).Delivered? && 0 < m <= |Peek(r, k).bytes|
    ensures var p := Peek(r, k);
      && Read(p.next, m).Delivered?
      && Read(p.next, m).bytes == p.bytes[..m]
      && Read(p.next, m).next.adapter == p.next.adapter
  {
    var p := Peek(r, k);
    var o1 := Read(r, k);
    StackedPush(o1.next.peekQueue, p.bytes);
    assert Stacked(p.next.peekQueue)[..m] == p.bytes[..m];
    ReadServedByStack(p.next, m);
  }

  /** Overlapping peeks agree: a second, shorter peek sees the front of what
      the first one saw, and the reader still holds everything it held. */
  lemma RepeekSeesSamePrefix(r: Reader, k: nat, m: nat)
    requires Valid(r) && Peek(r, k).Delivered? && 0 < m <= |Peek(r, k).bytes|
    ensures var p := Peek(r, k);
      && Peek(p.next, m).Delivered?
      && Peek(p.next, m).bytes == p.bytes[..m]
      && Content(Peek(p.next, m).next) == Content(r)
  {
    PeekThenRead(r, k, m);
  }

  /** Lines 103-105: an interrupted reader that needs bytes beyond its stack
      fails with AbortError before any pull; the stacked bytes it copied are
      lost with the failed call, and the reader stays interrupted and short
      of its end. */
  lemma InterruptedReadFails(r: Reader, length: nat)
    requires Valid(r) && r.interrupted && !r.endOfStream && |Stacked(r.peekQueue)| < length
    ensures Read(r, length).Failed? && Read(r, length).error == Abort
    ensures Read(r, length).next.adapter == r.adapter
    ensures Stacked(Read(r, length).next.peekQueue) == []
    ensures Valid(Read(r, length).next)
    ensures Read(r, length).next.interrupted && !Read(r, length).next.endOfStream
  {
    var t := TakeFromStack(r.peekQueue, length);
    assert |t.0| == |Stacked(r.peekQueue)|;
  }

  /** lib/StreamReader.ts:86-96 with the loop above: once `abort()` ran, a
      read that needs the source fails with AbortError, and so does the read
      after it, of any length; the state that one leaves is again interrupted
      with an empty stack, so every later read fails the same way. */
  lemma AbortedPushReaderFails(r: Reader, length: nat)
    requires Valid(r) && r.adapter.Push? && !r.endOfStream && |Stacked(r.peekQueue)| < length
    ensures var o := Read(PushAdapter.Abort(r).0, length);
      && o.Failed? && o.error == Abort
      && (forall m :: 0 < m ==> Read(o.next, m).Failed? && Read(o.next, m).error == Abort)
  {
    var a := PushAdapter.Abort(r).0;
    InterruptedReadFails(a, length);
    var o := Read(a, length);
    forall m | 0 < m
      ensures Read(o.next, m).Failed? && Read(o.next, m).error == Abort
    {
      InterruptedReadFails(o.next, m);
    }
  }

  /** A reader whose reads cannot hang or fail on their own: not interrupted,
      and a push source pushes chunks, then EOF, and nothing else. */
  predicate Live(r: Reader)
  {
    !r.interrupted && (r.adapter.Push? ==> NS.Orderly(r.adapter.stream))
  }

  lemma PullLive(r: Reader, length: nat)
    requires Valid(r) && Live(r) && !r.endOfStream && 0 < length
    ensures Pull(r, length).Delivered? && Live(Pull(r, length).next)
  {
    if r.adapter.Push? {
      PushAdapter.OrderlyPullDelivers(r, length);
    }
  }

  /** Over a live reader the pull loop always completes. */
  lemma {:induction false} RemainderLive(r: Reader, acc: Bytes, remaining: nat)
    requires Valid(r) && Live(r)
    ensures ReadRemainderFromStream(r, acc, remaining).Delivered?
    ensures Live(ReadRemainderFromStream(r, acc, remaining).next)
    decreases remaining
  {
    hide Pull;
    hide ReadRemainderFromStream;
    if remaining > 0 && !r.endOfStream {
      var reqLen := Min(remaining, MaxStreamReadSize);
      PullLive(r, reqLen);
      RemainderStep(r, acc, remaining);
      var p := Pull(r, reqLen);
      if |p.bytes| > 0 {
        RemainderLive(p.next, acc + p.bytes, remaining - |p.bytes|);
      }
    } else {
      RemainderDone(r, acc, remaining);
    }
  }

  /** Lines 60-65 over a live reader: `read` returns bytes, or throws
      EndOfStreamError exactly when the stack and the source are both empty;
      the reader stays live. */
  lemma ReadLive(r: Reader, length: nat)
    requires Valid(r) && Live(r) && 0 < length
    ensures Read(r, length).Delivered? || Read(r, length) == Failed(EndOfStream, Read(r, length).next)
    ensures Read(r, length).Failed? <==> Content(r) == []
    ensures Live(Read(r, length).next)
  {
    hide Pull;
    hide ReadRemainderFromStream;
    hide Read;
    var t := TakeFromStack(r.peekQueue, length);
    ReadStep(r, length);
    RemainderLive(r.(peekQueue := t.1), t.0, length - |t.0|);
  }
}
