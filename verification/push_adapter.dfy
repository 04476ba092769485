/** lib/StreamReader.ts: the low-level pull over a Node.js Readable. A pull
    first tries a non-blocking drain; when that yields nothing, one deferred
    read waits in the reader's slot and is settled by 'readable', 'end',
    'error' or 'close', or by `abort()`. Listener registration and promise
    scheduling are not modelled: the event script is stepped explicitly. */
module PushAdapter {
  import opened Bytes
  import opened Outcomes
  import opened Completion
  import opened ReaderState
  import NS = NodeSource

  /** The source handed to the constructor: a Readable exposes `read` and
      `once`. */
  datatype Candidate = Candidate(hasRead: bool, hasOnce: bool, stream: NS.NodeStream)

  /** Lines 25-38: refuse a source without `read` or `once`; otherwise a
      fresh reader with an empty slot, an empty stack and both flags clear. */
  function Construct(c: Candidate): (o: Outcome<Option<Reader>>)
    ensures o.Failed? <==> !(c.hasRead && c.hasOnce)
    ensures o.Failed? ==> o.error == InvalidSource && o.next.None?
    ensures o.Delivered? ==> o.next.Some? && o.bytes == []
    ensures o.Delivered? ==> var r := o.next.value;
      && r.adapter == Push(None, c.stream) && r.peekQueue == []
      && !r.endOfStream && !r.interrupted && Valid(r)
      && Content(r) == NS.Content(c.stream)
  {
    if !c.hasRead || !c.hasOnce then Failed(InvalidSource, None)
    else Delivered([], Some(Reader(false, false, [], Push(None, c.stream))))
  }

  /** The base fields other than the flags, and the kind of adapter, stay. */
  predicate SameBase(r: Reader, r': Reader)
  {
    r'.adapter.Push? && r'.peekQueue == r.peekQueue && FlagsGrow(r, r')
  }

  /** A read is waiting in the slot. */
  predicate Waiting(r: Reader)
  {
    r.adapter.Push? && r.adapter.deferred.Some? && r.adapter.deferred.value.state.Waiting?
  }

  /** Lines 30-35, the 'end' listener: set end-of-stream and resolve a
      deferred in the slot with 0. The slot is not cleared; a deferred that
      was already settled keeps its settlement. */
  function OnEnd(r: Reader): (r': Reader)
    requires r.adapter.Push?
    ensures r'.endOfStream && r'.interrupted == r.interrupted && SameBase(r, r')
    ensures r'.adapter.stream == r.adapter.stream
    ensures r'.adapter.deferred.Some? <==> r.adapter.deferred.Some?
    ensures Waiting(r) ==> r'.adapter.deferred.value.state == Resolved(0)
    ensures !Waiting(r) ==> r'.adapter.deferred == r.adapter.deferred
    ensures Valid(r')
  {
    var d := r.adapter.deferred;
    r.(endOfStream := true, adapter := r.adapter.(deferred := if d.Some? then Some(Resolve(d.value, 0)) else None))
  }

  /** Lines 86-92: set `interrupted`, reject the deferred in the slot (a
      settled one ignores it) and clear the slot. The second component is the
      deferred as its awaiter sees it. */
  function Reject(r: Reader, e: Error): (p: (Reader, Option<Deferred>))
    requires r.adapter.Push?
    ensures p.0.endOfStream == r.endOfStream && SameBase(r, p.0)
    ensures p.0.interrupted && p.0.adapter.deferred.None? && Valid(p.0)
    ensures p.0.adapter.stream == r.adapter.stream
    ensures Waiting(r) ==> p.1.Some? && p.1.value.state == Rejected(e)
    ensures r.adapter.deferred.None? ==> p.1.None?
    ensures r.adapter.deferred.Some? && !Waiting(r) ==> p.1 == r.adapter.deferred
  {
    var d := r.adapter.deferred;
    (r.(interrupted := true, adapter := r.adapter.(deferred := None)), if d.Some? then Some(Completion.Reject(d.value, e)) else None)
  }

  /** Lines 94-96: `abort()` rejects with AbortError. The second component is
      the deferred in the slot as its awaiter sees it. */
  function Abort(r: Reader): (p: (Reader, Option<Deferred>))
    requires r.adapter.Push?
    ensures p.0.endOfStream == r.endOfStream && SameBase(r, p.0)
    ensures p.0.interrupted && p.0.adapter.deferred.None? && Valid(p.0)
    ensures p.0.adapter.stream == r.adapter.stream
    ensures StreamContent(p.0) == []
    ensures Waiting(r) ==> p.1.Some? && p.1.value.state == Rejected(Outcomes.Abort)
    ensures r.adapter.deferred.None? ==> p.1.None?
  {
    Reject(r, Outcomes.Abort)
  }

  /** Lines 98-100: `close()` is `abort()`, so a waiting read is rejected
      with AbortError too. */
  function Close(r: Reader): (p: (Reader, Option<Deferred>))
    requires r.adapter.Push?
    ensures p == Abort(r)
    ensures Waiting(r) ==> p.1.Some? && p.1.value.state == Rejected(Outcomes.Abort)
  {
    Abort(r)
  }

  /** Lines 73-84, the 'readable' continuation: drain the deferred's length;
      on data resolve and clear the slot, otherwise keep waiting (the
      continuation registers itself again). */
  function ReadDeferred(r: Reader): (p: (Option<Bytes>, Reader))
    requires Waiting(r)
    ensures p.1.adapter.Push? && p.1.peekQueue == r.peekQueue
    ensures p.1.endOfStream == r.endOfStream && p.1.interrupted == r.interrupted
    ensures p.1.adapter.stream.events == r.adapter.stream.events && p.1.adapter.stream.eof == r.adapter.stream.eof
    ensures p.1.adapter.stream.requested == r.adapter.stream.requested + [r.adapter.deferred.value.length]
    ensures p.0.Some? ==> p.1.adapter.deferred.None? && 0 < |p.0.value| <= r.adapter.deferred.value.length
    ensures p.0.Some? ==> p.0.value + p.1.adapter.stream.buffered == r.adapter.stream.buffered
    ensures p.0.None? ==> p.1.adapter.deferred == r.adapter.deferred && p.1.adapter.stream.buffered == r.adapter.stream.buffered
  {
    var d := r.adapter.deferred.value;
    var (got, s) := NS.Drain(r.adapter.stream, d.length);
    if got.Some? then (got, r.(adapter := Push(None, s)))
    else (None, r.(adapter := Push(Some(d), s)))
  }

  /** The stream at the moment a read starts waiting: a drain of the wanted
      length failed, so after EOF nothing is buffered. */
  predicate Primed(r: Reader)
  {
    Waiting(r) && 0 < r.adapter.deferred.value.length
    && (r.adapter.stream.eof ==> |r.adapter.stream.buffered| == 0)
  }

  /** A pushed chunk or EOF, taken off the script, leaves what the stream can
      still give unchanged (EOF only ends the script's arrivals). */
  lemma EventKeepsPending(r: Reader, r1: Reader)
    requires r.adapter.Push? && r1.adapter.Push? && r1.endOfStream == r.endOfStream
    requires 0 < |r.adapter.stream.events|
    requires var s := r.adapter.stream;
      var ev := s.events[0];
      var s1 := s.(events := s.events[1..]);
      && (ev.Arrive? || ev.PushEnd?)
      && r1.adapter.stream == (if ev.Arrive? then s1.(buffered := s.buffered + ev.data) else s1.(eof := true))
    ensures !r.adapter.stream.eof ==> Pending(r1) == Pending(r)
  {
    var s := r.adapter.stream;
    if s.events[0].Arrive? {
      Assoc(s.buffered, s.events[0].data, NS.Arrivals(s.events[1..]));
    }
  }

  /** The 'readable' continuation on a waiting read: data comes from the
      front of what the stream can give, at most the wanted length and short
      only when nothing more can come; no data leaves the read waiting on
      the same bytes. */
  lemma ReadableStep(r: Reader)
    requires Waiting(r)
    ensures var (got, r') := ReadDeferred(r);
      var length := r.adapter.deferred.value.length;
      && (got.Some? && !r.endOfStream ==>
            got.value + Pending(r') == Pending(r) && |got.value| == Min(length, |Pending(r)|))
      && (got.None? && 0 < length ==> Primed(r') && Pending(r') == Pending(r))
  {
    var s := r.adapter.stream;
    var (got, r') := ReadDeferred(r);
    if got.Some? && !r.endOfStream && !s.eof {
      Assoc(got.value, r'.adapter.stream.buffered, NS.Arrivals(s.events));
    }
  }

  /** What the outcome `o` of the read waiting in `r`'s slot promises. It
      settles with at most the wanted length, taken from the front of what the
      stream can still give (0 only at 'end'); or it fails from an interrupt,
      with the slot cleared; or, with no further event, it stays waiting.
      Every drain it makes asks for the wanted length. */
  predicate WaitOutcome(r: Reader, o: Outcome<Reader>)
    requires Waiting(r)
  {
    var length := r.adapter.deferred.value.length;
    && SameBase(r, o.next)
    && LoggedOnly(r.adapter.stream.requested, o.next.adapter.stream.requested, length)
    && (o.Delivered? ==> Valid(o.next) && o.next.interrupted == r.interrupted)
    && (o.Delivered? ==> |o.bytes| <= length)
    && (o.Delivered? && |o.bytes| == 0 ==> o.next.endOfStream)
    && (o.Delivered? && Primed(r) && !r.endOfStream ==>
          o.bytes + Pending(o.next) == Pending(r) && |o.bytes| == Min(length, |Pending(r)|))
    && (o.Failed? ==> o.next.interrupted && o.next.adapter.deferred.None? && Valid(o.next))
    && (o.Failed? ==> o.error == Outcomes.Abort || o.error.SourceFailure?)
    && (o.Suspended? ==> o.next.adapter.deferred == r.adapter.deferred && |o.next.adapter.stream.events| == 0)
    && (o.Suspended? && Primed(r) ==> Pending(o.next) == Pending(r))
  }

  /** The next event pushes a chunk or EOF. */
  predicate PushesNext(r: Reader)
  {
    r.adapter.Push? && 0 < |r.adapter.stream.events|
    && (r.adapter.stream.events[0].Arrive? || r.adapter.stream.events[0].PushEnd?)
  }

  /** The producer's push taken off the script: a chunk joins the buffer, or
      EOF is set. */
  function Fire(r: Reader): (r1: Reader)
    requires PushesNext(r)
    ensures r1.adapter.Push? && r1.adapter.deferred == r.adapter.deferred
    ensures r1.peekQueue == r.peekQueue && r1.endOfStream == r.endOfStream && r1.interrupted == r.interrupted
    ensures r1.adapter.stream.requested == r.adapter.stream.requested
    ensures |r1.adapter.stream.events| < |r.adapter.stream.events|
    ensures !r.adapter.stream.eof ==> Pending(r1) == Pending(r)
  {
    var s := r.adapter.stream;
    var ev := s.events[0];
    var s1 := s.(events := s.events[1..]);
    var r1 := r.(adapter := r.adapter.(stream := if ev.Arrive? then s1.(buffered := s.buffered + ev.data) else s1.(eof := true)));
    EventKeepsPending(r, r1);
    r1
  }

  /** How a read still waiting in `r2` after a 'readable' relates to the
      wait in `r` it continues. */
  predicate Continues(r: Reader, r2: Reader)
    requires Waiting(r)
  {
    && Waiting(r2) && r2.adapter.deferred == r.adapter.deferred
    && r2.peekQueue == r.peekQueue && r2.endOfStream == r.endOfStream && r2.interrupted == r.interrupted
    && r2.adapter.stream.requested == r.adapter.stream.requested + [r.adapter.deferred.value.length]
    && (Primed(r) ==> Primed(r2) && Pending(r2) == Pending(r))
  }

  /** The suspended read, stepped through the event script. 'end' fires once
      EOF is pushed and the buffer is empty, and resolves with 0; a pushed
      chunk or EOF fires 'readable' and the continuation of lines 73-84 runs;
      'error' rejects with the source's error; 'close' and a caller's
      `abort()` reject with AbortError. A script that runs out leaves the read
      suspended. */
  function Await(r: Reader): (o: Outcome<Reader>)
    requires Waiting(r)
    ensures WaitOutcome(r, o)
    decreases |r.adapter.stream.events|
  {
    var s := r.adapter.stream;
    if s.eof && |s.buffered| == 0 then
      EndOutcome(r);
      Delivered([], OnEnd(r))
    else if |s.events| == 0 then
      SuspendedOutcome(r);
      Suspended(r)
    else if PushesNext(r) then
      ReadableOutcome(r);
      var (got, r2) := ReadDeferred(Fire(r));
      if got.Some? then
        Delivered(got.value, r2)
      else
        var o := Await(r2);
        ChainOutcome(r, r2, o);
        o
    else
      var e := if s.events[0].Failure? then SourceFailure(s.events[0].code) else Outcomes.Abort;
      var r' := Reject(r.(adapter := r.adapter.(stream := s.(events := s.events[1..]))), e).0;
      FailedOutcome(r, e, r');
      Failed(e, r')
  }

  /** 'end' resolves the waiting read with 0. */
  lemma EndOutcome(r: Reader)
    requires Waiting(r) && r.adapter.stream.eof && |r.adapter.stream.buffered| == 0
    ensures WaitOutcome(r, Delivered([], OnEnd(r)))
  {
    assert r.adapter.stream.requested[..|r.adapter.stream.requested|] == r.adapter.stream.requested;
  }

  /** With no further event the read stays where it is. */
  lemma SuspendedOutcome(r: Reader)
    requires Waiting(r) && |r.adapter.stream.events| == 0
    ensures WaitOutcome(r, Suspended(r))
  {
    assert r.adapter.stream.requested[..|r.adapter.stream.requested|] == r.adapter.stream.requested;
  }

  /** An interrupt rejects the read and clears the slot. */
  lemma FailedOutcome(r: Reader, e: Error, r': Reader)
    requires Waiting(r) && r'.adapter.Push? && r'.peekQueue == r.peekQueue && FlagsGrow(r, r')
    requires r'.adapter.stream.requested == r.adapter.stream.requested
    requires r'.interrupted && r'.adapter.deferred.None? && Valid(r')
    requires e == Outcomes.Abort || e.SourceFailure?
    ensures WaitOutcome(r, Failed(e, r'))
  {
    assert r.adapter.stream.requested[..|r.adapter.stream.requested|] == r.adapter.stream.requested;
  }

  /** 'readable' after a pushed chunk or EOF: either the drain settles the
      read with the front of what the stream can give, or the read waits on. */
  lemma ReadableOutcome(r: Reader)
    requires Waiting(r) && PushesNext(r) && !(r.adapter.stream.eof && |r.adapter.stream.buffered| == 0)
    ensures var (got, r2) := ReadDeferred(Fire(r));
      && (got.Some? ==> WaitOutcome(r, Delivered(got.value, r2)))
      && (got.None? ==> Continues(r, r2) && |r2.adapter.stream.events| < |r.adapter.stream.events|)
  {
    var r1 := Fire(r);
    ReadableStep(r1);
    var (got, r2) := ReadDeferred(r1);
    assert r2.adapter.stream.requested[..|r.adapter.stream.requested|] == r.adapter.stream.requested;
  }

  /** Whatever the continued wait promises, the original wait promises too. */
  lemma ChainOutcome(r: Reader, r2: Reader, o: Outcome<Reader>)
    requires Waiting(r) && Continues(r, r2) && WaitOutcome(r2, o)
    ensures WaitOutcome(r, o)
  {
    var length := r.adapter.deferred.value.length;
    var a, b, c := r.adapter.stream.requested, r2.adapter.stream.requested, o.next.adapter.stream.requested;
    assert LoggedOnly(a, b, length) by {
      assert b[..|a|] == a;
    }
    LoggedOnlyTrans(a, b, c, length);
  }

  /** What a pull of `length` bytes promises: at most `length` bytes from
      the front of what the stream can give, short only at end-of-stream; or
      an interrupt's failure with the slot cleared; or a read left waiting.
      Every drain asks for `length`. */
  predicate PullOutcome(r: Reader, length: nat, o: Outcome<Reader>)
    requires r.adapter.Push?
  {
    && SameBase(r, o.next)
    && LoggedOnly(r.adapter.stream.requested, o.next.adapter.stream.requested, length)
    && (o.Delivered? ==> Valid(o.next) && o.next.interrupted == r.interrupted)
    && (o.Delivered? ==> |o.bytes| <= length)
    && (o.Delivered? && 0 < length && |o.bytes| == 0 ==> o.next.endOfStream)
    && (o.Delivered? && 0 < length && !r.endOfStream ==>
          o.bytes + Pending(o.next) == Pending(r) && |o.bytes| == Min(length, |Pending(r)|))
    && (o.Failed? ==> o.next.interrupted && o.next.adapter.deferred.None? && Valid(o.next))
    && (o.Failed? ==> o.error == Outcomes.Abort || o.error.SourceFailure?)
    && (o.Suspended? ==> o.next.adapter.deferred == Some(Deferred(length, Completion.Waiting)))
  }

  /** Lines 47-67, `readFromStream`: data from the non-blocking drain is
      returned at once and no deferred is created; otherwise one deferred for
      `length` bytes waits in the slot. */
  function ReadFromStream(r: Reader, length: nat): (o: Outcome<Reader>)
    requires r.adapter.Push? && Valid(r)
    ensures PullOutcome(r, length, o)
    ensures NS.Drain(r.adapter.stream, length).0.Some? ==>
      o.Delivered? && o.next.adapter.deferred == r.adapter.deferred
  {
    var (got, s) := NS.Drain(r.adapter.stream, length);
    if got.Some? then
      DrainedOutcome(r, length);
      Delivered(got.value, r.(adapter := r.adapter.(stream := s)))
    else
      var r1 := r.(adapter := Push(Some(Deferred(length, Completion.Waiting)), s));
      var o := Await(r1);
      WaitedOutcome(r, length, o);
      o
  }

  /** The drain had the bytes. */
  lemma DrainedOutcome(r: Reader, length: nat)
    requires r.adapter.Push? && Valid(r)
    requires NS.Drain(r.adapter.stream, length).0.Some?
    ensures var (got, s) := NS.Drain(r.adapter.stream, length);
      PullOutcome(r, length, Delivered(got.value, r.(adapter := r.adapter.(stream := s))))
  {
    var (got, s) := NS.Drain(r.adapter.stream, length);
    var r' := r.(adapter := r.adapter.(stream := s));
    assert s.requested[..|r.adapter.stream.requested|] == r.adapter.stream.requested;
    if 0 < length && !r.endOfStream && !s.eof {
      Assoc(got.value, s.buffered, NS.Arrivals(s.events));
    }
  }

  /** The drain came back empty and the read waited for `o`. */
  lemma WaitedOutcome(r: Reader, length: nat, o: Outcome<Reader>)
    requires r.adapter.Push? && Valid(r)
    requires NS.Drain(r.adapter.stream, length).0.None?
    requires WaitOutcome(r.(adapter := Push(Some(Deferred(length, Completion.Waiting)), NS.Drain(r.adapter.stream, length).1)), o)
    ensures PullOutcome(r, length, o)
  {
    var s := NS.Drain(r.adapter.stream, length).1;
    var r1 := r.(adapter := Push(Some(Deferred(length, Completion.Waiting)), s));
    assert 0 < length ==> Primed(r1);
    assert Pending(r1) == Pending(r);
    LoggedOnlyTrans(r.adapter.stream.requested, s.requested, o.next.adapter.stream.requested, length);
  }

  /** A producer that pushes chunks and then EOF never leaves a waiting read
      hanging or failed: the read settles with bytes, or with 0 once 'end'
      fires. */
  lemma {:induction false} OrderlyAwaitDelivers(r: Reader)
    requires Primed(r) && NS.Orderly(r.adapter.stream)
    ensures Await(r).Delivered?
    ensures NS.Orderly(Await(r).next.adapter.stream)
    decreases |r.adapter.stream.events|
  {
    hide WaitOutcome;
    hide Pending;
    var s := r.adapter.stream;
    if !(s.eof && |s.buffered| == 0) {
      assert !s.eof && 0 < |s.events|;
      assert PushesNext(r) by {
        if |s.events| > 1 {
          assert s.events[0].Arrive?;
        }
      }
      ReadableOutcome(r);
      var r1 := Fire(r);
      var (got, r2) := ReadDeferred(r1);
      if got.None? {
        assert NS.Orderly(r2.adapter.stream) by {
          var e2 := r2.adapter.stream.events;
          assert e2 == s.events[1..];
          if s.events[0].PushEnd? {
            assert |s.events| == 1;
          }
        }
        OrderlyAwaitDelivers(r2);
      }
    }
  }

  /** Every pull over such a producer settles with bytes (0 only at 'end'),
      and the producer stays of that kind. */
  lemma OrderlyPullDelivers(r: Reader, length: nat)
    requires r.adapter.Push? && Valid(r) && NS.Orderly(r.adapter.stream) && 0 < length
    ensures ReadFromStream(r, length).Delivered?
    ensures NS.Orderly(ReadFromStream(r, length).next.adapter.stream)
  {
    var (got, s) := NS.Drain(r.adapter.stream, length);
    if got.None? {
      var r1 := r.(adapter := Push(Some(Deferred(length, Completion.Waiting)), s));
      assert Primed(r1);
      OrderlyAwaitDelivers(r1);
    }
  }

  /** Line 36: an 'error' while a read waits rejects it with the stream's
      own error, unchanged. */
  lemma ErrorPassesThrough(r: Reader)
    requires Waiting(r) && 0 < |r.adapter.stream.events| && r.adapter.stream.events[0].Failure?
    requires !(r.adapter.stream.eof && |r.adapter.stream.buffered| == 0)
    ensures Await(r).Failed? && Await(r).error == SourceFailure(r.adapter.stream.events[0].code)
    ensures Await(r).next.interrupted && Await(r).next.adapter.deferred.None?
  {
  }

  /** Lines 37 and 94-100: 'close', or `abort()` called while a read waits,
      rejects that read with AbortError instead of leaving it hanging. */
  lemma AbortWhileWaiting(r: Reader)
    requires Waiting(r) && 0 < |r.adapter.stream.events|
    requires r.adapter.stream.events[0].Closed? || r.adapter.stream.events[0].CallerAbort?
    requires !(r.adapter.stream.eof && |r.adapter.stream.buffered| == 0)
    ensures Await(r).Failed? && Await(r).error == Outcomes.Abort
    ensures Await(r).next.interrupted && Await(r).next.adapter.deferred.None?
  {
  }

  /** A pull that found nothing to drain and then sees `abort()` settles
      with AbortError: the suspended read does not hang. (Once EOF was
      pushed, an empty drain means 'end' settles the read with 0 first.) */
  lemma AbortWhileSuspended(r: Reader, length: nat)
    requires r.adapter.Push? && Valid(r) && 0 < length && !r.adapter.stream.eof
    requires NS.Drain(r.adapter.stream, length).0.None?
    requires 0 < |r.adapter.stream.events| && r.adapter.stream.events[0].CallerAbort?
    ensures ReadFromStream(r, length).Failed? && ReadFromStream(r, length).error == Outcomes.Abort
  {
    var s := NS.Drain(r.adapter.stream, length).1;
    var r1 := r.(adapter := Push(Some(Deferred(length, Completion.Waiting)), s));
    AbortWhileWaiting(r1);
  }
}
