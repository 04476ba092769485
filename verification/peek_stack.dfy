/** The peek stack of lib/AbstractStreamReader.ts: `readFromPeekBuffer`. */
module PeekStack {
  import opened Bytes

  /** Recursive statement of `readFromPeekBuffer`: pop the last-pushed slice,
      take `min(slice length, remaining)` of it, push an unconsumed tail back,
      and go on while bytes are wanted and slices remain. */
  function TakeFromStack(q: seq<Bytes>, length: nat): (r: (Bytes, seq<Bytes>))
    ensures r.0 + Stacked(r.1) == Stacked(q)
    ensures |r.0| == Min(length, |Stacked(q)|)
    decreases |q|
  {
    if |q| == 0 || length == 0 then ([], q)
    else
      var top := q[|q| - 1];
      var rest := q[..|q| - 1];
      var n := Min(|top|, length);
      if n < |top| then
        StackedPush(rest, top[n..]);
        assert top == top[..n] + top[n..];
        (top[..n], rest + [top[n..]])
      else
        var more := TakeFromStack(rest, length - n);
        (top + more.0, more.1)
  }

  /** The loop state is on the way to `TakeFromStack(queue, length)`: what is
      still wanted, taken from what is still stacked, completes it. */
  predicate OnTheWay(queue: seq<Bytes>, length: nat, bytesRead: Bytes, peekQueue: seq<Bytes>, remaining: nat)
  {
    |bytesRead| + remaining == length
    && var t := TakeFromStack(peekQueue, remaining);
      (bytesRead + t.0, t.1) == TakeFromStack(queue, length)
  }

  /** One pass of the loop body keeps the loop state on the way. */
  lemma PopStep(queue: seq<Bytes>, length: nat, bytesRead: Bytes, peekQueue: seq<Bytes>, remaining: nat)
    requires OnTheWay(queue, length, bytesRead, peekQueue, remaining)
    requires 0 < |peekQueue| && 0 < remaining
    ensures var peekData := peekQueue[|peekQueue| - 1];
      var below := peekQueue[..|peekQueue| - 1];
      var lenCopy := Min(|peekData|, remaining);
      OnTheWay(queue, length, bytesRead + peekData[..lenCopy],
        if lenCopy < |peekData| then below + [peekData[lenCopy..]] else below, remaining - lenCopy)
  {
    var peekData := peekQueue[|peekQueue| - 1];
    var below := peekQueue[..|peekQueue| - 1];
    var lenCopy := Min(|peekData|, remaining);
    var step := TakeFromStack(peekQueue, remaining);
    var bytesRead' := bytesRead + peekData[..lenCopy];
    if lenCopy < |peekData| {
      var q' := below + [peekData[lenCopy..]];
      assert step == (peekData[..lenCopy], q');
      assert TakeFromStack(q', 0) == ([], q');
      assert bytesRead' + [] == bytesRead';
    } else {
      var more := TakeFromStack(below, remaining - lenCopy);
      assert step == (peekData + more.0, more.1);
      assert peekData[..lenCopy] == peekData;
      assert bytesRead' + more.0 == bytesRead + (peekData + more.0);
    }
  }

  /** The loop of lib/AbstractStreamReader.ts:75-93 as written. */
  method ReadFromPeekBuffer(queue: seq<Bytes>, length: nat) returns (bytesRead: Bytes, peekQueue: seq<Bytes>)
    ensures bytesRead + Stacked(peekQueue) == Stacked(queue)
    ensures |bytesRead| == Min(length, |Stacked(queue)|)
    ensures bytesRead == TakeFromStack(queue, length).0 && peekQueue == TakeFromStack(queue, length).1
  {
    peekQueue := queue;
    bytesRead := [];
    var remaining: nat := length;
    assert [] + TakeFromStack(queue, length).0 == TakeFromStack(queue, length).0;
    while |peekQueue| > 0 && remaining > 0
      invariant OnTheWay(queue, length, bytesRead, peekQueue, remaining)
      decreases remaining, |peekQueue|
    {
      var peekData := peekQueue[|peekQueue| - 1];
      var lenCopy := Min(|peekData|, remaining);
      PopStep(queue, length, bytesRead, peekQueue, remaining);
      bytesRead := bytesRead + peekData[..lenCopy];
      remaining := remaining - lenCopy;
      if lenCopy < |peekData| {
        peekQueue := peekQueue[..|peekQueue| - 1] + [peekData[lenCopy..]];
      } else {
        peekQueue := peekQueue[..|peekQueue| - 1];
      }
    }
    assert TakeFromStack(peekQueue, remaining) == ([], peekQueue);
    assert bytesRead + [] == bytesRead;
  }

  /** After a peek pushed `b`, a read of at most `|b|` bytes returns the
      front of `b` and leaves the rest of `b` on top of the same stack. */
  lemma {:induction false} TakeAfterPush(q: seq<Bytes>, b: Bytes, m: nat)
    requires 0 < m <= |b|
    ensures TakeFromStack(q + [b], m).0 == b[..m]
    ensures Stacked(TakeFromStack(q + [b], m).1) == b[m..] + Stacked(q)
  {
    StackedPush(q, b);
    var t := TakeFromStack(q + [b], m);
    assert |t.0| == m;
    assert t.0 + Stacked(t.1) == b + Stacked(q);
    assert t.0 == (b + Stacked(q))[..m];
    assert (b + Stacked(q))[..m] == b[..m];
    assert b + Stacked(q) == b[..m] + (b[m..] + Stacked(q));
  }
}
