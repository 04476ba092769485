/** lib/WebStreamByobReader.ts: the low-level pull over a BYOB reader handle,
    one read per call into a freshly sized view, nothing retained. */
module BorrowedBufferAdapter {
  import opened Bytes
  import opened Outcomes
  import opened WebSources
  import opened ReaderState

  /** Lines 14-23 on the result the handle settled with: done sets
      end-of-stream; a value is copied and its length returned; no value
      returns 0. */
  function Settle(r: Reader, res: ReadResult): (o: Outcome<Reader>)
    ensures o.Delivered?
    ensures o.next == r.(endOfStream := r.endOfStream || res.done)
    ensures res.value.Some? ==> o.bytes == res.value.value
    ensures res.value.None? ==> o.bytes == []
  {
    var r' := if res.done then r.(endOfStream := res.done) else r;
    if res.value.Some? then Delivered(res.value.value, r') else Delivered([], r')
  }

  /** `readFromStream`: exactly one read with a view of exactly `length`
      bytes; the bytes returned are the front of what the stream still holds,
      at most `length` of them, none only once the stream is done; the end
      flag is the only base field that changes. */
  function ReadFromStream(r: Reader, length: nat): (o: Outcome<Reader>)
    requires r.adapter.Borrowed? && Valid(r)
    ensures o.Delivered? && o.next.adapter.Borrowed? && Valid(o.next)
    ensures o.next.adapter.byob.requested == r.adapter.byob.requested + [length]
    ensures o.next.peekQueue == r.peekQueue && o.next.interrupted == r.interrupted
    ensures r.endOfStream ==> o.next.endOfStream
    ensures |o.bytes| <= length
    ensures o.bytes + Pending(o.next) == Pending(r)
    ensures 0 < length && |o.bytes| == 0 ==> o.next.endOfStream
    ensures 0 < length && Pending(r) != [] ==> 0 < |o.bytes|
  {
    var (res, src) := Fill(r.adapter.byob, length);
    Settle(r.(adapter := Borrowed(src)), res)
  }
}
