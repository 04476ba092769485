/** Byte sequences and the two ways the readers flatten a list of slices. */
module Bytes {

  /** One octet of a Uint8Array. */
  type Byte = b: int | 0 <= b < 256

  type Bytes = seq<Byte>

  function Min(a: nat, b: nat): (m: nat)
    ensures m <= a && m <= b
    ensures m == a || m == b
  {
    if a <= b then a else b
  }

  /** The bytes of a peek stack in the order reads consume them: the slice
      pushed last (the end of the array) comes first. */
  function Stacked(q: seq<Bytes>): Bytes
  {
    if |q| == 0 then [] else q[|q| - 1] + Stacked(q[..|q| - 1])
  }

  /** The bytes of a front-first queue in the order reads consume them. */
  function Queued(q: seq<Bytes>): Bytes
  {
    if |q| == 0 then [] else q[0] + Queued(q[1..])
  }

  lemma Assoc(a: Bytes, b: Bytes, c: Bytes)
    ensures (a + b) + c == a + (b + c)
  {
  }

  lemma StackedPush(q: seq<Bytes>, b: Bytes)
    ensures Stacked(q + [b]) == b + Stacked(q)
  {
    assert (q + [b])[..|q|] == q;
  }

  lemma QueuedCons(b: Bytes, q: seq<Bytes>)
    ensures Queued([b] + q) == b + Queued(q)
  {
    assert ([b] + q)[1..] == q;
  }

  lemma {:induction false} QueuedAppend(q: seq<Bytes>, b: Bytes)
    ensures Queued(q + [b]) == Queued(q) + b
    decreases |q|
  {
    if |q| == 0 {
      assert q + [b] == [b] + [];
      QueuedCons(b, []);
    } else {
      assert q + [b] == [q[0]] + (q[1..] + [b]);
      QueuedCons(q[0], q[1..] + [b]);
      QueuedAppend(q[1..], b);
      assert q == [q[0]] + q[1..];
      QueuedCons(q[0], q[1..]);
    }
  }

  /** Copy `data` into `buf` at `offset` (Uint8Array.set / Buffer.copy). */
  function Write(buf: Bytes, offset: nat, data: Bytes): (r: Bytes)
    requires offset + |data| <= |buf|
    ensures |r| == |buf|
    ensures r[offset..offset + |data|] == data
    ensures forall i :: 0 <= i < |buf| && !(offset <= i < offset + |data|) ==> r[i] == buf[i]
  {
    buf[..offset] + data + buf[offset + |data|..]
  }

  /** Buffer.prototype.slice(start, end) with both indices clamped to the
      length: an end before the start gives the empty slice. */
  function JsSlice(buf: Bytes, start: nat, end: nat): (r: Bytes)
    ensures |r| <= |buf|
  {
    var e := Min(end, |buf|);
    var s := Min(start, e);
    buf[s..e]
  }
}
