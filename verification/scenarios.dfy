/** The behaviour test/test.ts checks, stated for every producer that pushes
    the same bytes in any chunking and then EOF. */
module Scenarios {
  import opened Bytes
  import opened Outcomes
  import opened WebSources
  import opened ReaderState
  import opened Engine
  import opened EngineProperties
  import PushAdapter
  import NS = NodeSource

  /** "\x05peter" as bytes. */
  function Peter(): Bytes
  {
    [5, 112, 101, 116, 101, 114]
  }

  /** The reader test/test.ts builds over a producer. */
  function PushReader(s: NS.NodeStream): (r: Reader)
    ensures Valid(r) && r.adapter.Push? && Content(r) == NS.Content(s)
  {
    PushAdapter.Construct(PushAdapter.Candidate(true, true, s)).next.value
  }

  /** A read over a live reader that has bytes returns the front
      `min(length, all)` of them and leaves the rest, still live. */
  lemma FrontBytes(r: Reader, length: nat)
    requires Valid(r) && Live(r) && 0 < length && Content(r) != []
    ensures Read(r, length).Delivered?
    ensures Read(r, length).bytes == Content(r)[..Min(length, |Content(r)|)]
    ensures Content(Read(r, length).next) == Content(r)[Min(length, |Content(r)|)..]
    ensures Valid(Read(r, length).next) && Live(Read(r, length).next)
  {
    hide ReadRemainderFromStream;
    hide Pull;
    ReadLive(r, length);
    var o := Read(r, length);
    assert Content(r) == o.bytes + Content(o.next);
  }

  /** Lines 13-42: read 1 byte, then 5, then 1: 5, then "peter", then
      end-of-stream. */
  lemma PeterReads(s: NS.NodeStream)
    requires NS.Orderly(s) && NS.Content(s) == Peter()
    ensures var r0 := PushReader(s);
      && Read(r0, 1).Delivered? && Read(r0, 1).bytes == [5]
      && var r1 := Read(r0, 1).next;
      && Valid(r1)
      && Read(r1, 5).Delivered? && Read(r1, 5).bytes == Peter()[1..]
      && var r2 := Read(r1, 5).next;
      && Valid(r2)
      && Read(r2, 1).Failed? && Read(r2, 1).error == EndOfStream
  {
    hide Read;
    hide ReadRemainderFromStream;
    hide Pull;
    var r0 := PushReader(s);
    FrontBytes(r0, 1);
    var r1 := Read(r0, 1).next;
    FrontBytes(r1, 5);
    var r2 := Read(r1, 5).next;
    assert Content(r2) == [];
    ReadLive(r2, 1);
  }

  /** Lines 153-191: peek 1 byte gives 5; a following read of 1 gives 5
      again, and one of 6 gives the whole "\x05peter". */
  lemma PeterPeeks(s: NS.NodeStream)
    requires NS.Orderly(s) && NS.Content(s) == Peter()
    ensures var p := Peek(PushReader(s), 1);
      && p.Delivered? && p.bytes == [5]
      && Valid(p.next)
      && Read(p.next, 1).Delivered? && Read(p.next, 1).bytes == [5]
      && Read(p.next, 6).Delivered? && Read(p.next, 6).bytes == Peter()
  {
    hide Read;
    hide ReadRemainderFromStream;
    hide Pull;
    var r0 := PushReader(s);
    var c := Peter();
    FrontBytes(r0, 1);
    var p := Peek(r0, 1);
    var r1 := p.next;
    assert p.bytes == c[..1] == [5];
    assert Content(r1) == c && Live(r1) && Valid(r1);
    FrontBytes(r1, 1);
    FrontBytes(r1, 6);
    assert c[..6] == c;
  }

  /** n copies of 1, 2, 3, 4. */
  function Quads(n: nat): (q: Bytes)
    ensures |q| == 4 * n
  {
    if n == 0 then [] else [1, 2, 3, 4] + Quads(n - 1)
  }

  /** n successive 4-byte reads each return 1, 2, 3, 4. */
  predicate AllQuads(r: Reader, n: nat)
    requires Valid(r)
    decreases n
  {
    n == 0 ||
    (var o := Read(r, 4); o.Delivered? && o.bytes == [1, 2, 3, 4] && AllQuads(o.next, n - 1))
  }

  /** The front quad of `n` quads, and the `n - 1` behind it. */
  lemma QuadsShift(c: Bytes, n: nat)
    requires 0 < n && 4 * n <= |c| && c[..4 * n] == Quads(n)
    ensures c[..4] == [1, 2, 3, 4]
    ensures 4 * (n - 1) <= |c[4..]| && c[4..][..4 * (n - 1)] == Quads(n - 1)
  {
    assert c[..4] == c[..4 * n][..4];
    assert c[4..][..4 * (n - 1)] == c[..4 * n][4..];
  }

  /** Lines 74-147: over any chunking of repeated 1, 2, 3, 4, every 4-byte
      read returns 1, 2, 3, 4; how the producer split its chunks does not
      matter, only the bytes it pushes. */
  lemma {:induction false} DisjointReads(r: Reader, n: nat)
    requires Valid(r) && Live(r) && 4 * n <= |Content(r)| && Content(r)[..4 * n] == Quads(n)
    ensures AllQuads(r, n)
    decreases n
  {
    hide Read;
    hide ReadRemainderFromStream;
    hide Pull;
    hide Quads;
    hide Content;
    if n > 0 {
      var c := Content(r);
      QuadsShift(c, n);
      FrontBytes(r, 4);
      var o := Read(r, 4);
      assert o.bytes == c[..4] == [1, 2, 3, 4];
      var next := o.next;
      var rest := c[4..];
      assert Content(next) == rest;
      assert rest[..4 * (n - 1)] == Quads(n - 1);
      DisjointReads(next, n - 1);
    }
  }

  /** The disjoint-chunk test for a push reader over any producer of that
      kind. */
  lemma DisjointChunks(s: NS.NodeStream, n: nat)
    requires NS.Orderly(s) && 4 * n <= |NS.Content(s)| && NS.Content(s)[..4 * n] == Quads(n)
    ensures AllQuads(PushReader(s), n)
  {
    DisjointReads(PushReader(s), n);
  }

  /** The owned-chunk counterexample through the engine with the corrected
      pull: after a 3-byte chunk was peeked and the handle has nothing more,
      `read(4)` returns the 3 peeked bytes and flags end-of-stream. */
  lemma CorrectedReadKeepsPeekedBytes()
    ensures var r := Reader(false, false, [[1, 2, 3]], OwnedChunk(None, 0, ChunkSource([], false, false)));
      && Read(r, 4).Delivered? && Read(r, 4).bytes == [1, 2, 3]
      && Read(r, 4).next.endOfStream
  {
    var r := Reader(false, false, [[1, 2, 3]], OwnedChunk(None, 0, ChunkSource([], false, false)));
    var three: Bytes := [1, 2, 3];
    assert Stacked(r.peekQueue) == three + [];
    assert Content(r) == three;
    FrontBytes(r, 4);
    assert Content(r)[..3] == three;
  }
}
