/** The segment-wise data path of a request, as functions on the backing
    store's bytes: where each segment of a request lands in the store, what
    the store looks like after a write request, and what each segment
    receives from a read request. The transfer loop of the device is proved
    against these definitions. */
module Segments {

  type Byte = bv8

  /** `rq_data_dir`: whether a request copies into the store or out of it. */
  datatype Direction = Read | Write

  /** Sum of the lengths of a request's segments (the `bv_len` of each). */
  function TotalLength(segs: seq<seq<Byte>>): (r: nat)
    ensures segs != [] ==> |segs[0]| <= r
  {
    if segs == [] then 0
    else
      var n := |segs| - 1;
      assert n > 0 ==> segs[..n][0] == segs[0];
      TotalLength(segs[..n]) + |segs[n]|
  }

  /** The first k+1 segments are the first k followed by segment k. */
  lemma TakeStep(segs: seq<seq<Byte>>, k: nat)
    requires k < |segs|
    ensures segs[..k + 1] == segs[..k] + [segs[k]]
  {
  }

  /** Byte offset in the store of segment k of a request whose first byte
      goes to `start`: the start plus the lengths of all earlier segments. */
  function SegmentOffset(start: nat, segs: seq<seq<Byte>>, k: nat): (off: nat)
    requires k <= |segs|
    ensures start <= off
    ensures k == 0 ==> off == start
    ensures k == |segs| ==> off == start + TotalLength(segs)
  {
    assert segs[..0] == [];
    assert segs[..|segs|] == segs;
    start + TotalLength(segs[..k])
  }

  /** Offset accounting never resets: the first segment starts at the
      request's start, each later one right after its predecessor, and
      all of them end within the request's total length. */
  lemma {:induction false} SegmentOffsetStep(start: nat, segs: seq<seq<Byte>>, k: nat)
    requires k < |segs|
    ensures SegmentOffset(start, segs, 0) == start
    ensures SegmentOffset(start, segs, k + 1) == SegmentOffset(start, segs, k) + |segs[k]|
    ensures SegmentOffset(start, segs, |segs|) == start + TotalLength(segs)
  {
    assert segs[..0] == [];
    assert segs[..k + 1][..k] == segs[..k];
    assert segs[..|segs|] == segs;
  }

  /** Earlier segments never reach past a later offset. */
  lemma {:induction false} SegmentOffsetMonotone(start: nat, segs: seq<seq<Byte>>, k: nat, m: nat)
    requires k <= m <= |segs|
    ensures SegmentOffset(start, segs, k) <= SegmentOffset(start, segs, m)
    decreases m - k
  {
    if k < m {
      SegmentOffsetStep(start, segs, k);
      SegmentOffsetMonotone(start, segs, k + 1, m);
    }
  }

  /** Two requests whose segments have the same lengths place every segment
      at the same offset. */
  lemma {:induction false} SameShapeSameTotal(a: seq<seq<Byte>>, b: seq<seq<Byte>>)
    requires SameShape(a, b)
    ensures TotalLength(a) == TotalLength(b)
    ensures forall k :: 0 <= k <= |a| ==> TotalLength(a[..k]) == TotalLength(b[..k])
    decreases |a|
  {
    if a != [] {
      var n := |a| - 1;
      SameShapeSameTotal(a[..n], b[..n]);
      forall k | 0 <= k <= |a|
        ensures TotalLength(a[..k]) == TotalLength(b[..k])
      {
        if k < |a| {
          assert a[..k] == a[..n][..k] && b[..k] == b[..n][..k];
        } else {
          assert a[..k] == a && b[..k] == b;
        }
      }
    }
  }

  /** Segment lists of equal count whose segments have pairwise equal lengths. */
  predicate SameShape(a: seq<seq<Byte>>, b: seq<seq<Byte>>)
  {
    |a| == |b| && forall k :: 0 <= k < |a| ==> |a[k]| == |b[k]|
  }

  /** The segments' bytes laid end to end, in order. */
  function Concat(segs: seq<seq<Byte>>): (r: seq<Byte>)
    ensures |r| == TotalLength(segs)
  {
    if segs == [] then [] else Concat(segs[..|segs| - 1]) + segs[|segs| - 1]
  }

  /** Segment k sits in the concatenation at its offset (counted from 0),
      for its own length. */
  lemma {:induction false} ConcatSlice(segs: seq<seq<Byte>>, k: nat)
    requires k < |segs|
    ensures SegmentOffset(0, segs, k) + |segs[k]| <= |Concat(segs)|
    ensures Concat(segs)[SegmentOffset(0, segs, k)..SegmentOffset(0, segs, k) + |segs[k]|] == segs[k]
  {
    var n := |segs| - 1;
    assert Concat(segs) == Concat(segs[..n]) + segs[n];
    if k == n {
      assert segs[..k] == segs[..n];
    } else {
      ConcatSlice(segs[..n], k);
      assert segs[..n][..k] == segs[..k];
    }
  }

  /** The store after `buf` is copied in at byte offset `pos` (one `memcpy`
      into the store). */
  function Splice(store: seq<Byte>, pos: nat, buf: seq<Byte>): (r: seq<Byte>)
    requires pos + |buf| <= |store|
    ensures |r| == |store|
  {
    store[..pos] + buf + store[pos + |buf|..]
  }

  /** One copy into the store touches exactly its range: the bytes of
      `pos .. pos + |buf|` become `buf`, every other byte is what it was. */
  lemma SpliceAt(store: seq<Byte>, pos: nat, buf: seq<Byte>)
    requires pos + |buf| <= |store|
    ensures Splice(store, pos, buf)[pos..pos + |buf|] == buf
    ensures forall i :: 0 <= i < |store| && !(pos <= i < pos + |buf|) ==> Splice(store, pos, buf)[i] == store[i]
  {
  }

  /** The store after a write request: its segments are copied in one after
      another, each at the running position `pos`, which then advances by the
      segment's length. */
  function WriteSegments(store: seq<Byte>, pos: nat, segs: seq<seq<Byte>>): (r: seq<Byte>)
    requires pos + TotalLength(segs) <= |store|
    ensures |r| == |store|
  {
    if segs == [] then store
    else
      var n := |segs| - 1;
      Splice(WriteSegments(store, pos, segs[..n]), pos + TotalLength(segs[..n]), segs[n])
  }

  /** Writing one more segment: the store after the first k+1 segments is
      the store after the first k with segment k copied in at its offset. */
  lemma WriteSegmentsStep(store: seq<Byte>, pos: nat, segs: seq<seq<Byte>>, k: nat)
    requires k < |segs|
    requires pos + TotalLength(segs[..k + 1]) <= |store|
    ensures SegmentOffset(pos, segs, k) + |segs[k]| <= |store|
    ensures WriteSegments(store, pos, segs[..k + 1])
         == Splice(WriteSegments(store, pos, segs[..k]), SegmentOffset(pos, segs, k), segs[k])
  {
    assert segs[..k + 1][..k] == segs[..k];
  }

  /** Two copies back to back are one copy of the two buffers laid end
      to end. */
  lemma SpliceAppend(store: seq<Byte>, pos: nat, a: seq<Byte>, b: seq<Byte>)
    requires pos + |a| + |b| <= |store|
    ensures Splice(Splice(store, pos, a), pos + |a|, b) == Splice(store, pos, a + b)
  {
    var t := Splice(store, pos, a);
    assert t[..pos + |a|] == store[..pos] + a;
    assert t[pos + |a| + |b|..] == store[pos + |a| + |b|..];
    assert store[..pos] + a + b == store[..pos] + (a + b);
  }

  /** A write request lands contiguously: the store afterwards is the old
      store with the concatenation of the segments copied in at `pos`. */
  lemma {:induction false} WriteSegmentsIsContiguous(store: seq<Byte>, pos: nat, segs: seq<seq<Byte>>)
    requires pos + TotalLength(segs) <= |store|
    ensures WriteSegments(store, pos, segs) == Splice(store, pos, Concat(segs))
  {
    if segs == [] {
      assert store[..pos] + [] + store[pos..] == store;
    } else {
      var n := |segs| - 1;
      WriteSegmentsIsContiguous(store, pos, segs[..n]);
      SpliceAppend(store, pos, Concat(segs[..n]), segs[n]);
    }
  }

  /** A write request changes nothing outside the range it covers. */
  lemma WriteSegmentsFrame(store: seq<Byte>, pos: nat, segs: seq<seq<Byte>>)
    requires pos + TotalLength(segs) <= |store|
    ensures forall i :: 0 <= i < |store| && !(pos <= i < pos + TotalLength(segs)) ==>
              WriteSegments(store, pos, segs)[i] == store[i]
  {
    WriteSegmentsIsContiguous(store, pos, segs);
    SpliceAt(store, pos, Concat(segs));
  }

  /** After a write request, segment k sits in the store at its own
      offset: the request's start plus the lengths of the segments before it. */
  lemma WriteSegmentsAt(store: seq<Byte>, pos: nat, segs: seq<seq<Byte>>, k: nat)
    requires pos + TotalLength(segs) <= |store|
    requires k < |segs|
    ensures SegmentOffset(pos, segs, k) + |segs[k]| <= |store|
    ensures WriteSegments(store, pos, segs)[SegmentOffset(pos, segs, k)..SegmentOffset(pos, segs, k) + |segs[k]|]
            == segs[k]
  {
    var off := SegmentOffset(0, segs, k);
    WriteSegmentsIsContiguous(store, pos, segs);
    SpliceAt(store, pos, Concat(segs));
    ConcatSlice(segs, k);
    var written := WriteSegments(store, pos, segs);
    assert written[pos..pos + |Concat(segs)|][off..off + |segs[k]|] == written[pos + off..pos + off + |segs[k]|];
  }

  /** What each segment of a read request receives: segment k is filled
      from the store at the running position, which advances by each
      segment's length. Only the segments' lengths matter. */
  function ReadSegments(store: seq<Byte>, pos: nat, segs: seq<seq<Byte>>): (r: seq<seq<Byte>>)
    requires pos + TotalLength(segs) <= |store|
    ensures |r| == |segs|
  {
    if segs == [] then []
    else
      var n := |segs| - 1;
      var off := pos + TotalLength(segs[..n]);
      ReadSegments(store, pos, segs[..n]) + [store[off..off + |segs[n]|]]
  }

  /** Reading one more segment: the first k+1 segments receive what the
      first k receive, followed by the store's bytes at segment k's offset. */
  lemma ReadSegmentsStep(store: seq<Byte>, pos: nat, segs: seq<seq<Byte>>, k: nat)
    requires k < |segs|
    requires pos + TotalLength(segs[..k + 1]) <= |store|
    ensures SegmentOffset(pos, segs, k) + |segs[k]| <= |store|
    ensures ReadSegments(store, pos, segs[..k + 1])
         == ReadSegments(store, pos, segs[..k])
            + [store[SegmentOffset(pos, segs, k)..SegmentOffset(pos, segs, k) + |segs[k]|]]
  {
    assert segs[..k + 1][..k] == segs[..k];
  }

  /** Segment k of a read request receives the store's bytes from its
      offset (the start plus the lengths of the earlier segments) for its
      own length. */
  lemma {:induction false} ReadSegmentsAt(store: seq<Byte>, pos: nat, segs: seq<seq<Byte>>, k: nat)
    requires pos + TotalLength(segs) <= |store|
    requires k < |segs|
    ensures SegmentOffset(pos, segs, k) + |segs[k]| <= |store|
    ensures ReadSegments(store, pos, segs)[k]
         == store[SegmentOffset(pos, segs, k)..SegmentOffset(pos, segs, k) + |segs[k]|]
  {
    var n := |segs| - 1;
    SegmentOffsetStep(pos, segs, k);
    SegmentOffsetMonotone(pos, segs, k + 1, |segs|);
    if k < n {
      ReadSegmentsAt(store, pos, segs[..n], k);
      assert segs[..n][..k] == segs[..k];
    } else {
      assert segs[..k] == segs[..n];
    }
  }

  /** The segments of a read request, laid end to end, are the store's bytes
      from `pos` for the request's total length: one continuous region. */
  lemma {:induction false} ReadSegmentsAreContiguous(store: seq<Byte>, pos: nat, segs: seq<seq<Byte>>)
    requires pos + TotalLength(segs) <= |store|
    ensures Concat(ReadSegments(store, pos, segs)) == store[pos..pos + TotalLength(segs)]
  {
    if segs != [] {
      var n := |segs| - 1;
      var r := ReadSegments(store, pos, segs);
      ReadSegmentsAreContiguous(store, pos, segs[..n]);
      assert r[..n] == ReadSegments(store, pos, segs[..n]);
      var m := TotalLength(segs[..n]);
      ReadSegmentsAt(store, pos, segs, n);
      assert segs[..n] == segs[..|segs| - 1];
      assert r[n] == store[pos + m..pos + m + |segs[n]|];
      assert Concat(r) == Concat(r[..n]) + r[n];
    }
  }

  /** Round trip: reading back, with segments of the same lengths, the range
      a write request covered returns exactly the segments written. */
  lemma {:induction false} WriteThenReadSegments(store: seq<Byte>, pos: nat, ws: seq<seq<Byte>>, rs: seq<seq<Byte>>)
    requires pos + TotalLength(ws) <= |store|
    requires SameShape(rs, ws)
    ensures pos + TotalLength(rs) <= |store|
    ensures ReadSegments(WriteSegments(store, pos, ws), pos, rs) == ws
  {
    SameShapeSameTotal(rs, ws);
    var written := WriteSegments(store, pos, ws);
    var got := ReadSegments(written, pos, rs);
    forall k | 0 <= k < |ws|
      ensures got[k] == ws[k]
    {
      WriteSegmentsAt(store, pos, ws, k);
      ReadSegmentsAt(written, pos, rs, k);
    }
  }

  /** Round trip with a different split: after a write request, a read
      request over the same range whose segments have other lengths but the
      same total returns the written bytes, laid end to end. */
  lemma {:induction false} WriteThenReadResplit(store: seq<Byte>, pos: nat, ws: seq<seq<Byte>>, rs: seq<seq<Byte>>)
    requires pos + TotalLength(ws) <= |store|
    requires TotalLength(rs) == TotalLength(ws)
    ensures Concat(ReadSegments(WriteSegments(store, pos, ws), pos, rs)) == Concat(ws)
  {
    WriteSegmentsIsContiguous(store, pos, ws);
    ReadSegmentsAreContiguous(WriteSegments(store, pos, ws), pos, rs);
  }

  /** The store and the segment buffers after the first k segments of a
      request have been transferred, `store` being the store before the
      request: a write has copied them in and left the buffers as they were;
      a read has left the store alone and filled the buffers from it. */
  ghost predicate Transferred(dir: Direction, store: seq<Byte>, now: seq<Byte>, pos: nat,
                              segs: seq<seq<Byte>>, k: nat, filled: seq<seq<Byte>>)
    requires k <= |segs| && pos + TotalLength(segs[..k]) <= |store|
  {
    if dir == Write then now == WriteSegments(store, pos, segs[..k]) && filled == segs[..k]
    else now == store && filled == ReadSegments(store, pos, segs[..k])
  }

  /** Transferring segment k at its offset extends a transfer of the first
      k segments to one of the first k+1. */
  lemma TransferredStep(dir: Direction, store: seq<Byte>, now: seq<Byte>, next: seq<Byte>, pos: nat,
                        segs: seq<seq<Byte>>, k: nat, filled: seq<seq<Byte>>, out: seq<Byte>)
    requires k < |segs| && pos + TotalLength(segs[..k + 1]) <= |store|
    requires SegmentOffset(pos, segs, k) + |segs[k]| <= |store| == |now|
    requires Transferred(dir, store, now, pos, segs, k, filled)
    requires dir == Write ==> next == Splice(now, SegmentOffset(pos, segs, k), segs[k]) && out == segs[k]
    requires dir == Read ==>
               next == now && out == now[SegmentOffset(pos, segs, k)..SegmentOffset(pos, segs, k) + |segs[k]|]
    ensures Transferred(dir, store, next, pos, segs, k + 1, filled + [out])
  {
    SegmentOffsetMonotone(pos, segs, k, k + 1);
    if dir == Write {
      WriteSegmentsStep(store, pos, segs, k);
      TakeStep(segs, k);
    } else {
      ReadSegmentsStep(store, pos, segs, k);
    }
  }
}
