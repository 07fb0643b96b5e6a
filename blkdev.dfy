/** The test block device: its descriptor (capacity and backing store), the
    per-request transfer loop that copies each segment of a request into or
    out of the store, and the queue handler that wraps it into a completion
    status. */
module BlkDev {
  import opened Sectors
  import opened Segments

  /** Modulus of the 32-bit `unsigned int` byte counter. */
  const U32Modulus: nat := 0x1_0000_0000

  type U32 = x: int | 0 <= x < U32Modulus

  /** Conversion to `unsigned int`: 2^32 is taken off until the value is
      below 2^32. */
  function Wrap32(x: nat): (r: U32)
    ensures r <= x
    ensures x < U32Modulus ==> r == x
  {
    if x < U32Modulus then x else Wrap32(x - U32Modulus)
  }

  /** Wrapping is reduction modulo 2^32. */
  lemma {:induction false} Wrap32IsMod(x: nat)
    ensures Wrap32(x) == x % U32Modulus
  {
    if x >= U32Modulus {
      Wrap32IsMod(x - U32Modulus);
    }
  }

  /** Adding to a counter that has already wrapped gives the same result as
      adding to the unwrapped value and wrapping once. */
  lemma {:induction false} WrapAdd(counter: nat, a: nat, b: nat, c: nat)
    requires counter == Wrap32(a) && c == a + b
    ensures Wrap32(counter + b) == Wrap32(c)
  {
    if a >= U32Modulus {
      WrapAdd(counter, a - U32Modulus, b, c - U32Modulus);
    }
  }

  /** One I/O request: its direction, its first sector (`blk_rq_pos`) and
      its segments in request order, each a buffer of `bv_len` bytes. */
  datatype Request = Request(dir: Direction, startSector: nat, segments: seq<seq<Byte>>)

  /** The two completion statuses the queue handler can report. */
  datatype BlkStatus = BlkStsOk | BlkStsIoErr

  /** The state of the segment loop of `RqProcessing` after k segments of
      a request starting at byte offset `start`: `pos` is segment k's
      offset, the counter has grown by the bytes moved so far, and the
      store (`store` before the request, `now` at this point) and the
      segment buffers are those of a transfer of the first k segments. */
  ghost predicate Progress(dir: Direction, store: seq<Byte>, now: seq<Byte>, start: nat, segs: seq<seq<Byte>>,
                           k: nat, pos: nat, bytesIn: nat, bytes: nat, filled: seq<seq<Byte>>)
  {
    k <= |segs| && |now| == |store| && start + TotalLength(segs) <= |store| &&
    pos == SegmentOffset(start, segs, k) && pos <= |store| &&
    (k < |segs| ==> pos + |segs[k]| <= |store|) &&
    bytes == Wrap32(bytesIn + (pos - start)) &&
    Transferred(dir, store, now, start, segs, k, filled)
  }

  /** Before the first segment: nothing moved, `pos` at the start. */
  lemma ProgressInit(dir: Direction, store: seq<Byte>, start: nat, segs: seq<seq<Byte>>, bytesIn: U32)
    requires start + TotalLength(segs) <= |store|
    ensures Progress(dir, store, store, start, segs, 0, start, bytesIn, bytesIn, [])
  {
    assert segs[..0] == [];
    if 0 < |segs| {
      SegmentOffsetStep(start, segs, 0);
      SegmentOffsetMonotone(start, segs, 1, |segs|);
    }
  }

  /** One turn of the segment loop: copying segment k at `pos` and advancing
      `pos` and the counter by its length keeps the loop's state. */
  lemma ProgressStep(dir: Direction, store: seq<Byte>, now: seq<Byte>, next: seq<Byte>, start: nat,
                     segs: seq<seq<Byte>>, k: nat, pos: nat, bytesIn: nat, bytes: nat,
                     filled: seq<seq<Byte>>, out: seq<Byte>)
    requires Progress(dir, store, now, start, segs, k, pos, bytesIn, bytes, filled)
    requires k < |segs| && pos + |segs[k]| <= |now|
    requires dir == Write ==> next == Splice(now, pos, segs[k]) && out == segs[k]
    requires dir == Read ==> next == now && out == now[pos..pos + |segs[k]|]
    ensures Progress(dir, store, next, start, segs, k + 1, pos + |segs[k]|, bytesIn,
                     Wrap32(bytes + |segs[k]|), filled + [out])
  {
    SegmentOffsetStep(start, segs, k);
    SegmentOffsetMonotone(start, segs, k + 1, |segs|);
    if k + 1 < |segs| {
      SegmentOffsetStep(start, segs, k + 1);
      SegmentOffsetMonotone(start, segs, k + 2, |segs|);
    }
    TransferredStep(dir, store, now, next, start, segs, k, filled, out);
    WrapAdd(bytes, bytesIn + (pos - start), |segs[k]|, bytesIn + (pos + |segs[k]| - start));
  }

  /** Once every segment is done, the counter has grown by the request's
      total length and the store and buffers are those of the whole request. */
  lemma ProgressDone(dir: Direction, store: seq<Byte>, now: seq<Byte>, start: nat, segs: seq<seq<Byte>>,
                     k: nat, pos: nat, bytesIn: nat, bytes: nat, filled: seq<seq<Byte>>)
    requires Progress(dir, store, now, start, segs, k, pos, bytesIn, bytes, filled)
    requires k == |segs|
    ensures bytes == Wrap32(bytesIn + TotalLength(segs))
    ensures dir == Write ==> now == WriteSegments(store, start, segs) && filled == segs
    ensures dir == Read ==> now == store && filled == ReadSegments(store, start, segs)
  {
    assert segs[..k] == segs;
  }

  /** The device descriptor (`struct block_dev`): capacity in sectors and
      the backing store it owns. */
  class Device {
    var capacity: nat
    var data: array<Byte>

    /** The store holds exactly `capacity` sectors. */
    ghost predicate Valid()
      reads this
    {
      data.Length == StoreSize(capacity)
    }

    /** The kernel hands the queue only requests that lie within the
        capacity the device announced. */
    ghost predicate InBounds(rq: Request)
      reads this
      ensures InBounds(rq) ==> rq.startSector <= capacity
      ensures InBounds(rq) && rq.segments != [] && rq.segments[0] != [] ==> rq.startSector < capacity
    {
      SectorOffset(rq.startSector) + TotalLength(rq.segments) <= StoreSize(capacity)
    }

    /** Device set-up: the capacity is PAGE_SIZE sectors and the store is
        allocated at `capacity << SECTOR_SHIFT` bytes. */
    constructor Init(pageSize: nat)
      requires IsPageSize(pageSize)
      ensures Valid() && fresh(data)
      ensures capacity == pageSize
      ensures data.Length == capacity * SectorSize
    {
      var sectors := Capacity(pageSize);
      capacity := sectors;
      data := new Byte[StoreSize(sectors)];
    }

    /** Processes one request segment by segment. `pos` starts at the
        request's first sector shifted to a byte offset; each segment is
        copied into the store (write) or out of it (read) at `pos`, and then
        `pos` and the byte counter advance by the segment's length. Returns
        0, the new counter and the contents of the segment buffers
        afterwards. */
    method RqProcessing(rq: Request, bytesIn: U32) returns (ret: int, bytes: U32, filled: seq<seq<Byte>>)
      requires Valid() && InBounds(rq)
      modifies data
      ensures ret == 0
      ensures bytes == Wrap32(bytesIn + TotalLength(rq.segments))
      ensures rq.dir == Write ==>
                data[..] == WriteSegments(old(data[..]), SectorOffset(rq.startSector), rq.segments) &&
                filled == rq.segments
      ensures rq.dir == Read ==>
                data[..] == old(data[..]) &&
                filled == ReadSegments(old(data[..]), SectorOffset(rq.startSector), rq.segments)
    {
      ghost var store := data[..];
      var segs := rq.segments;
      ShiftLeftSectors(rq.startSector);
      var start: nat := ShiftLeft(rq.startSector, SectorShift);
      var pos: nat := start;
      bytes := bytesIn;
      filled := [];
      var k: nat := 0;
      ProgressInit(rq.dir, store, start, segs, bytesIn);
      while k < |segs|
        invariant Progress(rq.dir, store, data[..], start, segs, k, pos, bytesIn, bytes, filled)
      {
        var seg := segs[k];
        var out := CopySegment(rq.dir, store, start, segs, k, pos, bytesIn, bytes, filled);
        filled := filled + [out];
        pos := pos + |seg|;
        bytes := Wrap32(bytes + |seg|);
        k := k + 1;
      }
      ProgressDone(rq.dir, store, data[..], start, segs, k, pos, bytesIn, bytes, filled);
      ret := 0;
    }

    /** One turn of the segment loop of `RqProcessing`: moves segment k at
        `pos` and leaves the loop's state describing k + 1 segments done.
        The driver has no such function; the loop body is a method of its
        own only so that the loop's proof stays small, and its contract is
        `ProgressStep` carried over to the device's array. */
    method CopySegment(dir: Direction, ghost store: seq<Byte>, ghost start: nat, segs: seq<seq<Byte>>, k: nat,
                       pos: nat, ghost bytesIn: nat, ghost bytes: nat, ghost filled: seq<seq<Byte>>)
      returns (out: seq<Byte>)
      requires Progress(dir, store, data[..], start, segs, k, pos, bytesIn, bytes, filled) && k < |segs|
      modifies data
      ensures Progress(dir, store, data[..], start, segs, k + 1, pos + |segs[k]|, bytesIn,
                       Wrap32(bytes + |segs[k]|), filled + [out])
    {
      ghost var now := data[..];
      out := TransferSegment(dir, pos, segs[k]);
      ProgressStep(dir, store, now, data[..], start, segs, k, pos, bytesIn, bytes, filled, out);
    }

    /** The body of the segment loop: `memcpy` of one segment into the store
        at byte offset `pos` for a write, out of it for a read. Returns the
        segment buffer's contents afterwards. */
    method TransferSegment(dir: Direction, pos: nat, seg: seq<Byte>) returns (out: seq<Byte>)
      requires pos + |seg| <= data.Length
      modifies data
      ensures dir == Write ==> data[..] == Splice(old(data[..]), pos, seg) && out == seg
      ensures dir == Read ==> data[..] == old(data[..]) && out == data[pos..pos + |seg|]
    {
      if dir == Write {
        forall i | 0 <= i < |seg| {
          data[pos + i] := seg[i];
        }
        SpliceAt(old(data[..]), pos, seg);
        assert data[..] == Splice(old(data[..]), pos, seg);
        out := seg;
      } else {
        out := data[pos..pos + |seg|];
      }
    }

    /** The queue handler: starts the request, runs the transfer with a
        fresh byte counter, and ends the request with BLK_STS_IOERR if the
        transfer reported failure and BLK_STS_OK otherwise; the transfer
        never fails, so the request always completes with BLK_STS_OK. */
    method QProcessing(rq: Request) returns (status: BlkStatus, filled: seq<seq<Byte>>)
      requires Valid() && InBounds(rq)
      modifies data
      ensures status == BlkStsOk
      ensures rq.dir == Write ==>
                data[..] == WriteSegments(old(data[..]), SectorOffset(rq.startSector), rq.segments) &&
                filled == rq.segments
      ensures rq.dir == Read ==>
                data[..] == old(data[..]) &&
                filled == ReadSegments(old(data[..]), SectorOffset(rq.startSector), rq.segments)
    {
      var bytes: U32 := 0;
      status := BlkStsOk;
      var ret;
      ret, bytes, filled := RqProcessing(rq, bytes);
      if ret != 0 {
        status := BlkStsIoErr;
      }
    }
  }

  /** A write request followed by a read request of the same sectors whose
      segments have the same lengths gives back the written segments, and
      both complete with BLK_STS_OK. */
  method WriteThenRead(dev: Device, startSector: nat, ws: seq<seq<Byte>>, rs: seq<seq<Byte>>)
    returns (written: BlkStatus, read: BlkStatus, got: seq<seq<Byte>>)
    requires dev.Valid() && dev.InBounds(Request(Write, startSector, ws))
    requires SameShape(rs, ws)
    modifies dev.data
    ensures written == BlkStsOk && read == BlkStsOk
    ensures got == ws
  {
    ghost var store := dev.data[..];
    var echoed;
    written, echoed := dev.QProcessing(Request(Write, startSector, ws));
    WriteThenReadSegments(store, SectorOffset(startSector), ws, rs);
    read, got := dev.QProcessing(Request(Read, startSector, rs));
  }
}
