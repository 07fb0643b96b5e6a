# test_blkdev data path in Dafny

This project models the data path of `test_blkdev`. That is a Linux kernel module presenting a RAM-backed block device of PAGE_SIZE sectors, 512 bytes each. The model covers three pieces:

- **`rq_processing`**: the per-request transfer loop. It converts the request's first sector into a byte offset `pos`. For each segment of the request, in order, it does one `memcpy`: into the store for a write, out of the store for a read. Then it advances `pos` and the caller's `unsigned int` byte counter by the segment's length.
- **`q_processing`**: the queue handler. It starts the request, runs the transfer with a counter starting at 0, and ends the request. The status is BLK_STS_IOERR if the transfer returned non-zero, BLK_STS_OK otherwise.
- **Device set-up arithmetic**: the capacity `(SECTOR_SIZE * PAGE_SIZE) >> SECTOR_SHIFT` and the size of the backing store, `capacity << SECTOR_SHIFT`.

The model is in three modules:

- `Sectors` (`sectors.dfy`): the constants SECTOR_SHIFT = 9 and SECTOR_SIZE = 512. The shifts are defined bit by bit, as doublings and halvings. Also here are the capacity and store size computed at set-up.
- `Segments` (`segments.dfy`): a value-level definition of what a request does to the store's bytes.
  - `SegmentOffset` gives where each segment lands.
  - `WriteSegments` gives the store after a write request.
  - `ReadSegments` gives what each segment buffer receives from a read request.
  - The lemmas state the properties of these definitions: contiguity, the frame, per-segment placement, and the write-then-read round trip.
- `BlkDev` (`blkdev.dfy`):
  - the device descriptor, as a class `Device` with `capacity` and the store `data: array<Byte>`;
  - the transfer loop `RqProcessing`, which works in place on that array and is proved against the `Segments` definitions;
  - the queue handler `QProcessing`;
  - the 32-bit wrap-around of the byte counter.

The transfer loop's invariant is the ghost predicate `Progress`. It says where `pos` is after k segments and what the counter holds. It also says that the store and the segment buffers are those of a transfer of the first k segments. `ProgressInit`, `ProgressStep` and `ProgressDone` establish it, keep it, and conclude from it.

Two behaviours of the code that the model keeps as they are:

- `rq_processing` has no bounds check and always returns 0, so BLK_STS_IOERR is never produced. The model therefore has no error path. A request must lie within the capacity the device announced, which is what the block layer guarantees (`Device.InBounds`). Under that condition, `QProcessing` is proved to always return `BlkStsOk`.
- The store is allocated with `kmalloc`, which does not clear memory. So the model assumes nothing about the store's initial contents.

## Model

| member | source | states |
|---|---|---|
| Sectors.ShiftLeft | test_blkdev.c:66 | `x << n` as n doublings: never smaller than `x`, and zero exactly when `x` is zero |
| Sectors.ShiftRight | test_blkdev.c:126 | `x >> n` as n halvings, each dropping the low bit: never larger than `x` |
| Sectors.ShiftLeftSectors | test_blkdev.c:8-15 | shifting a sector number left by SECTOR_SHIFT multiplies it by SECTOR_SIZE |
| Sectors.ShiftRightSectors | test_blkdev.c:8-15 | shifting a byte count right by SECTOR_SHIFT divides it by SECTOR_SIZE, dropping the remainder |
| Sectors.Capacity | test_blkdev.c:126 | the capacity `(SECTOR_SIZE * PAGE_SIZE) >> SECTOR_SHIFT` is exactly PAGE_SIZE sectors |
| Sectors.StoreSize | test_blkdev.c:129 | the store allocated for a capacity is capacity × 512 bytes and holds exactly capacity whole sectors |
| Sectors.SectorOffset | test_blkdev.c:66 | a request's starting byte offset is its first sector × 512, aligned to a sector boundary |
| Segments.TotalLength | test_blkdev.c:70-80 | the sum of the segments' `bv_len`, never less than the first segment's length |
| Segments.SegmentOffset | test_blkdev.c:66-79 | the running `pos` at segment k: never before the request's start, equal to it at the first segment, and equal to the start plus the total length once every segment is done (also for a request with no segments) |
| Segments.SegmentOffsetStep | test_blkdev.c:66-81 | the first segment starts at the request's start; segment k+1 starts right after segment k; after the last segment, `pos` is the start plus the total length |
| Segments.SegmentOffsetMonotone | test_blkdev.c:79 | `pos` only moves forward: an earlier segment's offset is never beyond a later one's |
| Segments.SameShapeSameTotal | test_blkdev.c:70-79 | two requests whose segments have pairwise equal lengths have the same total and place every segment at the same offset |
| Segments.Concat | test_blkdev.c:68-81 | the segments laid end to end are as long as the request's total length |
| Segments.ConcatSlice | test_blkdev.c:68-81 | in that concatenation, segment k occupies exactly its own offset range |
| Segments.Splice | test_blkdev.c:74 | one `memcpy` of a buffer into the store at an offset keeps the store's length |
| Segments.SpliceAt | test_blkdev.c:74 | one copy into the store sets exactly its byte range to the segment and leaves every other byte unchanged |
| Segments.SpliceAppend | test_blkdev.c:74-79 | two copies back to back, the second at the end of the first, equal one copy of both buffers joined |
| Segments.WriteSegments | test_blkdev.c:68-81 | the store after a write request, each segment copied in at the running `pos` in turn, keeps the store's length |
| Segments.WriteSegmentsIsContiguous | test_blkdev.c:68-81 | a write request leaves the store equal to the old store with all its segments, joined in order, copied in at the start offset |
| Segments.WriteSegmentsFrame | test_blkdev.c:73-74 | a write request changes no byte outside `[start, start + total length)` |
| Segments.WriteSegmentsAt | test_blkdev.c:66-79 | after a write request, segment k is in the store at the start plus the lengths of the segments before it |
| Segments.ReadSegments | test_blkdev.c:75-79 | what a read request's buffers receive: exactly one buffer per segment of the request |
| Segments.ReadSegmentsAt | test_blkdev.c:75-79 | in a read request, segment k receives the store's bytes at the start plus the lengths of the earlier segments, for its own length |
| Segments.ReadSegmentsAreContiguous | test_blkdev.c:68-81 | the segments of a read request, joined, are the store's bytes from the start offset for the total length |
| Segments.WriteThenReadSegments | test_blkdev.c:73-79 | reading back, with segments of the same lengths, what a write request stored returns exactly the written segments |
| Segments.WriteThenReadResplit | test_blkdev.c:73-79 | reading back the written range with any split into segments returns the written bytes, joined in order |
| Segments.TransferredStep | test_blkdev.c:73-79 | moving segment k at its offset extends a transfer of k segments to a transfer of k+1 segments, in both directions |
| BlkDev.Wrap32 | test_blkdev.c:80 | the conversion of the counter's new value to `unsigned int`: never larger than the exact value, and the exact value when it fits in 32 bits |
| BlkDev.Wrap32IsMod | test_blkdev.c:80 | the `unsigned int` counter's wrap-around is reduction modulo 2^32 |
| BlkDev.WrapAdd | test_blkdev.c:80 | adding segment lengths one at a time to the wrapped counter gives the same value as wrapping the exact sum once |
| BlkDev.ProgressInit | test_blkdev.c:66-68 | before the loop, `pos` is the request's start, the counter is unchanged, and nothing has moved |
| BlkDev.ProgressStep | test_blkdev.c:70-80 | one turn of the loop keeps the loop invariant, with `pos` and the counter both advanced by the segment's length |
| BlkDev.ProgressDone | test_blkdev.c:68-83 | after the last segment, the counter has grown by the total length (mod 2^32) and the store and buffers are those of the whole request |
| BlkDev.Device.InBounds | test_blkdev.c:66-81 | the block layer only hands over requests inside the announced capacity: such a request's first sector is at most the capacity, and below it when the request moves any bytes |
| BlkDev.Device.Init | test_blkdev.c:123-129 | a new device has capacity PAGE_SIZE sectors and a fresh store of capacity × 512 bytes |
| BlkDev.Device.RqProcessing | test_blkdev.c:61-84 | returns 0; the counter grows by the request's total length modulo 2^32; a write leaves the store as `WriteSegments` says and its buffers unchanged; a read leaves the store unchanged and fills its buffers as `ReadSegments` says |
| BlkDev.Device.CopySegment | test_blkdev.c:70-80 | one turn of the segment loop on the device keeps the loop invariant |
| BlkDev.Device.TransferSegment | test_blkdev.c:73-77 | a write copies the segment into the store at `pos` and changes nothing else; a read leaves the store unchanged and returns its bytes at `pos` |
| BlkDev.Device.QProcessing | test_blkdev.c:87-99 | every request completes with BLK_STS_OK (the IOERR branch cannot be reached), with the store and buffers as for `RqProcessing` |
| BlkDev.WriteThenRead | test_blkdev.c:87-99 | a write request followed by a read request of the same sectors and segment lengths both complete OK, and the read returns the written segments |

## Left out

- Registration with the block layer is not modelled: `register_blkdev`, the gendisk set-up, `set_capacity`, `add_disk`, module init and exit, and their teardown. These are kernel calls with no data-path logic.
- The request queue and tag set (`blk_mq_init_sq_queue`) are not modelled. Neither are `blk_mq_start_request` and `blk_mq_end_request`, beyond the status they carry. The kernel dispatches requests; `QProcessing` models one dispatch.
- `kmalloc` failure is not modelled. The code does not check for it, and the model assumes both allocations succeed.
- `page_address(bv_page) + bv_offset` and the segment iterator's internals are not modelled. A request is given as its segments in iteration order, each a byte sequence. So the model does not capture aliasing between a segment buffer and the store, or between two segment buffers. A read returns the buffers' new contents instead of writing through pointers.
- `blkdev_open`, `blkdev_release` and `printk` are not modelled; they only log.
- Concurrency between hardware queues is not modelled. Each request is processed alone.
- Sectors.Capacity: PAGE_SIZE is a parameter limited to 256 KiB. So the 64-bit `sector_t` and `loff_t` arithmetic never wraps, and the model does not state what happens when it would.
- RqProcessing: a request beyond the store is excluded by its precondition. The code would copy out of bounds, and the model gives no meaning to that.
