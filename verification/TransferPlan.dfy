/**
  The arithmetic of one READ or WRITE request: what `nvfs_io_init` accepts, how
  `nvfs_io_start_op` cuts the request into shadow-buffer chunks, and which GPU byte
  every byte of every chunk reaches.

  `Plan` lists the chunks a run issues while the file system keeps returning the full
  count. Any real run stops somewhere along that list (see the `Mgroup` module), so what is
  proved here about every chunk of `Plan` holds of every chunk ever issued.
*/
module TransferPlan {
  import opened Units

  // ---------------------------------------------------------------- mapped buffers

  /** A shadow buffer of `blocks` pages at `cpuBase`, mapped to `gpuLen` bytes of GPU memory. */
  datatype Buffer = Buffer(cpuBase: nat, blocks: nat, sbufBlocks: nat,
                           gpuvaddr: nat, gpuLen: nat, entries: nat)
  {
    function ShadowSize(): nat { blocks * PAGE }

    /** The address of the first mapped GPU page. */
    function GpuStart(): int { gpuvaddr - gpuvaddr % GPU_PAGE }
  }

  /** The length checks of `nvfs_mgroup_mmap_internal`. */
  predicate MmapAccepts(length: nat) {
    && length <= MAX_SHADOW_PAGES * PAGE
    && !(length < GPU_PAGE && length % PAGE != 0)
    && !(length > GPU_PAGE && length % GPU_PAGE != 0)
  }

  /** The size arithmetic of `nvfs_pin_gpu_pages`, on 64-bit addresses: the number of GPU
      pages asked of the peer-to-peer layer, or `None` where the mapping is refused. */
  function PinnedEntries(gpuvaddr: nat, gpuLen: nat, sbufBlocks: nat): Option<nat> {
    var start := gpuvaddr - gpuvaddr % GPU_PAGE;
    var end := (gpuvaddr + gpuLen - 1) % U64_LIMIT;
    if end < start then None
    else if gpuLen < GPU_PAGE && sbufBlocks * PAGE < gpuvaddr - start + gpuLen then None
    else Some(RoundUp((end - start + 1) % U64_LIMIT, GPU_PAGE) / GPU_PAGE)
  }

  /** A buffer that went through mmap and map, whose GPU range does not wrap 64 bits. */
  predicate Mapped(b: Buffer) {
    && b.blocks > 0 && MmapAccepts(b.ShadowSize())
    && b.cpuBase > 0 && b.cpuBase % PAGE == 0
    && b.sbufBlocks <= b.blocks
    && b.gpuvaddr + b.gpuLen < U64_LIMIT
    && PinnedEntries(b.gpuvaddr, b.gpuLen, b.sbufBlocks) == Some(b.entries)
  }

  // ---------------------------------------------------------------- requests

  datatype Request = Request(offset: int, size: nat, devptroff: nat, useRkeys: bool)

  /** Where the request starts, counted from the first mapped GPU page (a 64-bit sum). */
  function VaOffset(b: Buffer, r: Request): nat {
    (b.gpuvaddr % GPU_PAGE + r.devptroff) % U64_LIMIT
  }

  /** The checks of `nvfs_io_init` on the file range, and those on the GPU range. */
  predicate RangeAccepts(r: Request) {
    && r.offset >= 0
    && r.offset % PAGE == 0 && r.size % PAGE == 0
    && r.offset <= S64_MAX - r.size
  }

  predicate GpuAccepts(b: Buffer, r: Request) {
    && VaOffset(b, r) % PAGE == 0
    && r.size <= b.gpuLen && r.devptroff <= b.gpuLen - r.size
    && (var o := VaOffset(b, r) % GPU_PAGE; o == 0 || r.size <= GPU_PAGE - o)
  }

  predicate Accepts(b: Buffer, r: Request) {
    RangeAccepts(r) && GpuAccepts(b, r)
  }

  // ---------------------------------------------------------------- chunks

  /** The transfer loop's variables at the top of an iteration. */
  datatype Cursor = Cursor(done: nat, cpuvaddr: nat, gpuIndex: nat, gpuOffset: nat, segOffset: nat)

  /** What one accepted `nvfs_mgroup_fill_mpages` call hands to the file system. */
  datatype Chunk = Chunk(done: nat, fdOffset: int, cpuvaddr: nat, issued: nat,
                         gpuIndex: nat, gpuOffset: nat, segOffset: nat,
                         activeStart: nat, activeEnd: int)

  /** The cursor left by `nvfs_io_init`. */
  function First(b: Buffer, r: Request): Cursor
    requires b.blocks > 0
  {
    var va := VaOffset(b, r);
    Cursor(0, b.cpuBase, va / GPU_PAGE, va % GPU_PAGE,
           if r.useRkeys then va % b.ShadowSize() else 0)
  }

  /** Bytes issued in one iteration. */
  function Issued(b: Buffer, r: Request, c: Cursor): int {
    Min(r.size - c.done, b.ShadowSize() - c.segOffset)
  }

  /** The checks of `nvfs_mgroup_fill_mpages`. */
  predicate FillAccepts(blocks: nat, gpuOffset: nat, nr: nat) {
    && nr <= blocks
    && (gpuOffset != 0 ==>
          && gpuOffset <= GPU_PAGE - PAGE
          && gpuOffset % PAGE == 0
          && gpuOffset + nr * PAGE <= GPU_PAGE
          && gpuOffset / PAGE + nr <= blocks)
  }

  /** The chunk issued at cursor `c`; the shadow address moves up to the first active block. */
  function ChunkAt(b: Buffer, r: Request, c: Cursor): Chunk
    requires Issued(b, r, c) >= 0
  {
    var nr := DivUp(Issued(b, r, c), PAGE);
    var start := c.gpuOffset / PAGE;
    Chunk(c.done, r.offset + c.done, c.cpuvaddr + start * PAGE, Issued(b, r, c),
          c.gpuIndex, c.gpuOffset, c.segOffset,
          start, if start + nr > 0 then start + nr - 1 else 0)
  }

  /** The cursor of the next iteration, after a chunk that completed in full. */
  function Advance(b: Buffer, r: Request, c: Cursor): Cursor
    requires Issued(b, r, c) >= 0
  {
    var va := c.gpuOffset + Issued(b, r, c);
    Cursor(c.done + Issued(b, r, c), ChunkAt(b, r, c).cpuvaddr,
           c.gpuIndex + va / GPU_PAGE, va % GPU_PAGE, 0)
  }

  /** Loop invariant of the transfer: the GPU cursor stands exactly `done` bytes into the request. */
  predicate OnTrack(b: Buffer, r: Request, c: Cursor) {
    && c.done <= r.size
    && c.done % PAGE == 0 && c.gpuOffset % PAGE == 0 && c.segOffset % PAGE == 0
    && c.gpuOffset < GPU_PAGE
    && c.segOffset < b.ShadowSize()
    && c.gpuIndex * GPU_PAGE + c.gpuOffset == b.gpuvaddr % GPU_PAGE + r.devptroff + c.done
  }

  /** Every chunk issued is a positive whole number of pages, so the alignment assertion on
      `bytes_issued` never fires. */
  lemma IssuedWholePages(b: Buffer, r: Request, c: Cursor)
    requires r.size % PAGE == 0 && OnTrack(b, r, c) && c.done < r.size
    ensures 0 < Issued(b, r, c) <= r.size - c.done && Issued(b, r, c) % PAGE == 0
    ensures DivUp(Issued(b, r, c), PAGE) * PAGE == Issued(b, r, c)
  {
    WholeDifference(r.size, c.done);
    WholeDifference(b.blocks * PAGE, c.segOffset);
  }

  lemma WholeDifference(x: nat, y: nat)
    requires x % PAGE == 0 && y % PAGE == 0
    ensures (x - y) % PAGE == 0 && (x + y) % PAGE == 0
  {
    var p, q := x / PAGE, y / PAGE;
    assert x - y == (p - q) * PAGE && x + y == (p + q) * PAGE;
  }

  /** A full chunk preserves the invariant. */
  lemma AdvanceOnTrack(b: Buffer, r: Request, c: Cursor)
    requires r.size % PAGE == 0 && OnTrack(b, r, c) && c.done < r.size
    ensures Issued(b, r, c) > 0
    ensures OnTrack(b, r, Advance(b, r, c))
    ensures Advance(b, r, c).done > c.done
  {
    IssuedWholePages(b, r, c);
    hide Issued;
    WholeDifference(c.done, Issued(b, r, c));
    WholeDifference(c.gpuOffset, Issued(b, r, c));
    CarryIntoIndex(c.gpuIndex, c.gpuOffset + Issued(b, r, c));
  }

  /** Carrying whole GPU pages from the offset into the index moves no byte. */
  lemma CarryIntoIndex(index: nat, va: nat)
    ensures (index + va / GPU_PAGE) * GPU_PAGE + va % GPU_PAGE == index * GPU_PAGE + va
    ensures va % PAGE == 0 ==> va % GPU_PAGE % PAGE == 0
  {
  }

  /** The chunks issued from cursor `c` on while every chunk completes in full and until
      either the request is done or fill rejects one. */
  function PlanFrom(b: Buffer, r: Request, c: Cursor): seq<Chunk>
    requires r.size % PAGE == 0 && OnTrack(b, r, c)
    decreases r.size - c.done
  {
    if c.done == r.size then []
    else
      AdvanceOnTrack(b, r, c);
      if !FillAccepts(b.blocks, c.gpuOffset, DivUp(Issued(b, r, c), PAGE)) then []
      else [ChunkAt(b, r, c)] + PlanFrom(b, r, Advance(b, r, c))
  }

  lemma PlanDone(b: Buffer, r: Request, c: Cursor)
    requires r.size % PAGE == 0 && OnTrack(b, r, c) && c.done == r.size
    ensures PlanFrom(b, r, c) == []
  {
  }

  /** One iteration of the plan. */
  lemma PlanStep(b: Buffer, r: Request, c: Cursor)
    requires r.size % PAGE == 0 && OnTrack(b, r, c) && c.done < r.size
    ensures Issued(b, r, c) > 0 && OnTrack(b, r, Advance(b, r, c))
    ensures PlanFrom(b, r, c)
            == if FillAccepts(b.blocks, c.gpuOffset, DivUp(Issued(b, r, c), PAGE))
               then [ChunkAt(b, r, c)] + PlanFrom(b, r, Advance(b, r, c)) else []
  {
    AdvanceOnTrack(b, r, c);
  }

  /** An accepted request starts where its 64-bit sum says, without wrapping. */
  lemma VaOffsetExact(b: Buffer, r: Request)
    requires b.gpuvaddr + b.gpuLen < U64_LIMIT && r.size <= b.gpuLen && r.devptroff <= b.gpuLen - r.size
    ensures VaOffset(b, r) == b.gpuvaddr % GPU_PAGE + r.devptroff
  {
  }

  lemma SegmentOffsetAligned(va: nat, blocks: nat)
    requires blocks > 0 && va % PAGE == 0
    ensures va % (blocks * PAGE) < blocks * PAGE
    ensures va % (blocks * PAGE) % PAGE == 0
  {
    ModOfMultiple(va, blocks * PAGE, PAGE);
  }

  /** `nvfs_io_init` establishes the invariant. */
  lemma FirstOnTrack(b: Buffer, r: Request)
    requires b.blocks > 0 && b.gpuvaddr + b.gpuLen < U64_LIMIT && Accepts(b, r)
    ensures OnTrack(b, r, First(b, r))
  {
    VaOffsetExact(b, r);
    var va := VaOffset(b, r);
    SegmentOffsetAligned(va, b.blocks);
    CarryIntoIndex(0, va);
    var seg := if r.useRkeys then va % b.ShadowSize() else 0;
    assert First(b, r) == Cursor(0, b.cpuBase, va / GPU_PAGE, va % GPU_PAGE, seg);
  }

  function Plan(b: Buffer, r: Request): seq<Chunk>
    requires Mapped(b) && Accepts(b, r)
  {
    FirstOnTrack(b, r);
    PlanFrom(b, r, First(b, r))
  }

  /** Bytes covered by a list of chunks. */
  function Total(plan: seq<Chunk>): nat {
    if |plan| == 0 then 0 else plan[0].issued + Total(plan[1..])
  }

  function LastIssued(plan: seq<Chunk>): nat {
    if |plan| == 0 then 0 else plan[|plan| - 1].issued
  }

  lemma {:induction false} TotalAppend(plan: seq<Chunk>, ch: Chunk)
    ensures Total(plan + [ch]) == Total(plan) + ch.issued
  {
    if |plan| == 0 {
      assert (plan + [ch])[1..] == [];
    } else {
      assert (plan + [ch])[1..] == plan[1..] + [ch];
      TotalAppend(plan[1..], ch);
    }
  }
}
