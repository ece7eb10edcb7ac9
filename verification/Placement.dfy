/**
  Where the bytes go: every chunk of a transfer reaches the GPU bytes the request named,
  the RDMA window describes the same range, every GPU page index is inside the page table,
  and exactly which requests run to completion.
*/
module Placement {
  import opened Units
  import opened TransferPlan

  /** A GPU page and the 4 KiB-aligned offset inside it. */
  datatype GpuPlace = GpuPlace(index: nat, offset: nat)

  /** `nvfs_mgroup_get_gpu_index_and_off`: the GPU page and offset behind shadow page `page`. */
  function GpuPlaceOfPage(curGpuBaseIndex: nat, page: nat): (g: GpuPlace)
    ensures g.index * GPU_PAGE + g.offset == curGpuBaseIndex * GPU_PAGE + page * PAGE
    ensures g.offset <= GPU_PAGE - PAGE
  {
    GpuPlace(curGpuBaseIndex + page / PAGES_PER_GPU_PAGE, page % PAGES_PER_GPU_PAGE * PAGE)
  }

  /** The shadow page that holds user address `va`. */
  function PageOf(b: Buffer, va: nat): nat
    requires va >= b.cpuBase
  {
    (va - b.cpuBase) / PAGE
  }

  /** The GPU virtual address that user address `va` stands for while `ch` is active. */
  function GpuByte(b: Buffer, ch: Chunk, va: nat): int
    requires va >= b.cpuBase
  {
    var g := GpuPlaceOfPage(ch.gpuIndex, PageOf(b, va));
    b.GpuStart() + g.index * GPU_PAGE + g.offset + (va - b.cpuBase) % PAGE
  }

  /** The byte at user address `va = cpuvaddr + k`, which carries file byte `fdOffset + k`,
      lies in an active block and stands for the GPU byte the request asked for. */
  predicate WellPlaced(b: Buffer, r: Request, ch: Chunk) {
    && ch.cpuvaddr >= b.cpuBase
    && ch.fdOffset == r.offset + ch.done
    && forall va | ch.cpuvaddr <= va < ch.cpuvaddr + ch.issued ::
         && ch.activeStart <= PageOf(b, va) <= ch.activeEnd
         && GpuByte(b, ch, va) == b.gpuvaddr + r.devptroff + ch.done + (va - ch.cpuvaddr)
  }

  /** Translation through pages is plain displacement from the start of the shadow buffer. */
  lemma GpuByteIsDisplacement(b: Buffer, ch: Chunk, va: nat)
    requires va >= b.cpuBase
    ensures GpuByte(b, ch, va) == b.GpuStart() + ch.gpuIndex * GPU_PAGE + (va - b.cpuBase)
  {
  }

  /** A chunk issued with no stale displacement in the user address is well placed. */
  lemma FreshChunkWellPlaced(b: Buffer, r: Request, c: Cursor)
    requires r.size % PAGE == 0 && OnTrack(b, r, c) && c.done < r.size && b.cpuBase % PAGE == 0
    requires c.cpuvaddr == b.cpuBase
    ensures Issued(b, r, c) > 0 && WellPlaced(b, r, ChunkAt(b, r, c))
  {
    IssuedWholePages(b, r, c);
    var ch := ChunkAt(b, r, c);
    var nr := DivUp(Issued(b, r, c), PAGE);
    forall va | ch.cpuvaddr <= va < ch.cpuvaddr + ch.issued
      ensures ch.activeStart <= PageOf(b, va) <= ch.activeEnd
      ensures GpuByte(b, ch, va) == b.gpuvaddr + r.devptroff + ch.done + (va - ch.cpuvaddr)
    {
      GpuByteIsDisplacement(b, ch, va);
      PageInRun(ch.activeStart, nr, va - ch.cpuvaddr);
    }
  }

  /** The page of a byte `k` places into a run of whole pages lies in that run. */
  lemma PageInRun(start: nat, nr: nat, k: nat)
    requires k < nr * PAGE
    ensures start <= (start * PAGE + k) / PAGE <= start + nr - 1
  {
  }

  /** A chunk issued with a stale displacement is misplaced from its first byte on. */
  lemma StaleChunkMisplaced(b: Buffer, r: Request, c: Cursor)
    requires r.size % PAGE == 0 && OnTrack(b, r, c) && c.done < r.size && b.cpuBase % PAGE == 0
    requires c.cpuvaddr > b.cpuBase
    ensures Issued(b, r, c) > 0 && !WellPlaced(b, r, ChunkAt(b, r, c))
  {
    IssuedWholePages(b, r, c);
    var ch := ChunkAt(b, r, c);
    GpuByteIsDisplacement(b, ch, ch.cpuvaddr);
  }

  // ------------------------------------------------- shadow buffers of whole GPU pages

  /** What the cursor satisfies when the shadow buffer is a whole number of GPU pages: it has
      no stale displacement, and either stands on a GPU page boundary or the rest of the
      request fits in the current GPU page. */
  predicate Smooth(b: Buffer, r: Request, c: Cursor) {
    && c.cpuvaddr == b.cpuBase
    && (c.gpuOffset == 0 ==> c.segOffset % GPU_PAGE == 0)
    && (c.gpuOffset != 0 ==>
          && r.size - c.done <= GPU_PAGE - c.gpuOffset
          && r.size - c.done <= b.ShadowSize() - c.segOffset)
  }

  lemma SmoothAccepted(b: Buffer, r: Request, c: Cursor)
    requires r.size % PAGE == 0 && OnTrack(b, r, c) && c.done < r.size
    requires b.blocks > 0 && b.ShadowSize() % GPU_PAGE == 0 && Smooth(b, r, c)
    ensures Issued(b, r, c) > 0
    ensures FillAccepts(b.blocks, c.gpuOffset, DivUp(Issued(b, r, c), PAGE))
  {
    IssuedWholePages(b, r, c);
    assert b.ShadowSize() >= GPU_PAGE;
  }

  lemma SmoothAdvance(b: Buffer, r: Request, c: Cursor)
    requires r.size % PAGE == 0 && OnTrack(b, r, c) && c.done < r.size
    requires b.blocks > 0 && b.ShadowSize() % GPU_PAGE == 0 && Smooth(b, r, c)
    ensures Issued(b, r, c) > 0
    ensures Advance(b, r, c).done == r.size || Smooth(b, r, Advance(b, r, c))
    ensures Advance(b, r, c).done != r.size ==> c.gpuOffset == 0 && Advance(b, r, c).gpuOffset == 0
  {
    IssuedWholePages(b, r, c);
    if c.done + Issued(b, r, c) != r.size {
      assert c.gpuOffset == 0;
      assert Issued(b, r, c) == b.ShadowSize() - c.segOffset;
      WholePagesLeft(b.ShadowSize(), c.segOffset);
    }
  }

  lemma WholePagesLeft(x: nat, y: nat)
    requires x % GPU_PAGE == 0 && y % GPU_PAGE == 0
    ensures (x - y) % GPU_PAGE == 0
  {
    assert x - y == (x / GPU_PAGE - y / GPU_PAGE) * GPU_PAGE;
  }

  /** From a smooth cursor every chunk is accepted and well placed, and the plan reaches the
      end of the request. */
  lemma {:induction false} SmoothPlan(b: Buffer, r: Request, c: Cursor)
    requires r.size % PAGE == 0 && OnTrack(b, r, c) && b.cpuBase % PAGE == 0
    requires b.blocks > 0 && b.ShadowSize() % GPU_PAGE == 0
    requires c.done == r.size || Smooth(b, r, c)
    ensures forall ch | ch in PlanFrom(b, r, c) :: WellPlaced(b, r, ch)
    ensures Total(PlanFrom(b, r, c)) == r.size - c.done
    decreases r.size - c.done
  {
    if c.done < r.size {
      FreshChunkWellPlaced(b, r, c);
      SmoothAccepted(b, r, c);
      SmoothAdvance(b, r, c);
      AdvanceOnTrack(b, r, c);
      var rest := PlanFrom(b, r, Advance(b, r, c));
      SmoothPlan(b, r, Advance(b, r, c));
      assert PlanFrom(b, r, c) == [ChunkAt(b, r, c)] + rest;
      assert PlanFrom(b, r, c)[1..] == rest;
    }
  }

  /** The first cursor of an accepted request is smooth. */
  lemma FirstSmooth(b: Buffer, r: Request)
    requires b.blocks > 0 && b.gpuvaddr + b.gpuLen < U64_LIMIT && Accepts(b, r)
    requires b.ShadowSize() % GPU_PAGE == 0
    ensures Smooth(b, r, First(b, r))
  {
    var va := VaOffset(b, r);
    if r.useRkeys {
      ModOfMultiple(va, b.ShadowSize(), GPU_PAGE);
      RoomToPageEnd(va % b.ShadowSize(), b.ShadowSize());
    } else {
      assert b.ShadowSize() >= GPU_PAGE;
    }
  }

  /** Inside a whole number of GPU pages there is room up to the next page boundary. */
  lemma RoomToPageEnd(x: nat, size: nat)
    requires x < size && size % GPU_PAGE == 0
    ensures size - x >= GPU_PAGE - x % GPU_PAGE
  {
  }

  // ------------------------------------------------- shadow buffers below one GPU page

  /** With a shadow buffer below one GPU page, the first chunk is accepted exactly when it
      ends inside the shadow buffer. */
  lemma SmallFirst(b: Buffer, r: Request, c: Cursor)
    requires r.size % PAGE == 0 && OnTrack(b, r, c) && c.done == 0 < r.size
    requires b.ShadowSize() < GPU_PAGE
    requires c.gpuOffset == 0 || r.size <= GPU_PAGE - c.gpuOffset
    ensures Issued(b, r, c) > 0
    ensures FillAccepts(b.blocks, c.gpuOffset, DivUp(Issued(b, r, c), PAGE))
            <==> c.gpuOffset + Issued(b, r, c) <= b.ShadowSize()
  {
    IssuedWholePages(b, r, c);
  }

  /** A second chunk is accepted exactly when the whole request ends inside the shadow
      buffer; it is then the last one. */
  lemma SmallSecond(b: Buffer, r: Request, c: Cursor)
    requires r.size % PAGE == 0 && OnTrack(b, r, c) && c.done == 0
    requires b.ShadowSize() < GPU_PAGE
    requires c.gpuOffset == 0 || r.size <= GPU_PAGE - c.gpuOffset
    requires b.ShadowSize() - c.segOffset < r.size
    ensures Issued(b, r, c) == b.ShadowSize() - c.segOffset > 0
    ensures var c' := Advance(b, r, c);
            && OnTrack(b, r, c')
            && c'.gpuOffset == c.gpuOffset + Issued(b, r, c) > 0
            && c'.cpuvaddr == c.cpuvaddr + c.gpuOffset
            && 0 < c'.done < r.size
            && Issued(b, r, c') > 0
            && (FillAccepts(b.blocks, c'.gpuOffset, DivUp(Issued(b, r, c'), PAGE))
                <==> c.gpuOffset + r.size <= b.ShadowSize())
            && (c.gpuOffset + r.size <= b.ShadowSize() ==> Advance(b, r, c').done == r.size)
  {
    IssuedWholePages(b, r, c);
    AdvanceOnTrack(b, r, c);
    IssuedWholePages(b, r, Advance(b, r, c));
  }

  /** The requests whose second chunk carries a stale displacement: an unaligned start, a
      first chunk cut short by the RDMA segment, and an end inside the shadow buffer. */
  predicate Misplaces(b: Buffer, r: Request)
    requires b.blocks > 0
  {
    var c := First(b, r);
    && c.gpuOffset > 0
    && r.size > b.ShadowSize() - c.segOffset
    && c.gpuOffset + r.size <= b.ShadowSize()
  }

  /** The plan of a request on a shadow buffer below one GPU page, chunk by chunk. */
  lemma SmallPlan(b: Buffer, r: Request, c: Cursor)
    requires r.size % PAGE == 0 && OnTrack(b, r, c) && c.done == 0 < r.size
    requires b.ShadowSize() < GPU_PAGE && b.cpuBase % PAGE == 0 && c.cpuvaddr == b.cpuBase
    requires c.gpuOffset == 0 || r.size <= GPU_PAGE - c.gpuOffset
    ensures Total(PlanFrom(b, r, c)) == r.size <==> c.gpuOffset + r.size <= b.ShadowSize()
    ensures (forall ch | ch in PlanFrom(b, r, c) :: WellPlaced(b, r, ch))
            <==> !(c.gpuOffset > 0 && r.size > b.ShadowSize() - c.segOffset
                   && c.gpuOffset + r.size <= b.ShadowSize())
  {
    FreshChunkWellPlaced(b, r, c);
    SmallFirst(b, r, c);
    AdvanceOnTrack(b, r, c);
    var plan, c1 := PlanFrom(b, r, c), Advance(b, r, c);
    if c.gpuOffset + Issued(b, r, c) > b.ShadowSize() {
      assert plan == [];
    } else {
      var rest := PlanFrom(b, r, c1);
      assert plan == [ChunkAt(b, r, c)] + rest && plan[1..] == rest;
      if r.size <= b.ShadowSize() - c.segOffset {
        assert rest == [];
      } else {
        SmallRest(b, r, c, rest);
      }
    }
  }

  /** What follows the first chunk: nothing, or one last chunk that is stale exactly when the
      first one started past a GPU page boundary. */
  lemma SmallRest(b: Buffer, r: Request, c: Cursor, rest: seq<Chunk>)
    requires r.size % PAGE == 0 && OnTrack(b, r, c) && c.done == 0
    requires b.ShadowSize() < GPU_PAGE && b.cpuBase % PAGE == 0 && c.cpuvaddr == b.cpuBase
    requires c.gpuOffset == 0 || r.size <= GPU_PAGE - c.gpuOffset
    requires b.ShadowSize() - c.segOffset < r.size
    requires Issued(b, r, c) > 0 && OnTrack(b, r, Advance(b, r, c))
    requires rest == PlanFrom(b, r, Advance(b, r, c))
    ensures c.gpuOffset + r.size > b.ShadowSize() ==> rest == []
    ensures c.gpuOffset + r.size <= b.ShadowSize() ==>
              && |rest| == 1 && Total(rest) == r.size - Issued(b, r, c)
              && (WellPlaced(b, r, rest[0]) <==> c.gpuOffset == 0)
  {
    SmallSecond(b, r, c);
    var c1 := Advance(b, r, c);
    if c.gpuOffset + r.size <= b.ShadowSize() {
      AdvanceOnTrack(b, r, c1);
      assert PlanFrom(b, r, Advance(b, r, c1)) == [];
      assert rest == [ChunkAt(b, r, c1)] && rest[1..] == [];
      if c.gpuOffset == 0 {
        FreshChunkWellPlaced(b, r, c1);
      } else {
        StaleChunkMisplaced(b, r, c1);
      }
    }
  }

  // ------------------------------------------------- the theorems

  /** End-to-end placement: every chunk of an accepted request puts every file byte at the GPU
      byte the request named, except for exactly the requests in `Misplaces`. */
  lemma PlacementExact(b: Buffer, r: Request)
    requires Mapped(b) && Accepts(b, r)
    ensures (forall ch | ch in Plan(b, r) :: WellPlaced(b, r, ch)) <==> !Misplaces(b, r)
  {
    var c := First(b, r);
    FirstOnTrack(b, r);
    if b.ShadowSize() % GPU_PAGE == 0 {
      FirstSmooth(b, r);
      SmoothPlan(b, r, c);
    } else if r.size > 0 {
      SmallPlan(b, r, c);
    }
  }

  /** Without RDMA keys, or with a shadow buffer of whole GPU pages, nothing is misplaced. */
  lemma MisplacesOnlySmallRdma(b: Buffer, r: Request)
    requires Mapped(b) && Accepts(b, r)
    ensures Misplaces(b, r) ==> r.useRkeys && b.ShadowSize() < GPU_PAGE
  {
    FirstOnTrack(b, r);
    if b.ShadowSize() % GPU_PAGE == 0 {
      FirstSmooth(b, r);
    }
  }

  /** A request is carried to its end, given a file system that always returns the full count,
      exactly when the shadow buffer is whole GPU pages or the request ends inside it. */
  lemma CompletesExactly(b: Buffer, r: Request)
    requires Mapped(b) && Accepts(b, r)
    ensures Total(Plan(b, r)) == r.size
            <==> || b.ShadowSize() % GPU_PAGE == 0
                 || r.size == 0
                 || First(b, r).gpuOffset + r.size <= b.ShadowSize()
  {
    var c := First(b, r);
    FirstOnTrack(b, r);
    if b.ShadowSize() % GPU_PAGE == 0 {
      FirstSmooth(b, r);
      SmoothPlan(b, r, c);
    } else if r.size > 0 {
      SmallPlan(b, r, c);
    }
  }

  /** A request that hits the stale displacement: 24 KiB of shadow buffer, RDMA keys, a start
      4 KiB into the second GPU page. One of its chunks is misplaced. */
  lemma MisplacedRequest(b: Buffer, r: Request)
    requires b == Buffer(PAGE, 6, 6, 0, 2 * GPU_PAGE, 2)
    requires r == Request(0, 2 * PAGE, GPU_PAGE + PAGE, true)
    ensures Mapped(b) && Accepts(b, r)
    ensures exists ch :: ch in Plan(b, r) && !WellPlaced(b, r, ch)
  {
    assert Mapped(b) && Accepts(b, r) && Misplaces(b, r);
    PlacementExact(b, r);
  }

  /** Facts about a single chunk of a plan. */
  predicate Sound(b: Buffer, r: Request, ch: Chunk) {
    && ch.issued > 0 && ch.done + ch.issued <= r.size
    && ch.issued + ch.segOffset <= b.ShadowSize()
    && ch.gpuIndex * GPU_PAGE + ch.gpuOffset == b.gpuvaddr % GPU_PAGE + r.devptroff + ch.done
    && ch.activeStart * PAGE == ch.gpuOffset
    && (ch.activeEnd - ch.activeStart + 1) * PAGE == ch.issued
    && ch.activeEnd < b.blocks
  }

  lemma ChunkSound(b: Buffer, r: Request, c: Cursor)
    requires r.size % PAGE == 0 && OnTrack(b, r, c) && c.done < r.size
    requires Issued(b, r, c) >= 0 && FillAccepts(b.blocks, c.gpuOffset, DivUp(Issued(b, r, c), PAGE))
    ensures Sound(b, r, ChunkAt(b, r, c))
  {
    IssuedWholePages(b, r, c);
  }

  lemma {:induction false} PlanSound(b: Buffer, r: Request, c: Cursor)
    requires r.size % PAGE == 0 && OnTrack(b, r, c)
    ensures forall ch | ch in PlanFrom(b, r, c) :: Sound(b, r, ch)
    decreases r.size - c.done
  {
    if c.done < r.size {
      AdvanceOnTrack(b, r, c);
      if FillAccepts(b.blocks, c.gpuOffset, DivUp(Issued(b, r, c), PAGE)) {
        ChunkSound(b, r, c);
        PlanSound(b, r, Advance(b, r, c));
      }
    }
  }

  /** The remote address and size that `nvfs_get_gpu_sglist_rdma_info` reports. */
  datatype RdmaWindow = RdmaWindow(remVaddr: int, size: int)

  /** The window computed from the registered GPU address while `ch` is active. */
  function RdmaWindowOf(b: Buffer, ch: Chunk): RdmaWindow {
    RdmaWindow(b.gpuvaddr - b.gpuvaddr % GPU_PAGE + ch.gpuIndex * GPU_PAGE + ch.gpuOffset,
               (ch.activeEnd - ch.activeStart + 1) * PAGE)
  }

  /** The RDMA window of every issued chunk is the GPU range the request asked for, and the
      size check never rejects it. */
  lemma RdmaWindowAgrees(b: Buffer, r: Request, ch: Chunk)
    requires Mapped(b) && Accepts(b, r) && ch in Plan(b, r)
    ensures RdmaWindowOf(b, ch).remVaddr == b.gpuvaddr + r.devptroff + ch.done
    ensures 0 < RdmaWindowOf(b, ch).size == ch.issued <= b.ShadowSize() - ch.segOffset
  {
    FirstOnTrack(b, r);
    PlanSound(b, r, First(b, r));
  }

  /** A shadow buffer has up to 16 pages, or up to 256 whole GPU pages. */
  lemma MmapExactly(length: nat)
    ensures MmapAccepts(length) <==>
              (exists k: nat :: k <= 16 && length == k * PAGE) || (exists k: nat :: k <= 256 && length == k * GPU_PAGE)
  {
    if MmapAccepts(length) {
      if length <= GPU_PAGE {
        assert length == (length / PAGE) * PAGE;
      } else {
        assert length == (length / GPU_PAGE) * GPU_PAGE;
      }
    }
  }

  /** A mapping of a GPU range that does not wrap is refused exactly if the range is empty and
      starts a GPU page other than the first, or is smaller than a GPU page and ends past the
      shadow buffer laid over its first GPU page; otherwise the page table asked for is the smallest that covers it. */
  lemma PinnedExactly(gpuvaddr: nat, gpuLen: nat, sbufBlocks: nat)
    requires gpuvaddr + gpuLen < U64_LIMIT
    ensures var into, entries := gpuvaddr % GPU_PAGE, PinnedEntries(gpuvaddr, gpuLen, sbufBlocks);
            && (entries.None? <==>
                  || (gpuLen == 0 && into == 0 && gpuvaddr > 0)
                  || (gpuLen < GPU_PAGE && sbufBlocks * PAGE < into + gpuLen))
            && (entries.Some? ==> entries.value * GPU_PAGE - GPU_PAGE < into + gpuLen <= entries.value * GPU_PAGE)
  {
    if gpuvaddr + gpuLen > 0 {
      assert (gpuvaddr + gpuLen - 1) % U64_LIMIT == gpuvaddr + gpuLen - 1;
    }
  }

  /** The page table covers the whole GPU buffer. */
  lemma EntriesCover(b: Buffer)
    requires b.gpuLen > 0 && b.gpuvaddr + b.gpuLen < U64_LIMIT
    requires PinnedEntries(b.gpuvaddr, b.gpuLen, b.sbufBlocks) == Some(b.entries)
    ensures b.gpuvaddr % GPU_PAGE + b.gpuLen <= b.entries * GPU_PAGE
  {
    assert (b.gpuvaddr + b.gpuLen - 1) % U64_LIMIT == b.gpuvaddr + b.gpuLen - 1;
  }

  /** In bounds: every GPU page index computed for an active block of any chunk is a valid
      page-table index. */
  lemma ActiveBlocksInBounds(b: Buffer, r: Request, ch: Chunk, page: nat)
    requires Mapped(b) && Accepts(b, r) && ch in Plan(b, r)
    requires ch.activeStart <= page <= ch.activeEnd
    ensures GpuPlaceOfPage(ch.gpuIndex, page).index < b.entries
  {
    FirstOnTrack(b, r);
    PlanSound(b, r, First(b, r));
    EntriesCover(b);
    IndexBelow(b, r, ch, page);
  }

  lemma IndexBelow(b: Buffer, r: Request, ch: Chunk, page: nat)
    requires Sound(b, r, ch) && ch.activeStart <= page <= ch.activeEnd
    requires r.size <= b.gpuLen && r.devptroff <= b.gpuLen - r.size
    requires b.gpuvaddr % GPU_PAGE + b.gpuLen <= b.entries * GPU_PAGE
    ensures GpuPlaceOfPage(ch.gpuIndex, page).index < b.entries
  {
    var g := GpuPlaceOfPage(ch.gpuIndex, page);
    assert g.index * GPU_PAGE + g.offset < b.gpuvaddr % GPU_PAGE + b.gpuLen;
  }

  /** The chunk hands out the user address of its first active block. */
  predicate Addressed(b: Buffer, ch: Chunk) {
    ch.cpuvaddr == b.cpuBase + ch.activeStart * PAGE
  }

  lemma WellPlacedAddressed(b: Buffer, r: Request, ch: Chunk)
    requires WellPlaced(b, r, ch) && Sound(b, r, ch)
    ensures Addressed(b, ch)
  {
    GpuByteIsDisplacement(b, ch, ch.cpuvaddr);
  }

  lemma PlannedAddresses(b: Buffer, r: Request)
    requires Mapped(b) && Accepts(b, r) && !Misplaces(b, r)
    ensures forall ch | ch in Plan(b, r) :: Addressed(b, ch)
  {
    FirstOnTrack(b, r);
    PlanSound(b, r, First(b, r));
    PlacementExact(b, r);
    forall ch | ch in Plan(b, r) ensures Addressed(b, ch) {
      WellPlacedAddressed(b, r, ch);
    }
  }

  // ------------------------------------------------- chunks that share blocks

  /** The active blocks of two chunks have a block in common. */
  predicate Meets(ch: Chunk, next: Chunk) {
    ch.activeStart <= next.activeEnd && next.activeStart <= ch.activeEnd
  }

  /** With whole GPU pages, a chunk that is not the last fills the shadow buffer from a GPU page
      boundary on, and so does the next. */
  lemma SmoothMeets(b: Buffer, r: Request, c: Cursor)
    requires r.size % PAGE == 0 && OnTrack(b, r, c) && c.done < r.size
    requires b.blocks > 0 && b.ShadowSize() % GPU_PAGE == 0 && Smooth(b, r, c)
    requires Issued(b, r, c) > 0 && OnTrack(b, r, Advance(b, r, c)) && Advance(b, r, c).done < r.size
    ensures Issued(b, r, Advance(b, r, c)) > 0
    ensures Meets(ChunkAt(b, r, c), ChunkAt(b, r, Advance(b, r, c)))
  {
    SmoothAdvance(b, r, c);
    IssuedWholePages(b, r, Advance(b, r, c));
    hide Issued, Advance;
  }

  lemma {:induction false} SmoothPlanMeets(b: Buffer, r: Request, c: Cursor, n: nat)
    requires r.size % PAGE == 0 && OnTrack(b, r, c)
    requires b.blocks > 0 && b.ShadowSize() % GPU_PAGE == 0
    requires c.done == r.size || Smooth(b, r, c)
    requires 0 < n < |PlanFrom(b, r, c)|
    ensures Meets(PlanFrom(b, r, c)[n - 1], PlanFrom(b, r, c)[n])
    decreases n
  {
    PlanStep(b, r, c);
    SmoothAdvance(b, r, c);
    var c1 := Advance(b, r, c);
    if c1.done == r.size { PlanDone(b, r, c1); }
    if n == 1 {
      PlanStep(b, r, c1);
      SmoothMeets(b, r, c);
    } else {
      SmoothPlanMeets(b, r, c1, n - 1);
    }
  }

  /** Below one GPU page there are at most two chunks, and the second follows the first. */
  lemma SmallPlanApart(b: Buffer, r: Request, c: Cursor, n: nat)
    requires r.size % PAGE == 0 && OnTrack(b, r, c) && c.done == 0
    requires b.ShadowSize() < GPU_PAGE && b.cpuBase % PAGE == 0 && c.cpuvaddr == b.cpuBase
    requires c.gpuOffset == 0 || r.size <= GPU_PAGE - c.gpuOffset
    requires 0 < n < |PlanFrom(b, r, c)|
    ensures !Meets(PlanFrom(b, r, c)[n - 1], PlanFrom(b, r, c)[n])
  {
    IssuedWholePages(b, r, c);
    PlanStep(b, r, c);
    var c1 := Advance(b, r, c);
    if r.size <= b.ShadowSize() - c.segOffset {
      PlanDone(b, r, c1);
      assert false;
    } else {
      SmallSecond(b, r, c);
      SmallRest(b, r, c, PlanFrom(b, r, c1));
      PlanStep(b, r, c1);
    }
  }

  /** Consecutive chunks of a request share blocks exactly when the shadow buffer is whole GPU
      pages. */
  lemma ChunksMeetExactly(b: Buffer, r: Request, n: nat)
    requires Mapped(b) && Accepts(b, r)
    ensures 0 < n < |Plan(b, r)| ==>
              (Meets(Plan(b, r)[n - 1], Plan(b, r)[n]) <==> b.ShadowSize() % GPU_PAGE == 0)
  {
    FirstOnTrack(b, r);
    if 0 < n < |Plan(b, r)| {
      if b.ShadowSize() % GPU_PAGE == 0 {
        FirstSmooth(b, r);
        SmoothPlanMeets(b, r, First(b, r), n);
      } else {
        SmallPlanApart(b, r, First(b, r), n);
      }
    }
  }
}
