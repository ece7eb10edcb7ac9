/**
  A shadow-buffer group and the I/O it carries, updated in place as the driver does it:
  `nvfs_io_init`, `nvfs_mgroup_fill_mpages`, DMA marking, completion and the transfer loop
  `nvfs_io_start_op`. What the transfer comes to is stated by the functions of `Transfers`.
*/
module Mgroup {
  import opened Units
  import opened Holes
  import opened Blocks
  import opened Notes
  import opened TransferPlan
  import opened Placement
  import opened Transfers

  datatype FillResult = Accepted | Rejected | Bug

  /** Marking a vector for DMA: done, stopped at block `at`, or run past the last block. */
  datatype MarkResult = Marked | Refused(at: nat) | RanPast

  /** Blocks `lo..hi`, as far as there are such blocks, are in transfer. */
  predicate AllInTransfer(m: seq<BlockState>, lo: nat, hi: int) {
    forall i | lo <= i <= hi && i < |m| :: InTransfer(m[i])
  }

  /** Marking passes over blocks in transfer. */
  lemma {:induction false} MarkFromSkips(m: seq<BlockState>, lo: nat, last: int, i: nat)
    requires lo <= i <= last + 1 && AllInTransfer(m, lo, i - 1) && (i > lo ==> i <= |m|)
    ensures MarkFrom(m, lo, last) == MarkFrom(Painted(m, lo, i - 1, DmaStart), i, last)
    decreases i - lo
  {
    if i == lo {
      assert Painted(m, lo, i - 1, DmaStart) == m;
    } else {
      var m' := m[lo := DmaStart];
      MarkFromSkips(m', lo + 1, last, i);
      assert Painted(m', lo + 1, i - 1, DmaStart) == Painted(m, lo, i - 1, DmaStart);
    }
  }

  lemma MarkFromStops(m: seq<BlockState>, i: nat, last: int)
    ensures i > last || i >= |m| ==> MarkFrom(m, i, last) == m
    ensures i <= last && i < |m| && !InTransfer(m[i]) ==> MarkFrom(m, i, last) == m[i := DmaError]
  {
  }

  /** A call of the file system: a write or a read, of one chunk. */
  datatype FileCall = FileCall(write: bool, ch: Chunk)

  /** The calls for a list of chunks; none where the file lacks an operation. */
  function FileCalls(write: bool, ops: bool, chs: seq<Chunk>): seq<FileCall> {
    if ops then seq(|chs|, i requires 0 <= i < |chs| => FileCall(write, chs[i])) else []
  }

  lemma FileCallsSnoc(write: bool, ops: bool, chs: seq<Chunk>, ch: Chunk)
    ensures FileCalls(write, ops, chs + [ch]) == FileCalls(write, ops, chs) + if ops then [FileCall(write, ch)] else []
  {
  }

  /** How an iteration of the transfer loop ends: go round again, return, or an assertion of the
      kernel fails. */
  datatype Verdict = Again | Return(value: int) | Crashed

  /** The checks on the file that come before the buffer is looked up. */
  method CheckFile(f: FileArgs) returns (ok: bool)
    ensures ok && f.oDirect <==> FileAccepts(f)
  {
    if !f.open { return false; }
    if !f.permitted { return false; }
    if f.inum == 0 { return false; }
    if f.blockDevice && f.majdev == 0 { return false; }
    if f.generation != 0 && f.generation != f.fileGeneration { return false; }
    if f.inum != f.ino { return false; }
    if f.majdev != f.major || f.mindev != f.minor { return false; }
    return true;
  }

  lemma PaintedNone(m: seq<BlockState>, lo: nat, s: BlockState)
    ensures Painted(m, lo, lo - 1, s) == m
  {
  }

  lemma PaintedNext(m: seq<BlockState>, lo: nat, i: nat, s: BlockState)
    requires lo <= i < |m|
    ensures Painted(m, lo, i - 1, s)[i] == m[i] && Painted(m, lo, i, s) == Painted(m, lo, i - 1, s)[i := s]
  {
  }

  /** The checks on the file range that come first. */
  method CheckRange(r: Request) returns (ok: bool)
    ensures ok <==> RangeAccepts(r)
  {
    if r.offset < 0 { return false; }
    if r.offset % PAGE != 0 || r.size % PAGE != 0 { return false; }
    if r.offset > S64_MAX - r.size { return false; }
    return true;
  }

  class ShadowGroup {
    const b: Buffer
    const metadata: array<BlockState>

    // the nvfsio fields
    var write: bool
    var cpuvaddr: nat
    var length: nat
    var ret: int
    var fdOffset: int
    var gpuPageOffset: nat
    var curGpuBaseIndex: nat
    var rdmaSegOffset: nat
    var useRkeys: bool
    var activeStart: nat
    var activeEnd: nat
    var checkSparse: bool
    var sawHoles: bool

    /** The hole list in the user's end-fence page, when the last completion wrote one. */
    var sparse: Option<seq<Run>>

    /** Every call of the file system since `StartOp` began, with the fields that the DMA layer
        reads during it. */
    ghost var issued: seq<FileCall>

    ghost predicate Valid()
      reads this
    {
      Mapped(b) && metadata.Length == b.blocks
    }

    /** After mmap: every block allocated. */
    constructor (b: Buffer)
      requires Mapped(b)
      ensures Valid() && this.b == b && fresh(metadata)
      ensures forall i | 0 <= i < b.blocks :: metadata[i] == Alloc
    {
      this.b := b;
      metadata := new BlockState[b.blocks](_ => Alloc);
    }

    /** The part of `nvfs_mgroup_pin_shadow_pages` that makes the blocks usable. */
    method InitBlocks()
      requires Valid()
      modifies metadata
      ensures Idle(metadata[..])
    {
      for i := 0 to metadata.Length
        invariant forall j | 0 <= j < i :: metadata[j] == Init
      {
        metadata[i] := Init;
      }
    }

    /** Clear the states of blocks `lo..hi`, `hi` excluded. */
    method ResetBlocks(lo: nat, hi: nat)
      requires lo <= hi <= metadata.Length
      modifies metadata
      ensures forall i | 0 <= i < metadata.Length :: metadata[i] == if lo <= i < hi then Init else old(metadata[i])
    {
      for j := lo to hi
        invariant forall i | 0 <= i < metadata.Length :: metadata[i] == if lo <= i < j then Init else old(metadata[i])
      {
        metadata[j] := Init;
      }
    }

    /** `nvfs_mgroup_fill_mpages`: choose and queue the active blocks of a chunk. */
    method FillMpages(nr: nat) returns (r: FillResult)
      requires metadata.Length == b.blocks
      modifies this`activeStart, this`activeEnd, this`cpuvaddr, metadata
      ensures r.Rejected? <==> !FillAccepts(b.blocks, gpuPageOffset, nr)
      ensures r.Rejected? ==>
                metadata[..] == old(metadata[..]) && cpuvaddr == old(cpuvaddr)
                && activeStart == old(activeStart) && activeEnd == old(activeEnd)
      ensures r.Bug? <==>
                && FillAccepts(b.blocks, gpuPageOffset, nr)
                && exists i :: gpuPageOffset / PAGE <= i < gpuPageOffset / PAGE + nr && !Fillable(old(metadata[..])[i])
      ensures r.Accepted? ==>
                && metadata[..] == Filled(b.blocks, gpuPageOffset / PAGE, nr)
                && activeStart == gpuPageOffset / PAGE
                && activeEnd == (if activeStart + nr > 0 then activeStart + nr - 1 else 0)
                && cpuvaddr == old(cpuvaddr) + activeStart * PAGE
    {
      if nr > b.blocks { return Rejected; }
      var blockoff := 0;
      if gpuPageOffset != 0 {
        if gpuPageOffset > GPU_PAGE - PAGE { return Rejected; }
        if gpuPageOffset % PAGE != 0 { return Rejected; }
        if gpuPageOffset + nr * PAGE > GPU_PAGE { return Rejected; }
        blockoff := gpuPageOffset / PAGE;
        if blockoff + nr > b.blocks { return Rejected; }
        ResetBlocks(0, blockoff);
      }
      activeStart := blockoff;
      var j := blockoff;
      while j < nr + blockoff
        modifies metadata
        invariant blockoff <= j <= nr + blockoff
        invariant forall i | 0 <= i < j :: metadata[i] == if i < blockoff then Init else Queued
        invariant forall i | j <= i < metadata.Length :: metadata[i] == old(metadata[i])
        invariant forall i | blockoff <= i < j :: Fillable(old(metadata[..])[i])
      {
        if metadata[j] != Init && metadata[j] != Done {
          assert !Fillable(old(metadata[..])[j]);
          return Bug;
        }
        metadata[j] := Queued;
        j := j + 1;
      }
      activeEnd := if j > 0 then j - 1 else 0;
      ResetBlocks(j, b.blocks);
      cpuvaddr := cpuvaddr + activeStart * PAGE;
      return Accepted;
    }

    /** `nvfs_mgroup_metadata_set_dma_state`: mark the blocks of one bvec, starting at shadow page
        `page`, as handed to DMA. A block that is not in transfer stops it with an error; the end
        of the array does not, so a longer vector runs past it. */
    method SetDmaState(page: nat, bvLen: nat, bvOffset: nat) returns (r: MarkResult)
      requires bvLen > 0
      modifies metadata
      ensures var m, lo, hi := old(metadata[..]), page + bvOffset / PAGE, page + (bvOffset + bvLen - 1) / PAGE;
              && metadata[..] == MarkFrom(m, lo, hi)
              && match r
              case Marked => hi < |m| && AllInTransfer(m, lo, hi) && metadata[..] == Painted(m, lo, hi, DmaStart)
              case RanPast => hi >= |m| && AllInTransfer(m, lo, |m| - 1) && metadata[..] == Painted(m, lo, hi, DmaStart)
              case Refused(i) =>
                && lo <= i <= hi && i < |m| && AllInTransfer(m, lo, i - 1) && !InTransfer(m[i])
                && metadata[..] == Painted(m, lo, i - 1, DmaStart)[i := DmaError]
    {
      hide MarkFrom;
      var i := page + bvOffset / PAGE;
      var last := page + (bvOffset + bvLen - 1) / PAGE;
      ghost var m, lo := metadata[..], i;
      while i <= last
        invariant lo <= i <= last + 1 && i - 1 < |m| + lo
        invariant metadata[..] == Painted(m, lo, i - 1, DmaStart) && AllInTransfer(m, lo, i - 1)
        invariant i > lo ==> i <= |m|
      {
        MarkFromSkips(m, lo, last, i);
        MarkFromStops(metadata[..], i, last);
        if i >= metadata.Length {
          return RanPast;
        }
        assert metadata[i] == metadata[..][i] == m[i];
        if metadata[i] != Queued && metadata[i] != DmaStart {
          metadata[i] := DmaError;
          return Refused(i);
        }
        metadata[i] := DmaStart;
        i := i + 1;
      }
      MarkFromSkips(m, lo, last, i);
      MarkFromStops(metadata[..], i, last);
      return Marked;
    }

    /** A vector on its way to the device: its first page is looked up, which fails outside the
        active range and puts a page that is not in transfer in error; then it is marked. */
    method MapVec(v: BVec) returns (ok: bool)
      requires activeEnd < metadata.Length
      modifies metadata
      ensures metadata[..] == MarkVec(old(metadata[..]), activeStart, activeEnd, v)
      ensures var m := old(metadata[..]);
              ok <==> activeStart <= v.page <= activeEnd && InTransfer(m[v.page])
                      && v.Last() < |m| && AllInTransfer(m, v.First(), v.Last())
    {
      if activeStart > v.page || activeEnd < v.page { return false; }
      if metadata[v.page] != Queued && metadata[v.page] != DmaStart {
        metadata[v.page] := DmaError;
        return false;
      }
      var r := SetDmaState(v.page, v.len, v.offset);
      ok := r.Marked?;
    }

    /** `nvfs_mgroup_check_and_set` to DONE, as `nvfs_io_complete` calls it: with validation
        exactly when `ret` is not an error, and with the result written back. */
    method Complete(interrupted: bool)
      requires activeStart <= activeEnd < metadata.Length
      modifies this`ret, this`activeStart, this`activeEnd, this`checkSparse, this`sawHoles, this`sparse, metadata
      ensures metadata[..] == if interrupted then old(metadata[..])
                              else Painted(old(metadata[..]), old(activeStart), old(activeEnd), Done)
      ensures var c := CompletionOf(old(metadata[..]), old(activeStart), old(activeEnd),
                                    write, old(checkSparse), old(ret));
              && ret == c.ret
              && sparse == (if c.sparse.Some? then c.sparse else old(sparse))
              && sawHoles == (if c.sparse.Some? then |c.sparse.value| > 0 else old(sawHoles))
              && checkSparse == (old(checkSparse) || c.sparse.Some?)
      ensures interrupted ==> activeStart == old(activeStart) && activeEnd == old(activeEnd)
      ensures !interrupted ==> activeStart == activeEnd == 0
    {
      hide CompletionOf, NoteFold, Painted;
      var note := ScanBlocks(interrupted);
      ErrorPasses(old(metadata[..]), activeStart, activeEnd, write, checkSparse, ret);
      if ret >= 0 {
        NotesDecide(old(metadata[..]), activeStart, activeEnd, write, checkSparse, ret);
        if !write && (checkSparse || |note.holes| > 0) {
          checkSparse := true;
          sparse := Some(note.holes);
          sawHoles := |note.holes| > 0;
        }
        if note.err < 0 { ret := note.err; }
        else if note.limit > 0 { ret := note.limit; }
      }
      if !interrupted {
        activeStart, activeEnd := 0, 0;
      }
    }

    /** The loop of `nvfs_mgroup_check_and_set` over the active blocks. */
    method ScanBlocks(interrupted: bool) returns (note: Note)
      requires activeStart <= activeEnd < metadata.Length
      modifies metadata
      ensures metadata[..] == if interrupted then old(metadata[..])
                              else Painted(old(metadata[..]), activeStart, activeEnd, Done)
      ensures ret >= 0 ==>
                note == NoteFold(old(metadata[..]), activeStart, DoneBlocks(ret, activeStart, activeEnd),
                                 activeEnd - activeStart + 1, write)
    {
      hide NoteBlock, DoneBlocks, Painted;
      ghost var m := metadata[..];
      PaintedNone(m, activeStart, Done);
      var lo, n := activeStart, if ret >= 0 then DoneBlocks(ret, activeStart, activeEnd) else 0;
      note := Note([], -1, 0, 0);
      for i := activeStart to activeEnd + 1
        invariant metadata[..] == if interrupted then m else Painted(m, lo, i - 1, Done)
        invariant ret >= 0 ==> note == NoteFold(m, lo, n, i - lo, write)
      {
        PaintedNext(m, lo, i, Done);
        assert metadata[i] == metadata[..][i] == m[i];
        if ret >= 0 {
          note := NoteBlock(n, i - lo, metadata[i], write, note);
        }
        if !interrupted {
          metadata[i] := Done;
        }
      }
    }

    /** The vectors of one transfer, in the order in which they reach the DMA layer. */
    method MapVecs(vecs: seq<BVec>)
      requires activeEnd < metadata.Length
      modifies metadata
      ensures metadata[..] == MarkAll(old(metadata[..]), activeStart, activeEnd, vecs)
    {
      assert vecs[..0] == [];
      for k := 0 to |vecs|
        invariant metadata[..] == MarkAll(old(metadata[..]), activeStart, activeEnd, vecs[..k])
      {
        var ok := MapVec(vecs[k]);
        assert vecs[..k + 1][..k] == vecs[..k];
      }
      assert vecs[..|vecs|] == vecs;
    }

    /** `nvfs_direct_io` of `len` bytes at `buf` and file position `pos`, and the completion behind it,
        for a chunk whose vectors reach the DMA layer and for which the file system returns `res`. An
        error found by validation comes back as 0. */
    method DirectIo(op: bool, buf: nat, len: nat, pos: int, ghost done: nat, vecs: seq<BVec>, res: int, exiting: bool)
      returns (out: int)
      requires activeStart <= activeEnd < metadata.Length && !sawHoles
      modifies this`ret, this`activeStart, this`activeEnd, this`checkSparse, this`sawHoles, this`sparse,
               this`issued, metadata
      ensures issued == old(issued) + [FileCall(op, Chunk(done, pos, buf, len, curGpuBaseIndex, gpuPageOffset,
                                                          rdmaSegOffset, old(activeStart), old(activeEnd)))]
      ensures var lo, hi := old(activeStart), old(activeEnd);
              var m := MarkAll(old(metadata[..]), lo, hi, vecs);
              var c := CompletionOf(m, lo, hi, write, old(checkSparse), res);
              && metadata[..] == (if exiting || res == ERESTARTSYS then m else Painted(m, lo, hi, Done))
              && out == (if c.ret == res then res else if c.ret < 0 then 0 else c.ret)
              && (sawHoles <==> c.sparse.Some? && c.sparse.value != [])
              && sparse == if c.sparse.Some? then c.sparse else old(sparse)
    {
      hide CompletionOf, MarkAll;
      issued := issued + [FileCall(op, Chunk(done, pos, buf, len, curGpuBaseIndex, gpuPageOffset, rdmaSegOffset,
                                             activeStart, activeEnd))];
      MapVecs(vecs);
      ret := res;
      Complete(exiting || res == ERESTARTSYS);
      out := res;
      if res != ret {
        out := if ret < 0 then 0 else ret;
      }
    }

    /** The loop variables of the transfer, as a cursor `done` bytes into the request. */
    ghost function CursorAt(done: nat): Cursor
      reads this
    {
      Cursor(done, cpuvaddr, curGpuBaseIndex, gpuPageOffset, rdmaSegOffset)
    }

    /** The group is ready to start request `r`. */
    ghost predicate Prepared(r: Request)
      requires Valid()
      reads this, metadata
    {
      && Accepts(b, r)
      && CursorAt(0) == First(b, r)
      && length == r.size && fdOffset == r.offset && useRkeys == r.useRkeys
    }

    /** `nvfs_io_init` once the I/O slot is claimed: validate the arguments and set up nvfsio. */
    method IoInit(r: Request, isWrite: bool, cpuArg: nat, f: FileArgs) returns (ok: bool)
      requires Valid()
      modifies this
      ensures ok <==> Accepts(b, r) && cpuArg == b.cpuBase && FileAccepts(f)
      ensures ok ==> Prepared(r) && write == isWrite
      ensures ok ==> activeStart == activeEnd == 0 && !sawHoles && !checkSparse && ret == EINVAL
    {
      assert b.blocks > 0;
      hide First, GpuAccepts, RangeAccepts, Mapped, FileAccepts;
      ok := CheckRange(r);
      if ok {
        ok := CheckFile(f);
        if ok {
          ok := cpuArg == b.cpuBase;
          if ok {
            ok := SetUp(r, isWrite, f.oDirect);
          }
        }
      }
    }

    /** The part of `nvfs_io_init` that fills in nvfsio. */
    method SetUp(r: Request, isWrite: bool, oDirect: bool) returns (ok: bool)
      requires b.blocks > 0
      modifies this
      ensures ok <==> oDirect && GpuAccepts(b, r)
      ensures ok ==> CursorAt(0) == First(b, r) && write == isWrite && useRkeys == r.useRkeys
      ensures ok ==> length == r.size && fdOffset == r.offset
      ensures ok ==> activeStart == activeEnd == 0 && !sawHoles && !checkSparse && ret == EINVAL
    {
      hide First, GpuAccepts;
      activeStart, activeEnd := 0, 0;
      cpuvaddr, useRkeys, write := b.cpuBase, r.useRkeys, isWrite;
      rdmaSegOffset, sawHoles, checkSparse := 0, false, false;
      if !oDirect { return false; }
      fdOffset, length, ret := r.offset, r.size, EINVAL;
      ok := SetGpuCursor(r);
    }

    /** The part of `nvfs_io_init` that checks the GPU range and sets the GPU cursor. */
    method SetGpuCursor(r: Request) returns (ok: bool)
      requires b.blocks > 0 && useRkeys == r.useRkeys && cpuvaddr == b.cpuBase && rdmaSegOffset == 0
      modifies this`gpuPageOffset, this`curGpuBaseIndex, this`rdmaSegOffset
      ensures ok <==> GpuAccepts(b, r)
      ensures ok ==> CursorAt(0) == First(b, r)
    {
      var vaOffset := (b.gpuvaddr % GPU_PAGE + r.devptroff) % U64_LIMIT;
      if vaOffset % PAGE != 0 { return false; }
      if b.gpuLen < r.size || r.devptroff > b.gpuLen - r.size { return false; }
      gpuPageOffset := vaOffset % GPU_PAGE;
      if gpuPageOffset != 0 && r.size > GPU_PAGE - gpuPageOffset { return false; }
      curGpuBaseIndex := vaOffset / GPU_PAGE;
      assert r.devptroff == 0 ==> curGpuBaseIndex == 0;
      if useRkeys {
        rdmaSegOffset := vaOffset % b.ShadowSize();
      }
      return true;
    }

    /** One iteration of the transfer loop up to the file system's answer: fill, then transfer if
        the file has both operations. */
    method IssueChunk(ghost r: Request, ghost c: Cursor, bytesIssued: nat, ops: bool, io: ChunkIo)
      returns (f: FillResult, out: int)
      requires metadata.Length == b.blocks
      requires r.size % PAGE == 0 && OnTrack(b, r, c) && c.done < r.size && c == CursorAt(c.done)
      requires bytesIssued == Issued(b, r, c) && fdOffset == r.offset + c.done
      modifies this`ret, this`activeStart, this`activeEnd, this`checkSparse, this`sawHoles, this`sparse,
               this`issued, this`cpuvaddr, metadata
      ensures f.Rejected? <==> !FillAccepts(b.blocks, c.gpuOffset, DivUp(bytesIssued, PAGE))
      ensures f.Rejected? ==> metadata[..] == old(metadata[..])
      ensures !f.Accepted? ==> issued == old(issued) && sparse == old(sparse)
      ensures !f.Rejected? ==>
                && Fits(ChunkAt(b, r, c), b.blocks)
                && (f.Bug? <==> Blocked(old(metadata[..]), ChunkAt(b, r, c)))
      ensures f.Accepted? ==>
                var e := RunChunk(b.blocks, ChunkAt(b, r, c), write, ops, io);
                && cpuvaddr == ChunkAt(b, r, c).cpuvaddr && metadata[..] == e.m && out == e.out
                && (e.whole <==> out == bytesIssued && !sawHoles)
                && issued == old(issued) + (if ops then [FileCall(write, ChunkAt(b, r, c))] else [])
                && sparse == if e.sparse.Some? then e.sparse else old(sparse)
    {
      hide FillAccepts, OnTrack, Blocked, RunChunk, Issued;
      f := FillChunk(r, c, bytesIssued);
      out := EINVAL;
      if f.Accepted? {
        out := TransferChunk(ChunkAt(b, r, c), bytesIssued, ops, io);
      }
    }

    /** The fill of the chunk at cursor `c`. */
    method FillChunk(ghost r: Request, ghost c: Cursor, bytesIssued: nat) returns (f: FillResult)
      requires metadata.Length == b.blocks
      requires r.size % PAGE == 0 && OnTrack(b, r, c) && c.done < r.size && c == CursorAt(c.done)
      requires bytesIssued == Issued(b, r, c)
      modifies this`activeStart, this`activeEnd, this`cpuvaddr, metadata
      ensures f.Rejected? <==> !FillAccepts(b.blocks, c.gpuOffset, DivUp(bytesIssued, PAGE))
      ensures f.Rejected? ==> metadata[..] == old(metadata[..])
      ensures !f.Rejected? ==>
                && Fits(ChunkAt(b, r, c), b.blocks) && ChunkAt(b, r, c).issued == bytesIssued
                && ChunkAt(b, r, c).fdOffset == r.offset + c.done
                && (f.Bug? <==> Blocked(old(metadata[..]), ChunkAt(b, r, c)))
      ensures f.Accepted? ==>
                var ch := ChunkAt(b, r, c);
                && metadata[..] == Filled(b.blocks, ch.activeStart, Span(ch)) && cpuvaddr == ch.cpuvaddr
                && activeStart == ch.activeStart && activeEnd == ch.activeEnd
                && curGpuBaseIndex == ch.gpuIndex && gpuPageOffset == ch.gpuOffset && rdmaSegOffset == ch.segOffset
    {
      var nr := DivUp(bytesIssued, PAGE);
      f := FillMpages(nr);
      if !f.Rejected? {
        ChunkFits(r, c);
        hide FillAccepts, OnTrack, Issued;
        var ch := ChunkAt(b, r, c);
        assert ch.activeEnd == ch.activeStart + nr - 1;
      }
    }

    /** What follows an accepted fill: the call of the file and the completion behind it, or only
        an error where the file lacks an operation. */
    method TransferChunk(ghost ch: Chunk, bytesIssued: nat, ops: bool, io: ChunkIo) returns (out: int)
      requires metadata.Length == b.blocks && Fits(ch, b.blocks) && bytesIssued == ch.issued
      requires activeStart == ch.activeStart && activeEnd == ch.activeEnd
      requires fdOffset == ch.fdOffset && cpuvaddr == ch.cpuvaddr
      requires curGpuBaseIndex == ch.gpuIndex && gpuPageOffset == ch.gpuOffset && rdmaSegOffset == ch.segOffset
      requires metadata[..] == Filled(b.blocks, ch.activeStart, Span(ch))
      modifies this`ret, this`activeStart, this`activeEnd, this`checkSparse, this`sawHoles, this`sparse,
               this`issued, metadata
      ensures issued == old(issued) + if ops then [FileCall(write, ch)] else []
      ensures var e := RunChunk(b.blocks, ch, write, ops, io);
              && metadata[..] == e.m && out == e.out && (e.whole <==> out == bytesIssued && !sawHoles)
              && sparse == if e.sparse.Some? then e.sparse else old(sparse)
    {
      hide CompletionOf, MarkAll, Filled, Painted;
      ret, sawHoles := EINVAL, false;
      checkSparse := !write && io.sparseFile;
      out := EINVAL;
      if ops {
        out := DirectIo(write, cpuvaddr, bytesIssued, fdOffset, ch.done,
                        io.vecs, Min(io.res, bytesIssued), io.exiting);
      }
    }

    lemma ChunkFits(r: Request, c: Cursor)
      requires r.size % PAGE == 0 && OnTrack(b, r, c) && c.done < r.size && Issued(b, r, c) >= 0
      requires FillAccepts(b.blocks, c.gpuOffset, DivUp(Issued(b, r, c), PAGE))
      ensures var ch, nr := ChunkAt(b, r, c), DivUp(Issued(b, r, c), PAGE);
              Fits(ch, b.blocks) && Span(ch) == nr && ch.activeStart == c.gpuOffset / PAGE
    {
      IssuedWholePages(b, r, c);
      ChunkSound(b, r, c);
    }

    /** Whether the group stands at cursor `c` of request `r`, ready for the next chunk. */
    ghost predicate Standing(r: Request, c: Cursor)
      reads this
    {
      && r.size % PAGE == 0 && OnTrack(b, r, c)
      && (c.done < r.size ==> c == CursorAt(c.done))
      && (!useRkeys ==> rdmaSegOffset == 0) && fdOffset == r.offset + c.done
    }

    /** Advance the GPU cursor after a chunk that completed in full. */
    method AdvanceCursor(ghost r: Request, ghost c: Cursor, bytesIssued: nat)
      requires r.size % PAGE == 0 && OnTrack(b, r, c) && c.done < r.size
      requires bytesIssued == Issued(b, r, c)
      requires c == CursorAt(c.done).(cpuvaddr := c.cpuvaddr) && cpuvaddr == ChunkAt(b, r, c).cpuvaddr
      requires !useRkeys ==> rdmaSegOffset == 0
      modifies this`gpuPageOffset, this`curGpuBaseIndex, this`rdmaSegOffset
      ensures CursorAt(c.done + bytesIssued) == Advance(b, r, c)
      ensures !useRkeys ==> rdmaSegOffset == 0
    {
      var vaOffset := gpuPageOffset + bytesIssued;
      gpuPageOffset := vaOffset % GPU_PAGE;
      curGpuBaseIndex := curGpuBaseIndex + vaOffset / GPU_PAGE;
      if useRkeys {
        rdmaSegOffset := 0;
      }
    }

    /** One whole iteration of the transfer loop, `bytesDone` bytes into the request; to go round
        again it advances the cursor. */
    method Iterate(ghost r: Request, ghost c: Cursor, bytesDone: nat, ops: bool, io: ChunkIo)
      returns (v: Verdict, res: nat)
      requires metadata.Length == b.blocks
      requires Standing(r, c) && c.done == bytesDone < r.size == length
      modifies this, metadata
      ensures write == old(write) && length == old(length) && Issued(b, r, c) > 0
      ensures var ok := FillAccepts(b.blocks, c.gpuOffset, DivUp(Issued(b, r, c), PAGE)) && io.inProgress;
              && (!ok ==> v == Return(EIO) && metadata[..] == old(metadata[..]))
              && (!ok || v.Crashed? ==> issued == old(issued) && sparse == old(sparse) && fdOffset == old(fdOffset))
              && (ok ==> Fits(ChunkAt(b, r, c), b.blocks))
              && (v.Crashed? <==> ok && Blocked(old(metadata[..]), ChunkAt(b, r, c)))
              && (ok && !v.Crashed? ==>
                    var e := RunChunk(b.blocks, ChunkAt(b, r, c), write, ops, io);
                    && issued == old(issued) + (if ops then [FileCall(write, ChunkAt(b, r, c))] else [])
                    && metadata[..] == e.m
                    && sparse == (if e.sparse.Some? then e.sparse else old(sparse))
                    && fdOffset == old(fdOffset) + (if e.out > 0 then e.out else 0)
                    && (if e.whole then v == Again && res == Issued(b, r, c) && Standing(r, Advance(b, r, c))
                        else v == Return(if e.out < 0 then e.out else bytesDone + e.out)))
    {
      hide Blocked, FillAccepts, RunChunk, Advance, ChunkAt, OnTrack;
      AdvanceOnTrack(b, r, c);
      if !io.inProgress { return Return(EIO), 0; }
      var bytesIssued := Min(length - bytesDone, b.ShadowSize() - rdmaSegOffset);
      var f, out := IssueChunk(r, c, bytesIssued, ops, io);
      if f.Rejected? { return Return(EIO), 0; }
      if f.Bug? { return Crashed, 0; }
      WholeMeans(r, c, ops, io);
      hide Issued;
      v, res := Account(r, c, bytesDone, bytesIssued, out);
    }

    /** What a chunk's result leads to: an error and a short or sparse count end the request, and with
        the full count the loop goes on. */
    method Account(ghost r: Request, ghost c: Cursor, bytesDone: nat, bytesIssued: nat, out: int)
      returns (v: Verdict, res: nat)
      requires r.size % PAGE == 0 && OnTrack(b, r, c) && c.done == bytesDone < r.size == length
      requires bytesIssued == Issued(b, r, c) > 0 && OnTrack(b, r, Advance(b, r, c))
      requires c == CursorAt(c.done).(cpuvaddr := c.cpuvaddr) && cpuvaddr == ChunkAt(b, r, c).cpuvaddr
      requires (!useRkeys ==> rdmaSegOffset == 0) && fdOffset == r.offset + c.done
      modifies this`fdOffset, this`gpuPageOffset, this`curGpuBaseIndex, this`rdmaSegOffset
      ensures fdOffset == old(fdOffset) + if out > 0 then out else 0
      ensures if out == bytesIssued && !sawHoles then v == Again && res == bytesIssued && Standing(r, Advance(b, r, c))
              else v == Return(if out < 0 then out else bytesDone + out)
    {
      hide OnTrack, Advance, ChunkAt, Issued;
      if out < 0 { return Return(out), 0; }
      fdOffset, res := fdOffset + out, out;
      if out != bytesIssued || sawHoles {
        return Return(bytesDone + out), out;
      }
      Proceed(r, c, bytesDone, bytesIssued);
      v := Again;
    }

    /** Go on to the next chunk, if there is more to do. */
    method Proceed(ghost r: Request, ghost c: Cursor, bytesDone: nat, bytesIssued: nat)
      requires r.size % PAGE == 0 && OnTrack(b, r, c) && c.done == bytesDone < r.size == length
      requires bytesIssued == Issued(b, r, c) > 0 && OnTrack(b, r, Advance(b, r, c))
      requires c == CursorAt(c.done).(cpuvaddr := c.cpuvaddr) && cpuvaddr == ChunkAt(b, r, c).cpuvaddr
      requires (!useRkeys ==> rdmaSegOffset == 0) && fdOffset == r.offset + c.done + bytesIssued
      modifies this`gpuPageOffset, this`curGpuBaseIndex, this`rdmaSegOffset
      ensures Standing(r, Advance(b, r, c))
      ensures bytesDone + bytesIssued == length ==>
                gpuPageOffset == old(gpuPageOffset) && curGpuBaseIndex == old(curGpuBaseIndex)
                && rdmaSegOffset == old(rdmaSegOffset)
    {
      assert Advance(b, r, c).done == bytesDone + bytesIssued;
      hide OnTrack, Advance, ChunkAt, Issued;
      if bytesDone + bytesIssued < length {
        AdvanceCursor(r, c, bytesIssued);
      }
    }

    lemma WholeMeans(r: Request, c: Cursor, ops: bool, io: ChunkIo)
      requires Issued(b, r, c) > 0 && Fits(ChunkAt(b, r, c), b.blocks)
      ensures var e := RunChunk(b.blocks, ChunkAt(b, r, c), write, ops, io);
              e.whole ==> e.out == Issued(b, r, c) > 0
    {
      ChunkBounds(b.blocks, ChunkAt(b, r, c), write, ops, io);
    }

    /** `nvfs_io_start_op` for a synchronous request, on a buffer in any block states: the request
        ends as `Ends` states. */
    method StartOp(ghost r: Request, ops: bool, dev: nat -> ChunkIo) returns (out: Option<int>)
      requires Valid() && Prepared(r)
      modifies this, metadata
      ensures Valid() && write == old(write)
      ensures var x := RequestEnds(b, r, Kernel(write, ops, dev), old(metadata[..]));
              && x.n <= |Plan(b, r)| && out == x.out && issued == FileCalls(write, ops, Plan(b, r)[..x.n])
              && (out.Some? ==> metadata[..] == x.m)
      ensures AllFit(Plan(b, r), b.blocks)
      ensures var e := Kernel(write, ops, dev);
              var n := RequestEnds(b, r, e, old(metadata[..])).n;
              && fdOffset == r.offset + Moved(b.blocks, Plan(b, r), e, n)
              && sparse == ListAt(b.blocks, Plan(b, r), e, old(sparse), n)
    {
      FirstOnTrack(b, r);
      PlanFits(b, r);
      issued := [];
      hide Misplaces, PlanFrom, GpuAccepts, OnTrack, Mapped, Ends, AllFit;
      out := RunPlan(r, Plan(b, r), ops, dev);
    }

    /** The loop's variables after `k` chunks of the plan. */
    ghost predicate At(r: Request, plan: seq<Chunk>, c: Cursor, bytesDone: nat, k: nat)
      reads this, metadata
    {
      && metadata.Length == b.blocks && length == r.size
      && Standing(r, c) && c.done == bytesDone <= r.size
      && k <= |plan| && plan[k..] == PlanFrom(b, r, c)
      && Total(plan[..k]) == bytesDone
      && AllFit(plan, b.blocks)
    }

    /** One turn of the loop, seen from the plan. */
    method Turn(ghost r: Request, ghost plan: seq<Chunk>, ghost c: Cursor, bytesDone: nat, ops: bool, io: ChunkIo,
                ghost k: nat)
      returns (v: Verdict, res: nat, ghost c': Cursor)
      requires At(r, plan, c, bytesDone, k) && bytesDone < length
      modifies this, metadata
      ensures write == old(write) && AllFit(plan, b.blocks)
      ensures k == |plan| || !io.inProgress ==> v == Return(EIO) && metadata[..] == old(metadata[..])
      ensures v.Crashed? <==> k < |plan| && io.inProgress && Blocked(old(metadata[..]), plan[k])
      ensures k == |plan| || !io.inProgress || v.Crashed? ==>
                issued == old(issued) && sparse == old(sparse) && fdOffset == old(fdOffset)
      ensures k < |plan| && io.inProgress && !v.Crashed? ==>
                var e := RunChunk(b.blocks, plan[k], write, ops, io);
                && metadata[..] == e.m && issued == old(issued) + (if ops then [FileCall(write, plan[k])] else [])
                && sparse == (if e.sparse.Some? then e.sparse else old(sparse))
                && fdOffset == old(fdOffset) + (if e.out > 0 then e.out else 0)
                && (if e.whole then v == Again && res > 0 && At(r, plan, c', bytesDone + res, k + 1)
                    else v == Return(if e.out < 0 then e.out else bytesDone + e.out))
    {
      PlanStep(b, r, c);
      v, res := Iterate(r, c, bytesDone, ops, io);
      c' := Advance(b, r, c);
      hide Blocked, RunChunk, FillAccepts, OnTrack, PlanFrom;
      if k < |plan| {
        assert plan[k..][0] == plan[k] && plan[k..][1..] == plan[k + 1..] && plan[..k + 1] == plan[..k] + [plan[k]];
        TotalSplit(plan, k);
      }
    }

    /** What the first `k` chunks have left behind besides block states: the calls made, the file
        position and the hole list, where `list` stood before. */
    ghost predicate Traced(r: Request, plan: seq<Chunk>, e: Kernel, list: Option<seq<Run>>, k: nat)
      requires AllFit(plan, b.blocks) && k <= |plan|
      reads this
    {
      && issued == FileCalls(e.write, e.ops, plan[..k])
      && fdOffset == r.offset + Moved(b.blocks, plan, e, k)
      && sparse == ListAt(b.blocks, plan, e, list, k)
    }

    /** A loop that found the blocks in states `m` and the hole list `list` stands before chunk `k`. */
    ghost predicate Midway(r: Request, plan: seq<Chunk>, e: Kernel, m: seq<BlockState>, list: Option<seq<Run>>,
                           c: Cursor, bytesDone: nat, k: nat)
      reads this, metadata
    {
      && At(r, plan, c, bytesDone, k) && write == e.write && Reached(b.blocks, plan, e, m, k, metadata[..])
      && Traced(r, plan, e, list, k)
    }

    /** A loop that found the blocks in states `m` has ended as it should. */
    ghost predicate Ended(r: Request, plan: seq<Chunk>, e: Kernel, m: seq<BlockState>, list: Option<seq<Run>>,
                          out: Option<int>)
      reads this, metadata
    {
      && AllFit(plan, b.blocks) && write == e.write
      && var x := Ends(b.blocks, plan, r.size, e, m);
         x.n <= |plan| && out == x.out && Traced(r, plan, e, list, x.n) && (out.Some? ==> metadata[..] == x.m)
    }

    /** One turn of the loop, seen from its end. */
    method Round(ghost r: Request, ghost plan: seq<Chunk>, ghost e: Kernel, ghost m: seq<BlockState>,
                 ghost list: Option<seq<Run>>, ghost c: Cursor, bytesDone: nat, ops: bool, io: ChunkIo, ghost k: nat)
      returns (v: Verdict, res: nat, ghost c': Cursor)
      requires Midway(r, plan, e, m, list, c, bytesDone, k) && bytesDone < length && e.ops == ops && e.dev(k) == io
      modifies this, metadata
      ensures v.Crashed? ==> Ended(r, plan, e, m, list, None)
      ensures v.Return? ==> Ended(r, plan, e, m, list, Some(v.value))
      ensures v.Again? ==> res > 0 && Midway(r, plan, e, m, list, c', bytesDone + res, k + 1)
    {
      hide Blocked, RunChunk, Total, Ends, Reached, AllFit, ShadowGroup.At;
      AtFacts(r, plan, c, bytesDone, k);
      ReachedStep(b.blocks, plan, r.size, e, m, k, metadata[..]);
      v, res, c' := Turn(r, plan, c, bytesDone, ops, io, k);
      if k < |plan| {
        assert plan[..k + 1] == plan[..k] + [plan[k]];
        FileCallsSnoc(e.write, e.ops, plan[..k], plan[k]);
      }
    }

    lemma AtFacts(r: Request, plan: seq<Chunk>, c: Cursor, bytesDone: nat, k: nat)
      requires At(r, plan, c, bytesDone, k)
      ensures AllFit(plan, b.blocks) && k <= |plan| && Total(plan[..k]) == bytesDone && length == r.size
    {
    }

    /** The transfer loop itself, from the start of any plan. */
    method RunPlan(ghost r: Request, ghost plan: seq<Chunk>, ops: bool, dev: nat -> ChunkIo) returns (out: Option<int>)
      requires At(r, plan, CursorAt(0), 0, 0) && issued == []
      modifies this, metadata
      ensures Ended(r, plan, Kernel(old(write), ops, dev), old(metadata[..]), old(sparse), out)
    {
      ghost var m, list, e := metadata[..], sparse, Kernel(write, ops, dev);
      ghost var c := CursorAt(0);
      var bytesDone, k := 0, 0;
      ReachedStart(b.blocks, plan, e, m);
      hide Reached, ShadowGroup.At, ShadowGroup.Ended;
      MidwayBounds(r, plan, e, m, list, c, bytesDone, k);
      while bytesDone < length
        invariant 0 <= bytesDone <= length == r.size && k >= 0
        invariant Midway(r, plan, e, m, list, c, bytesDone, k)
        decreases r.size - bytesDone
      {
        var v, res;
        ghost var c';
        v, res, c' := Round(r, plan, e, m, list, c, bytesDone, ops, dev(k), k);
        if v.Crashed? {
          return None;
        }
        if v.Return? {
          return Some(v.value);
        }
        bytesDone, k, c := bytesDone + res, k + 1, c';
        MidwayBounds(r, plan, e, m, list, c, bytesDone, k);
      }
      MidwayEnd(r, plan, e, m, list, c, bytesDone, k);
      return Some(bytesDone);
    }

    lemma MidwayBounds(r: Request, plan: seq<Chunk>, e: Kernel, m: seq<BlockState>, list: Option<seq<Run>>,
                       c: Cursor, bytesDone: nat, k: nat)
      requires Midway(r, plan, e, m, list, c, bytesDone, k)
      ensures bytesDone <= length == r.size
    {
    }

    lemma MidwayEnd(r: Request, plan: seq<Chunk>, e: Kernel, m: seq<BlockState>, list: Option<seq<Run>>,
                    c: Cursor, bytesDone: nat, k: nat)
      requires Midway(r, plan, e, m, list, c, bytesDone, k) && bytesDone == r.size
      ensures Ended(r, plan, e, m, list, Some(bytesDone))
    {
      AtEnd(r, plan, c, bytesDone, k);
      assert plan[..k] == plan;
      hide Blocked, RunChunk, Total, Ends, Reached, ShadowGroup.Standing, PlanFrom;
      ReachedStep(b.blocks, plan, r.size, e, m, k, metadata[..]);
    }

    /** A loop that has moved every byte has reached the end of the plan. */
    lemma AtEnd(r: Request, plan: seq<Chunk>, c: Cursor, bytesDone: nat, k: nat)
      requires At(r, plan, c, bytesDone, k) && bytesDone == r.size
      ensures k == |plan| && Total(plan) == r.size
    {
      PlanDone(b, r, c);
      assert plan[..k] == plan;
    }

    /** One request, from its arguments on: it leaves what `AfterJob` states. A request that is not
        taken is refused with an error; another returns what `RequestEnds` states and has made the
        calls of the chunks it issued. */
    method Perform(job: Job) returns (crash: bool, result: int)
      requires Valid()
      modifies this, metadata
      ensures Valid()
      ensures crash <==> AfterJob(b, job, old(metadata[..])).None?
      ensures !crash ==> AfterJob(b, job, old(metadata[..])) == Some(metadata[..])
      ensures !Takes(b, job) ==> result < 0
      ensures Takes(b, job) ==>
                var x := RequestEnds(b, job.r, job.Env(), old(metadata[..]));
                && (!crash ==> x.out == Some(result))
                && issued == FileCalls(job.write, job.file.iters, Plan(b, job.r)[..x.n])
    {
      crash, result := false, EINVAL;
      hide RequestEnds, Plan;
      var ok := IoInit(job.r, job.write, job.cpuArg, job.file);
      if ok {
        var out := StartOp(job.r, job.file.iters, job.dev);
        crash := out.None?;
        if !crash {
          result := out.value;
        }
      }
    }

    /** Any sequence of requests on one buffer, up to the first that fails an assertion. Orderly
        requests on an idle buffer all run, and leave it idle. */
    method Session(jobs: seq<Job>) returns (crash: Option<nat>)
      requires Valid()
      modifies this, metadata
      ensures Valid() && crash == Crash(b, jobs, old(metadata[..]), 0)
      ensures var t := Before(b, jobs, old(metadata[..]), |jobs|);
              crash.None? ==> t.Some? && t.value.m == metadata[..]
      ensures Idle(old(metadata[..])) && (forall i | 0 <= i < |jobs| :: Orderly(b, jobs[i])) ==>
                crash.None? && Idle(metadata[..])
    {
      hide AfterJob, LastIssue, Orderly, Idle, Mapped;
      ghost var m := metadata[..];
      for j := 0 to |jobs|
        invariant Valid() && Crash(b, jobs, metadata[..], j) == Crash(b, jobs, m, 0)
        invariant Before(b, jobs, m, j).Some? && Before(b, jobs, m, j).value.m == metadata[..]
      {
        var hit, _ := Perform(jobs[j]);
        if hit {
          OrderlySession(jobs, m);
          return Some(j);
        }
      }
      OrderlySession(jobs, m);
      return None;
    }

    lemma OrderlySession(jobs: seq<Job>, m: seq<BlockState>)
      requires Mapped(b)
      ensures Idle(m) && (forall i | 0 <= i < |jobs| :: Orderly(b, jobs[i])) ==>
                && Crash(b, jobs, m, 0) == None
                && Before(b, jobs, m, |jobs|).Some? && Idle(Before(b, jobs, m, |jobs|).value.m)
    {
      hide Orderly, Idle, Mapped, Crash, Before;
      if Idle(m) && forall i | 0 <= i < |jobs| :: Orderly(b, jobs[i]) {
        OrderlyRuns(b, jobs, m, |jobs|);
      }
    }
  }
}
