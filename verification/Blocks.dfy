/**
  The per-block metadata of a shadow buffer, as values: what fill, DMA marking and completion
  do to the sequence of block states. The `Mgroup` module runs the same operations in place.
*/
module Blocks {
  import opened Units
  import opened Holes

  datatype BlockState = Free | Alloc | Init | Queued | DmaStart | Done | DmaError

  const EIO := -5

  /** The states in which `nvfs_mgroup_fill_mpage` accepts a block. */
  predicate Fillable(s: BlockState) { s == Init || s == Done }

  /** The states of a block that belongs to a transfer in flight. */
  predicate InTransfer(s: BlockState) { s == Queued || s == DmaStart }

  /** No transfer is in flight. */
  predicate Idle(m: seq<BlockState>) {
    forall i | 0 <= i < |m| :: Fillable(m[i])
  }

  /** An accepted fill: `nr` blocks from `start` on are queued and every other block is reset. */
  function Filled(blocks: nat, start: nat, nr: nat): (m: seq<BlockState>)
    ensures |m| == blocks
  {
    seq(blocks, i => if start <= i < start + nr then Queued else Init)
  }

  /** Blocks `lo..hi` set to `s`. */
  function Painted(m: seq<BlockState>, lo: nat, hi: int, s: BlockState): (m': seq<BlockState>)
    ensures |m'| == |m|
  {
    seq(|m|, i requires 0 <= i < |m| => if lo <= i <= hi then s else m[i])
  }

  // ------------------------------------------------- completion

  /** The blocks of a transfer that `ret` bytes account for. */
  function DoneBlocks(ret: nat, lo: nat, hi: nat): nat
    requires lo <= hi
  {
    Min(DivUp(ret, PAGE), hi - lo + 1)
  }

  /** Which of the `n` accounted blocks were never handed to DMA. */
  function Unmapped(m: seq<BlockState>, lo: nat, n: nat): (h: seq<bool>)
    requires lo + n <= |m|
    ensures |h| == n
  {
    seq(n, k requires 0 <= k < n => m[lo + k] != DmaStart)
  }

  /** A completed transfer is in error when a write left an accounted block unmapped, or when a
      block past the accounted ones is neither queued nor mapped. */
  predicate Faulty(m: seq<BlockState>, lo: nat, hi: nat, n: nat, write: bool)
    requires lo + n <= hi + 1 <= |m|
  {
    || (write && exists i :: lo <= i < lo + n && m[i] != DmaStart)
    || (exists i :: lo + n <= i <= hi && !InTransfer(m[i]))
  }

  /** The result of a completion: the byte count or error, and the hole list if one is written. */
  datatype Completion = Completion(ret: int, sparse: Option<seq<Run>>)

  /** The byte count reported after completing `ret >= 0` bytes. */
  function FinalRet(m: seq<BlockState>, lo: nat, hi: nat, write: bool, ret: nat): int
    requires lo <= hi < |m|
  {
    var n := DoneBlocks(ret, lo, hi);
    if Faulty(m, lo, hi, n, write) then EIO
    else if !write && ReadLimit(Runs(Unmapped(m, lo, n))) > 0 then ReadLimit(Runs(Unmapped(m, lo, n)))
    else ret
  }

  /** What completing a transfer of blocks `lo..hi` that returned `ret` reports. */
  function CompletionOf(m: seq<BlockState>, lo: nat, hi: nat, write: bool, checkSparse: bool, ret: int): Completion
    requires lo <= hi < |m|
  {
    if ret < 0 then Completion(ret, None)
    else
      var rs := Runs(Unmapped(m, lo, DoneBlocks(ret, lo, hi)));
      RunsApart(Unmapped(m, lo, DoneBlocks(ret, lo, hi)));
      Completion(FinalRet(m, lo, hi, write, ret),
                 if !write && (checkSparse || rs != []) then Some(Reported(rs)) else None)
  }

  /** An error of the file system is passed on, and no hole list is written. */
  lemma ErrorPasses(m: seq<BlockState>, lo: nat, hi: nat, write: bool, checkSparse: bool, ret: int)
    requires lo <= hi < |m|
    ensures ret < 0 ==> CompletionOf(m, lo, hi, write, checkSparse, ret) == Completion(ret, None)
  {
  }

  lemma {:induction false} NoRuns(h: seq<bool>)
    requires forall k | 0 <= k < |h| :: !h[k]
    ensures Runs(h) == []
  {
    if |h| > 0 { NoRuns(h[..|h| - 1]); }
  }

  /** If DMA covered every active block there is no hole, no error, and the count stands. */
  lemma FullyMapped(m: seq<BlockState>, lo: nat, hi: nat, write: bool, ret: nat)
    requires lo <= hi < |m|
    requires forall i | lo <= i <= hi :: m[i] == DmaStart
    ensures Runs(Unmapped(m, lo, DoneBlocks(ret, lo, hi))) == []
    ensures FinalRet(m, lo, hi, write, ret) == ret
  {
    NoRuns(Unmapped(m, lo, DoneBlocks(ret, lo, hi)));
  }

  /** A read that is cut is cut below its original count, at the start of the first run the
      list has no room for. */
  lemma CutRead(m: seq<BlockState>, lo: nat, hi: nat, ret: nat)
    requires lo <= hi < |m| && (forall i | lo <= i <= hi :: InTransfer(m[i])) && ret > 0
    ensures var rs := Runs(Unmapped(m, lo, DoneBlocks(ret, lo, hi)));
            && (FinalRet(m, lo, hi, false, ret) != ret <==> |rs| > MAX_HOLE_REGIONS)
            && (|rs| > MAX_HOLE_REGIONS ==>
                  FinalRet(m, lo, hi, false, ret) == rs[MAX_HOLE_REGIONS].start * PAGE < ret)
  {
    var n := DoneBlocks(ret, lo, hi);
    var h := Unmapped(m, lo, n);
    RunsApart(h);
    LimitBelow(Runs(h), n);
    assert (DivUp(ret, PAGE) - 1) * PAGE < ret;
  }

  /** The reported count is never above the file system's; only a write ends in an error. */
  lemma FinalRetBounds(m: seq<BlockState>, lo: nat, hi: nat, write: bool, ret: nat)
    requires lo <= hi < |m| && (forall i | lo <= i <= hi :: InTransfer(m[i]))
    ensures FinalRet(m, lo, hi, write, ret) <= ret
    ensures FinalRet(m, lo, hi, write, ret) < 0 ==> write
  {
    if !write && ret > 0 { CutRead(m, lo, hi, ret); }
    if ret == 0 { assert Unmapped(m, lo, 0) == []; }
  }

  // ------------------------------------------------- completion in terms of bytes

  /** Block `k` of the transfer is accounted for exactly if it holds a byte below the count. */
  lemma AccountedExactly(ret: nat, lo: nat, hi: nat, k: nat)
    requires lo <= hi
    ensures k < DoneBlocks(ret, lo, hi) <==> k <= hi - lo && k * PAGE < ret
  {
  }

  /** Block `k` of the transfer holds a byte below the count and was never handed to DMA. */
  predicate Missed(m: seq<BlockState>, lo: nat, hi: nat, ret: nat, k: nat)
    requires lo <= hi < |m|
  {
    k <= hi - lo && k * PAGE < ret && m[lo + k] != DmaStart
  }

  /** Block `k` holds no byte below the count and is neither queued nor handed to DMA. */
  predicate Spoilt(m: seq<BlockState>, lo: nat, hi: nat, ret: nat, k: nat)
    requires lo <= hi < |m|
  {
    k <= hi - lo && k * PAGE >= ret && !InTransfer(m[lo + k])
  }

  /** A completed write ends in an error exactly if a block below the count was missed or one past
      it is spoilt, and a read exactly if one past it is spoilt. */
  lemma ErrorExactly(m: seq<BlockState>, lo: nat, hi: nat, write: bool, ret: nat)
    requires lo <= hi < |m|
    ensures FinalRet(m, lo, hi, write, ret) == EIO <==>
              (write && exists k :: Missed(m, lo, hi, ret, k)) || (exists k :: Spoilt(m, lo, hi, ret, k))
    ensures write && FinalRet(m, lo, hi, write, ret) != EIO ==> FinalRet(m, lo, hi, write, ret) == ret
  {
    var n := DoneBlocks(ret, lo, hi);
    hide Runs, Unmapped, ReadLimit, DoneBlocks;
    forall k: nat
      ensures k < n <==> k <= hi - lo && k * PAGE < ret
    {
      AccountedExactly(ret, lo, hi, k);
    }
    AccountedExactly(ret, lo, hi, hi - lo + 1);
    if i :| lo <= i < lo + n && m[i] != DmaStart { assert Missed(m, lo, hi, ret, i - lo); }
    if i :| lo + n <= i <= hi && !InTransfer(m[i]) { assert Spoilt(m, lo, hi, ret, i - lo); }
    if k :| Missed(m, lo, hi, ret, k) { assert m[lo + k] != DmaStart; }
    if k :| Spoilt(m, lo, hi, ret, k) { assert !InTransfer(m[lo + k]); }
  }

  /** The runs of a completed read are those of the blocks that were missed. */
  lemma RunsMissed(m: seq<BlockState>, lo: nat, hi: nat, ret: nat, k: nat)
    requires lo <= hi < |m| && k <= hi - lo
    ensures Covered(Runs(Unmapped(m, lo, DoneBlocks(ret, lo, hi))), k) <==> Missed(m, lo, hi, ret, k)
  {
    var n := DoneBlocks(ret, lo, hi);
    AccountedExactly(ret, lo, hi, k);
    RunsApart(Unmapped(m, lo, n));
    hide Runs, DoneBlocks;
    if k < n { RunsCover(Unmapped(m, lo, n), k); }
  }

  /** A read gets a hole list exactly if the file is sparse or a block below the count was missed.
      Up to the start of a 768th entry the list covers exactly the blocks that were missed, and
      with fewer entries it does so throughout. */
  lemma HolesExactly(m: seq<BlockState>, lo: nat, hi: nat, checkSparse: bool, ret: nat, k: nat)
    requires lo <= hi < |m| && k <= hi - lo
    ensures var c := CompletionOf(m, lo, hi, false, checkSparse, ret);
            && (c.sparse.Some? <==> checkSparse || exists j :: Missed(m, lo, hi, ret, j))
            && (c.sparse.Some? ==>
                  var list, full := c.sparse.value, |c.sparse.value| >= MAX_HOLE_REGIONS;
                  && |list| <= MAX_HOLE_REGIONS
                  && (!full || k < list[MAX_HOLE_REGIONS - 1].start ==>
                        (Covered(list, k) <==> Missed(m, lo, hi, ret, k))))
  {
    var rs := Runs(Unmapped(m, lo, DoneBlocks(ret, lo, hi)));
    RunsApart(Unmapped(m, lo, DoneBlocks(ret, lo, hi)));
    ReportedExact(rs);
    RunsMissed(m, lo, hi, ret, k);
    hide Runs, DoneBlocks, Unmapped, Missed, Reported;
    if rs != [] {
      RunsMissed(m, lo, hi, ret, rs[0].start);
      assert Covered(rs, rs[0].start);
    }
    if j :| Missed(m, lo, hi, ret, j) { MissedRun(m, lo, hi, ret, j); }
    CoverPrefix(rs, |Unmapped(m, lo, DoneBlocks(ret, lo, hi))|, k);
  }

  lemma MissedRun(m: seq<BlockState>, lo: nat, hi: nat, ret: nat, k: nat)
    requires lo <= hi < |m| && Missed(m, lo, hi, ret, k)
    ensures Runs(Unmapped(m, lo, DoneBlocks(ret, lo, hi))) != []
  {
    RunsMissed(m, lo, hi, ret, k);
  }

  /** Below the start of a 768th entry the list covers what the runs cover. */
  lemma CoverPrefix(rs: seq<Run>, n: nat, k: nat)
    requires Apart(rs, n)
    ensures NonEmpty(rs) && |Reported(rs)| == Min(|rs|, MAX_HOLE_REGIONS)
    ensures |rs| < MAX_HOLE_REGIONS || k < Reported(rs)[MAX_HOLE_REGIONS - 1].start ==>
              (Covered(Reported(rs), k) <==> Covered(rs, k))
  {
    ReportedExact(rs);
    hide Reported;
    var list := Reported(rs);
    if i :| 0 <= i < |list| && list[i].start <= k < list[i].End() {
      if i < MAX_HOLE_REGIONS - 1 { assert rs[i].start <= k < rs[i].End(); }
    }
    if i :| 0 <= i < |rs| && rs[i].start <= k < rs[i].End() {
      if i < MAX_HOLE_REGIONS - 1 { assert list[i].start <= k < list[i].End(); }
    }
  }
}
