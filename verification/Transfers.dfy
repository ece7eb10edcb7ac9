/**
  Requests on one buffer, as values: what marking its vectors for DMA does to the blocks of a
  chunk, what the chunk returns and leaves behind, how a whole request ends on any block states
  and under any behaviour of the kernel, and what a sequence of requests comes to. The `Mgroup`
  module runs the same in place.
*/
module Transfers {
  import opened Units
  import opened Holes
  import opened Blocks
  import opened TransferPlan
  import opened Placement

  const EINVAL := -22
  const ERESTARTSYS := -512
  const EIOCBQUEUED := -529

  /** What the file system may answer to a synchronous call: a byte count or an error, but not that
      it has queued the call. */
  type Answer = x: int | x != EIOCBQUEUED witness 0

  type Length = x: nat | x > 0 witness 1

  // ------------------------------------------------- marking vectors

  /** A vector of the block layer: `len` bytes from byte `offset` of shadow page `page` on. */
  datatype BVec = BVec(page: nat, offset: nat, len: Length) {
    function First(): nat { page + offset / PAGE }
    function Last(): nat { page + (offset + len - 1) / PAGE }
  }

  /** Mark blocks `i..last`, up to the first that is not in transfer, which is put in error. */
  function MarkFrom(m: seq<BlockState>, i: nat, last: int): (m': seq<BlockState>)
    ensures |m'| == |m|
    decreases last + 1 - i
  {
    if i > last || i >= |m| then m
    else if !InTransfer(m[i]) then m[i := DmaError]
    else MarkFrom(m[i := DmaStart], i + 1, last)
  }

  /** Mark a vector while blocks `lo..hi` are active. Its first page is looked up among the active
      ones; the others are only checked for their state. */
  function MarkVec(m: seq<BlockState>, lo: nat, hi: int, v: BVec): (m': seq<BlockState>)
    ensures |m'| == |m|
  {
    if v.page < lo || v.page > hi || v.page >= |m| then m
    else if !InTransfer(m[v.page]) then m[v.page := DmaError]
    else MarkFrom(m, v.First(), v.Last())
  }

  function MarkAll(m: seq<BlockState>, lo: nat, hi: int, vecs: seq<BVec>): (m': seq<BlockState>)
    ensures |m'| == |m|
  {
    if |vecs| == 0 then m else MarkVec(MarkAll(m, lo, hi, vecs[..|vecs| - 1]), lo, hi, vecs[|vecs| - 1])
  }

  /** While a chunk is under way: the active blocks are in transfer, the others reset or in error. */
  predicate Afloat(m: seq<BlockState>, lo: nat, hi: int) {
    && hi < |m|
    && (forall i | lo <= i <= hi :: InTransfer(m[i]))
    && (forall i | 0 <= i < |m| && !(lo <= i <= hi) :: m[i] == Init || m[i] == DmaError)
  }

  /** The vector starts in the active range and goes on to a block past it. */
  predicate Strays(blocks: nat, lo: nat, hi: int, v: BVec) {
    lo <= v.page <= hi && v.Last() > hi && StrayBlock(hi, v) < blocks
  }

  /** The first block past the active range that it comes to. */
  function StrayBlock(hi: int, v: BVec): int {
    if v.First() > hi then v.First() else hi + 1
  }

  /** The vector is looked up among the active pages, and covers block `i`. */
  predicate Reaches(lo: nat, hi: int, v: BVec, i: int) {
    lo <= v.page <= hi && v.First() <= i <= v.Last()
  }

  /** What marking blocks `i..last` does, block by block. */
  lemma {:induction false} MarkFromExact(m: seq<BlockState>, lo: nat, hi: int, i: nat, last: int, j: nat)
    requires Afloat(m, lo, hi) && lo <= i && j < |m|
    ensures var stray := if i > hi then i else hi + 1;
            MarkFrom(m, i, last)[j] ==
              if i <= j <= last && j <= hi then DmaStart
              else if last > hi && i <= last && j == stray then DmaError
              else m[j]
    decreases last + 1 - i
  {
    if i <= last && i < |m| && InTransfer(m[i]) {
      var m' := m[i := DmaStart];
      assert Afloat(m', lo, hi);
      MarkFromExact(m', lo, hi, i + 1, last, j);
    }
  }

  /** What marking one vector does, block by block. */
  lemma MarkVecExact(m: seq<BlockState>, lo: nat, hi: int, v: BVec, j: nat)
    requires Afloat(m, lo, hi) && j < |m|
    ensures MarkVec(m, lo, hi, v)[j] ==
              if lo <= j <= hi && Reaches(lo, hi, v, j) then DmaStart
              else if Strays(|m|, lo, hi, v) && j == StrayBlock(hi, v) then DmaError
              else m[j]
  {
    if lo <= v.page <= hi {
      assert v.First() <= v.Last();
      MarkFromExact(m, lo, hi, v.First(), v.Last(), j);
    }
  }

  lemma MarkVecAfloat(m: seq<BlockState>, lo: nat, hi: int, v: BVec)
    requires Afloat(m, lo, hi)
    ensures Afloat(MarkVec(m, lo, hi, v), lo, hi)
  {
    hide MarkVec, Reaches, Strays;
    var m' := MarkVec(m, lo, hi, v);
    forall i | 0 <= i < |m|
      ensures if lo <= i <= hi then InTransfer(m'[i]) else m'[i] == Init || m'[i] == DmaError
    {
      MarkVecExact(m, lo, hi, v, i);
      StrayOutside(lo, hi, v);
    }
  }

  lemma StrayOutside(lo: nat, hi: int, v: BVec)
    ensures StrayBlock(hi, v) > hi
  {
  }

  lemma {:induction false} MarkAllAfloat(m: seq<BlockState>, lo: nat, hi: int, vecs: seq<BVec>)
    requires Afloat(m, lo, hi)
    ensures Afloat(MarkAll(m, lo, hi, vecs), lo, hi)
  {
    if |vecs| > 0 {
      hide Afloat, MarkVec;
      MarkAllAfloat(m, lo, hi, vecs[..|vecs| - 1]);
      MarkVecAfloat(MarkAll(m, lo, hi, vecs[..|vecs| - 1]), lo, hi, vecs[|vecs| - 1]);
    }
  }

  /** One of the vectors reaches active block `j`; one of them strays to block `j`. */
  predicate AnyReaches(lo: nat, hi: int, vecs: seq<BVec>, j: int) {
    exists k :: 0 <= k < |vecs| && Reaches(lo, hi, vecs[k], j)
  }

  predicate AnyStrays(blocks: nat, lo: nat, hi: int, vecs: seq<BVec>, j: int) {
    exists k :: 0 <= k < |vecs| && Strays(blocks, lo, hi, vecs[k]) && j == StrayBlock(hi, vecs[k])
  }

  lemma AnySnoc(blocks: nat, lo: nat, hi: int, vecs: seq<BVec>, j: int)
    requires |vecs| > 0
    ensures var rest, v := vecs[..|vecs| - 1], vecs[|vecs| - 1];
            && (AnyReaches(lo, hi, vecs, j) <==> AnyReaches(lo, hi, rest, j) || Reaches(lo, hi, v, j))
            && (AnyStrays(blocks, lo, hi, vecs, j) <==>
                  AnyStrays(blocks, lo, hi, rest, j) || (Strays(blocks, lo, hi, v) && j == StrayBlock(hi, v)))
  {
    hide Reaches, Strays, StrayBlock;
    var n := |vecs| - 1;
    assert forall k | 0 <= k < n :: vecs[..n][k] == vecs[k];
    if k :| 0 <= k < n && Reaches(lo, hi, vecs[..n][k], j) {
      assert Reaches(lo, hi, vecs[k], j);
    }
    if k :| 0 <= k < n && Strays(blocks, lo, hi, vecs[..n][k]) && j == StrayBlock(hi, vecs[..n][k]) {
      assert Strays(blocks, lo, hi, vecs[k]) && j == StrayBlock(hi, vecs[k]);
    }
  }

  /** What marking a list of vectors does: the active blocks that one of them reaches are handed to
      DMA, and the blocks that one of them strays to are in error. */
  lemma {:induction false} MarkAllExact(m: seq<BlockState>, lo: nat, hi: int, vecs: seq<BVec>, j: nat)
    requires Afloat(m, lo, hi) && j < |m|
    ensures MarkAll(m, lo, hi, vecs)[j] ==
              if lo <= j <= hi && AnyReaches(lo, hi, vecs, j) then DmaStart
              else if AnyStrays(|m|, lo, hi, vecs, j) then DmaError
              else m[j]
  {
    if |vecs| > 0 {
      hide Afloat, MarkVec, Reaches, Strays, StrayBlock, AnyReaches, AnyStrays;
      var n := |vecs| - 1;
      MarkAllExact(m, lo, hi, vecs[..n], j);
      MarkAllAfloat(m, lo, hi, vecs[..n]);
      MarkVecExact(MarkAll(m, lo, hi, vecs[..n]), lo, hi, vecs[n], j);
      AnySnoc(|m|, lo, hi, vecs, j);
      StrayOutside(lo, hi, vecs[n]);
    }
  }

  // ------------------------------------------------- one chunk

  /** What the file system and the rest of the kernel do with one chunk: whether the I/O state is
      still IN_PROGRESS before it, which vectors reach the DMA layer, the byte count or error
      returned, whether the process is exiting, and whether the file is sparse. */
  datatype ChunkIo = ChunkIo(inProgress: bool, vecs: seq<BVec>, res: Answer, exiting: bool, sparseFile: bool)

  /** A chunk that is interrupted keeps its blocks in use: the process is exiting, or the file
      system was stopped by a signal. */
  predicate Interrupted(io: ChunkIo) {
    io.exiting || io.res == ERESTARTSYS
  }

  /** How a chunk ends: the result, whether the next one follows, the block states, and the hole
      list if one is written. */
  datatype ChunkEnd = ChunkEnd(out: int, whole: bool, m: seq<BlockState>, sparse: Option<seq<Run>>)

  /** The active blocks of a chunk lie in a buffer of `blocks` pages. */
  predicate Fits(ch: Chunk, blocks: nat) {
    ch.activeStart <= ch.activeEnd < blocks && ch.issued > 0
  }

  /** The block states once the vectors of the chunk are marked. */
  function MarkedBy(blocks: nat, ch: Chunk, vecs: seq<BVec>): (m: seq<BlockState>)
    ensures |m| == blocks
  {
    MarkAll(Filled(blocks, ch.activeStart, Span(ch)), ch.activeStart, ch.activeEnd, vecs)
  }

  /** The number of active blocks. */
  function Span(ch: Chunk): nat {
    if ch.activeStart <= ch.activeEnd then ch.activeEnd - ch.activeStart + 1 else 0
  }

  /** A chunk from its accepted fill on. Without both a read and a write operation the file is never
      called and nothing completes the chunk. */
  function RunChunk(blocks: nat, ch: Chunk, write: bool, ops: bool, io: ChunkIo): ChunkEnd
    requires Fits(ch, blocks)
  {
    if !ops then ChunkEnd(EINVAL, false, Filled(blocks, ch.activeStart, Span(ch)), None)
    else
      var m, res := MarkedBy(blocks, ch, io.vecs), Min(io.res, ch.issued);
      var c := CompletionOf(m, ch.activeStart, ch.activeEnd, write, !write && io.sparseFile, res);
      var out := if c.ret == res then res else if c.ret < 0 then 0 else c.ret;
      ChunkEnd(out,
               out == ch.issued && (c.sparse.Some? ==> c.sparse.value == []),
               if Interrupted(io) then m else Painted(m, ch.activeStart, ch.activeEnd, Done),
               c.sparse)
  }

  lemma FilledAfloat(blocks: nat, ch: Chunk)
    requires Fits(ch, blocks)
    ensures Afloat(Filled(blocks, ch.activeStart, Span(ch)), ch.activeStart, ch.activeEnd)
  {
  }

  /** A chunk returns an error of the file system unchanged, and otherwise at most its count. */
  lemma ChunkBounds(blocks: nat, ch: Chunk, write: bool, ops: bool, io: ChunkIo)
    requires Fits(ch, blocks)
    ensures var e := RunChunk(blocks, ch, write, ops, io);
            && (ops && io.res < 0 ==> e.out == io.res && !e.whole)
            && (ops && io.res >= 0 ==> 0 <= e.out <= Min(io.res, ch.issued))
            && (e.whole ==> ops && e.out == ch.issued)
  {
    if ops && io.res >= 0 {
      FilledAfloat(blocks, ch);
      MarkAllAfloat(Filled(blocks, ch.activeStart, Span(ch)), ch.activeStart, ch.activeEnd, io.vecs);
      FinalRetBounds(MarkedBy(blocks, ch, io.vecs), ch.activeStart, ch.activeEnd, write, Min(io.res, ch.issued));
    }
  }

  /** Block `i` is still in use after the chunk. */
  predicate InUse(blocks: nat, ch: Chunk, ops: bool, io: ChunkIo, i: int) {
    || ((!ops || Interrupted(io)) && ch.activeStart <= i <= ch.activeEnd)
    || (ops && AnyStrays(blocks, ch.activeStart, ch.activeEnd, io.vecs, i))
  }

  lemma StraysApart(blocks: nat, lo: nat, hi: int, vecs: seq<BVec>, i: int)
    ensures AnyStrays(blocks, lo, hi, vecs, i) ==> i > hi
  {
  }

  /** What a chunk leaves in use, exactly: its own blocks if it is interrupted or never completed,
      and the blocks that its vectors strayed to. */
  lemma InUseExactly(blocks: nat, ch: Chunk, write: bool, ops: bool, io: ChunkIo, i: nat)
    requires Fits(ch, blocks) && i < blocks
    ensures !Fillable(RunChunk(blocks, ch, write, ops, io).m[i]) <==> InUse(blocks, ch, ops, io, i)
  {
    FilledAfloat(blocks, ch);
    if ops {
      var lo, hi := ch.activeStart, ch.activeEnd;
      hide MarkAll, AnyStrays, AnyReaches, CompletionOf;
      MarkAllExact(Filled(blocks, lo, Span(ch)), lo, hi, io.vecs, i);
      StraysApart(blocks, lo, hi, io.vecs, i);
    }
  }

  // ------------------------------------------------- one request

  /** What surrounds the chunks of a request: its direction, whether the file has both operations,
      and what the kernel does with the `k`-th chunk. */
  datatype Kernel = Kernel(write: bool, ops: bool, dev: nat -> ChunkIo)

  predicate AllFit(plan: seq<Chunk>, blocks: nat) {
    forall k | 0 <= k < |plan| :: Fits(plan[k], blocks)
  }

  /** A block that the chunk needs is in use. */
  ghost predicate Blocked(m: seq<BlockState>, ch: Chunk) {
    exists i :: ch.activeStart <= i <= ch.activeEnd && i < |m| && !Fillable(m[i])
  }

  function EndOf(blocks: nat, plan: seq<Chunk>, e: Kernel, k: nat): ChunkEnd
    requires AllFit(plan, blocks) && k < |plan|
  {
    RunChunk(blocks, plan[k], e.write, e.ops, e.dev(k))
  }

  /** The block states before chunk `k`, on a buffer found in states `m`. */
  function StateAt(blocks: nat, plan: seq<Chunk>, e: Kernel, m: seq<BlockState>, k: nat): seq<BlockState>
    requires AllFit(plan, blocks) && k <= |plan|
  {
    if k == 0 then m else EndOf(blocks, plan, e, k - 1).m
  }

  /** The bytes that the first `k` chunks moved. */
  function Moved(blocks: nat, plan: seq<Chunk>, e: Kernel, k: nat): nat
    requires AllFit(plan, blocks) && k <= |plan|
  {
    if k == 0 then 0
    else
      var out := EndOf(blocks, plan, e, k - 1).out;
      Moved(blocks, plan, e, k - 1) + if out > 0 then out else 0
  }

  /** The hole list that stands after the first `k` chunks, where `list` stood before. */
  function ListAt(blocks: nat, plan: seq<Chunk>, e: Kernel, list: Option<seq<Run>>, k: nat): Option<seq<Run>>
    requires AllFit(plan, blocks) && k <= |plan|
  {
    if k == 0 then list
    else if EndOf(blocks, plan, e, k - 1).sparse.Some? then EndOf(blocks, plan, e, k - 1).sparse
    else ListAt(blocks, plan, e, list, k - 1)
  }

  /** Chunk `k` is attempted and needs a block in use. */
  ghost predicate Hits(blocks: nat, plan: seq<Chunk>, e: Kernel, m: seq<BlockState>, k: nat)
    requires AllFit(plan, blocks)
  {
    k < |plan| && e.dev(k).inProgress && Blocked(StateAt(blocks, plan, e, m, k), plan[k])
  }

  /** Chunk `k` is attempted, is filled, and comes back whole. */
  ghost predicate GoesOn(blocks: nat, plan: seq<Chunk>, e: Kernel, m: seq<BlockState>, k: nat)
    requires AllFit(plan, blocks)
  {
    && k < |plan| && e.dev(k).inProgress && !Blocked(StateAt(blocks, plan, e, m, k), plan[k])
    && EndOf(blocks, plan, e, k).whole
  }

  /** The first chunk from `k` on that does not go on, or the end of the plan. */
  ghost function Stop(blocks: nat, plan: seq<Chunk>, e: Kernel, m: seq<BlockState>, k: nat): (n: nat)
    requires AllFit(plan, blocks) && k <= |plan|
    ensures k <= n <= |plan|
    decreases |plan| - k
  {
    if k < |plan| && GoesOn(blocks, plan, e, m, k) then Stop(blocks, plan, e, m, k + 1) else k
  }

  lemma {:induction false} StopExact(blocks: nat, plan: seq<Chunk>, e: Kernel, m: seq<BlockState>, k: nat)
    requires AllFit(plan, blocks) && k <= |plan|
    ensures var n := Stop(blocks, plan, e, m, k);
            && (n < |plan| ==> !GoesOn(blocks, plan, e, m, n))
            && forall j | k <= j < n :: GoesOn(blocks, plan, e, m, j)
    decreases |plan| - k
  {
    hide GoesOn;
    if k < |plan| && GoesOn(blocks, plan, e, m, k) { StopExact(blocks, plan, e, m, k + 1); }
  }

  /** How a request ends: the chunks issued, the result or a failed assertion (`None`), and the
      block states it leaves. */
  datatype Ending = Ending(n: nat, out: Option<int>, m: seq<BlockState>)

  /** The end of a request of `size` bytes whose chunk `n` is the first that does not go on. */
  ghost function EndingAt(blocks: nat, plan: seq<Chunk>, size: nat, e: Kernel, m: seq<BlockState>, n: nat): (x: Ending)
    requires AllFit(plan, blocks) && n <= |plan|
    ensures x.n <= |plan|
  {
    var now := StateAt(blocks, plan, e, m, n);
    if n == |plan| then Ending(n, Some(if Total(plan) == size then size else EIO), now)
    else if !e.dev(n).inProgress then Ending(n, Some(EIO), now)
    else if Blocked(now, plan[n]) then Ending(n, None, now)
    else
      var c := EndOf(blocks, plan, e, n);
      Ending(n + 1, Some(if c.out < 0 then c.out else Total(plan[..n]) + c.out), c.m)
  }

  ghost function Ends(blocks: nat, plan: seq<Chunk>, size: nat, e: Kernel, m: seq<BlockState>): (x: Ending)
    requires AllFit(plan, blocks)
    ensures x.n <= |plan|
  {
    EndingAt(blocks, plan, size, e, m, Stop(blocks, plan, e, m, 0))
  }

  /** A request found in states `m` has come to chunk `k` and has left states `now`. */
  ghost predicate Reached(blocks: nat, plan: seq<Chunk>, e: Kernel, m: seq<BlockState>, k: nat, now: seq<BlockState>)
    requires AllFit(plan, blocks)
  {
    && k <= |plan| && now == StateAt(blocks, plan, e, m, k)
    && Stop(blocks, plan, e, m, k) == Stop(blocks, plan, e, m, 0)
  }

  lemma ReachedStart(blocks: nat, plan: seq<Chunk>, e: Kernel, m: seq<BlockState>)
    requires AllFit(plan, blocks)
    ensures Reached(blocks, plan, e, m, 0, m)
  {
  }

  /** What comes of chunk `k`. */
  lemma ReachedStep(blocks: nat, plan: seq<Chunk>, size: nat, e: Kernel,
                    m: seq<BlockState>, k: nat, now: seq<BlockState>)
    requires AllFit(plan, blocks) && k <= |plan| && Reached(blocks, plan, e, m, k, now)
    ensures var x := Ends(blocks, plan, size, e, m);
            if k == |plan| then x == Ending(k, Some(if Total(plan[..k]) == size then size else EIO), now)
            else if !e.dev(k).inProgress then x == Ending(k, Some(EIO), now)
            else if Blocked(now, plan[k]) then x.n == k && x.out == None
            else
              var c := RunChunk(blocks, plan[k], e.write, e.ops, e.dev(k));
              if c.whole then Reached(blocks, plan, e, m, k + 1, c.m)
              else x == Ending(k + 1, Some(if c.out < 0 then c.out else Total(plan[..k]) + c.out), c.m)
  {
    hide Blocked, RunChunk, Total;
    assert k == |plan| ==> plan[..k] == plan;
    assert Stop(blocks, plan, e, m, k) ==
           if GoesOn(blocks, plan, e, m, k) then Stop(blocks, plan, e, m, k + 1) else k;
  }

  /** An assertion fails exactly at a chunk that needs a block in use when every chunk before it
      came back whole. */
  lemma CrashesExactly(blocks: nat, plan: seq<Chunk>, size: nat, e: Kernel, m: seq<BlockState>)
    requires AllFit(plan, blocks)
    ensures Ends(blocks, plan, size, e, m).out.None? <==>
            exists n: nat :: Hits(blocks, plan, e, m, n) && forall k | 0 <= k < n :: GoesOn(blocks, plan, e, m, k)
  {
    hide Blocked, RunChunk;
    var n := Stop(blocks, plan, e, m, 0);
    StopExact(blocks, plan, e, m, 0);
    if i: nat :| Hits(blocks, plan, e, m, i) && forall k | 0 <= k < i :: GoesOn(blocks, plan, e, m, k) {
      assert !GoesOn(blocks, plan, e, m, i);
      assert n == i;
    }
    if Ends(blocks, plan, size, e, m).out.None? {
      assert Hits(blocks, plan, e, m, n);
    }
  }

  /** Chunk `next` needs a block that chunk `ch` leaves in use. */
  ghost predicate Collides(blocks: nat, ch: Chunk, ops: bool, io: ChunkIo, next: Chunk) {
    exists i :: next.activeStart <= i <= next.activeEnd && InUse(blocks, ch, ops, io, i)
  }

  /** After its first chunk, what a request meets is what its chunk before left: that chunk's own
      blocks if it was interrupted or never completed, and the blocks its vectors strayed to. */
  lemma HitsExactly(blocks: nat, plan: seq<Chunk>, e: Kernel, m: seq<BlockState>, k: nat)
    requires AllFit(plan, blocks) && 0 < k < |plan|
    ensures Hits(blocks, plan, e, m, k) <==>
            e.dev(k).inProgress && Collides(blocks, plan[k - 1], e.ops, e.dev(k - 1), plan[k])
  {
    hide Blocked, Collides, RunChunk;
    BlockedExactly(blocks, plan[k - 1], e.write, e.ops, e.dev(k - 1), plan[k]);
  }

  lemma BlockedExactly(blocks: nat, ch: Chunk, write: bool, ops: bool, io: ChunkIo, next: Chunk)
    requires Fits(ch, blocks) && Fits(next, blocks)
    ensures Blocked(RunChunk(blocks, ch, write, ops, io).m, next) <==> Collides(blocks, ch, ops, io, next)
  {
    var m := RunChunk(blocks, ch, write, ops, io).m;
    ChunkLength(blocks, ch, write, ops, io);
    hide RunChunk, InUse;
    if i :| next.activeStart <= i <= next.activeEnd && i < |m| && !Fillable(m[i]) {
      InUseExactly(blocks, ch, write, ops, io, i);
    }
    if i :| next.activeStart <= i <= next.activeEnd && InUse(blocks, ch, ops, io, i) {
      InUseExactly(blocks, ch, write, ops, io, i);
    }
  }

  lemma ChunkLength(blocks: nat, ch: Chunk, write: bool, ops: bool, io: ChunkIo)
    requires Fits(ch, blocks)
    ensures |RunChunk(blocks, ch, write, ops, io).m| == blocks
  {
  }

  lemma {:induction false} TotalSplit(plan: seq<Chunk>, n: nat)
    requires n < |plan|
    ensures Total(plan[..n + 1]) == Total(plan[..n]) + plan[n].issued && LastIssued(plan[..n + 1]) == plan[n].issued
  {
    TotalAppend(plan[..n], plan[n]);
    assert plan[..n + 1] == plan[..n] + [plan[n]];
  }

  /** Chunks that come back whole move what they were issued for. */
  lemma {:induction false} WholeMoved(blocks: nat, plan: seq<Chunk>, e: Kernel, m: seq<BlockState>, n: nat)
    requires AllFit(plan, blocks) && n <= |plan| && forall k | 0 <= k < n :: GoesOn(blocks, plan, e, m, k)
    ensures Moved(blocks, plan, e, n) == Total(plan[..n])
  {
    hide GoesOn, RunChunk, Blocked;
    if n > 0 {
      WholeMoved(blocks, plan, e, m, n - 1);
      GoesOnWhole(blocks, plan, e, m, n - 1);
      TotalSplit(plan, n - 1);
      assert plan[..n] == plan[..n - 1 + 1];
    }
  }

  lemma GoesOnWhole(blocks: nat, plan: seq<Chunk>, e: Kernel, m: seq<BlockState>, k: nat)
    requires AllFit(plan, blocks) && GoesOn(blocks, plan, e, m, k)
    ensures k < |plan| && EndOf(blocks, plan, e, k).out == plan[k].issued > 0
  {
    ChunkBounds(blocks, plan[k], e.write, e.ops, e.dev(k));
  }

  /** The count returned is what the chunks moved. */
  lemma CountMoved(blocks: nat, plan: seq<Chunk>, size: nat, e: Kernel, m: seq<BlockState>)
    requires AllFit(plan, blocks)
    ensures var x := Ends(blocks, plan, size, e, m);
            x.out.Some? && x.out.value >= 0 ==> x.out.value == Moved(blocks, plan, e, x.n)
  {
    var n := Stop(blocks, plan, e, m, 0);
    StopExact(blocks, plan, e, m, 0);
    WholeMoved(blocks, plan, e, m, n);
    assert n == |plan| ==> plan[..n] == plan;
    hide Blocked, RunChunk, Stop, Total, GoesOn;
  }

  /** That is all of those before the last one issued, and at most that one. */
  lemma CountBounded(blocks: nat, plan: seq<Chunk>, size: nat, e: Kernel, m: seq<BlockState>)
    requires AllFit(plan, blocks)
    ensures var x := Ends(blocks, plan, size, e, m);
            x.out.Some? && x.out.value >= 0 ==>
              && x.n <= |plan|
              && Total(plan[..x.n]) - LastIssued(plan[..x.n]) <= x.out.value <= Total(plan[..x.n])
  {
    var n := Stop(blocks, plan, e, m, 0);
    assert n == |plan| ==> plan[..n] == plan;
    hide Blocked, RunChunk, Stop, Total, LastIssued;
    if n < |plan| {
      ChunkBounds(blocks, plan[n], e.write, e.ops, e.dev(n));
      TotalSplit(plan, n);
    }
  }

  // ------------------------------------------------- a cooperating file system

  /** The shadow pages that the user address range of the chunk covers. */
  function FirstPage(b: Buffer, ch: Chunk): int { (ch.cpuvaddr - b.cpuBase) / PAGE }

  /** The vector lies in the user address range of the chunk. */
  predicate Own(b: Buffer, ch: Chunk, v: BVec) {
    FirstPage(b, ch) <= v.page && v.Last() < FirstPage(b, ch) + ch.issued / PAGE
  }

  predicate OwnVecs(b: Buffer, ch: Chunk, vecs: seq<BVec>) {
    forall k | 0 <= k < |vecs| :: Own(b, ch, vecs[k])
  }

  predicate CoveredBy(vecs: seq<BVec>, p: int) {
    exists k :: 0 <= k < |vecs| && vecs[k].First() <= p <= vecs[k].Last()
  }

  /** The block layer sees vectors of the chunk's own range, and all of it. */
  predicate Covers(b: Buffer, ch: Chunk, vecs: seq<BVec>) {
    && OwnVecs(b, ch, vecs)
    && (forall p | FirstPage(b, ch) <= p < FirstPage(b, ch) + ch.issued / PAGE :: CoveredBy(vecs, p))
  }

  /** A call that maps the whole range and returns at least what is asked, while the I/O stays in
      progress. */
  predicate Cooperates(b: Buffer, ch: Chunk, io: ChunkIo) {
    io.inProgress && io.res >= ch.issued && Covers(b, ch, io.vecs)
  }

  /** The user address of a chunk that is addressed right covers its active blocks. */
  lemma AddressedPages(b: Buffer, r: Request, ch: Chunk)
    requires Addressed(b, ch) && Sound(b, r, ch)
    ensures FirstPage(b, ch) == ch.activeStart && FirstPage(b, ch) + ch.issued / PAGE == ch.activeEnd + 1
    ensures Fits(ch, b.blocks)
  {
    assert ch.cpuvaddr - b.cpuBase == ch.activeStart * PAGE;
  }

  /** No vector of its own range strays from a chunk that is addressed right. */
  lemma OwnNeverStrays(b: Buffer, r: Request, ch: Chunk, vecs: seq<BVec>, i: int)
    requires Addressed(b, ch) && Sound(b, r, ch)
    requires OwnVecs(b, ch, vecs)
    ensures !AnyStrays(b.blocks, ch.activeStart, ch.activeEnd, vecs, i)
  {
    AddressedPages(b, r, ch);
  }

  /** A chunk that is addressed right comes back whole from a cooperating file system. */
  lemma CooperatesWhole(b: Buffer, r: Request, ch: Chunk, write: bool, io: ChunkIo)
    requires Addressed(b, ch) && Sound(b, r, ch) && Cooperates(b, ch, io)
    ensures Fits(ch, b.blocks) && RunChunk(b.blocks, ch, write, true, io).whole
  {
    AddressedPages(b, r, ch);
    var m, lo, hi := MarkedBy(b.blocks, ch, io.vecs), ch.activeStart, ch.activeEnd;
    forall i | lo <= i <= hi
      ensures m[i] == DmaStart
    {
      ReachedAll(b, r, ch, io, i);
    }
    hide MarkedBy, MarkAll;
    FullyMapped(m, lo, hi, write, ch.issued);
  }

  lemma ReachedAll(b: Buffer, r: Request, ch: Chunk, io: ChunkIo, i: nat)
    requires Addressed(b, ch) && Sound(b, r, ch) && Cooperates(b, ch, io)
    requires ch.activeStart <= i <= ch.activeEnd < b.blocks
    ensures MarkedBy(b.blocks, ch, io.vecs)[i] == DmaStart
  {
    AddressedPages(b, r, ch);
    FilledAfloat(b.blocks, ch);
    OwnReaches(b, r, ch, io.vecs, i);
    hide MarkAll, AnyReaches, AnyStrays, Covers, Sound, Filled;
    MarkAllExact(Filled(b.blocks, ch.activeStart, Span(ch)), ch.activeStart, ch.activeEnd, io.vecs, i);
  }

  lemma OwnReaches(b: Buffer, r: Request, ch: Chunk, vecs: seq<BVec>, i: nat)
    requires Addressed(b, ch) && Sound(b, r, ch) && Covers(b, ch, vecs)
    requires ch.activeStart <= i <= ch.activeEnd
    ensures AnyReaches(ch.activeStart, ch.activeEnd, vecs, i)
  {
    AddressedPages(b, r, ch);
    assert CoveredBy(vecs, i);
    var k :| 0 <= k < |vecs| && vecs[k].First() <= i <= vecs[k].Last();
    assert Own(b, ch, vecs[k]);
    assert Reaches(ch.activeStart, ch.activeEnd, vecs[k], i);
  }

  lemma PlanFits(b: Buffer, r: Request)
    requires Mapped(b) && Accepts(b, r)
    ensures AllFit(Plan(b, r), b.blocks)
    ensures forall k | 0 <= k < |Plan(b, r)| :: Sound(b, r, Plan(b, r)[k])
  {
    FirstOnTrack(b, r);
    PlanSound(b, r, First(b, r));
    forall k | 0 <= k < |Plan(b, r)|
      ensures Sound(b, r, Plan(b, r)[k]) && Fits(Plan(b, r)[k], b.blocks)
    {
      assert Plan(b, r)[k] in Plan(b, r);
    }
  }

  /** How an accepted request ends. */
  ghost function RequestEnds(b: Buffer, r: Request, e: Kernel, m: seq<BlockState>): (x: Ending)
    requires Mapped(b) && Accepts(b, r)
    ensures x.n <= |Plan(b, r)|
  {
    PlanFits(b, r);
    Ends(b.blocks, Plan(b, r), r.size, e, m)
  }

  /** The kernel cooperates on every chunk of the plan. */
  ghost predicate AllCooperate(b: Buffer, plan: seq<Chunk>, dev: nat -> ChunkIo) {
    forall k | 0 <= k < |plan| :: Cooperates(b, plan[k], dev(k))
  }

  /** With a cooperating file system a request that misplaces nothing reaches the end of its plan,
      unless a chunk needs a block in use; then, and only then, an assertion fails. */
  lemma CooperatingExactly(b: Buffer, r: Request, e: Kernel, m: seq<BlockState>)
    requires Mapped(b) && Accepts(b, r) && !Misplaces(b, r)
    requires e.ops && AllCooperate(b, Plan(b, r), e.dev)
    ensures AllFit(Plan(b, r), b.blocks)
    ensures var plan, x := Plan(b, r), RequestEnds(b, r, e, m);
            if exists n :: Hits(b.blocks, plan, e, m, n) then x.out.None?
            else x.n == |plan| && x.out == Some(if Total(plan) == r.size then r.size else EIO)
  {
    var plan := Plan(b, r);
    PlanFits(b, r);
    PlannedAddresses(b, r);
    hide Plan, Mapped, Accepts, Misplaces, Total;
    var n := Stop(b.blocks, plan, e, m, 0);
    StopExact(b.blocks, plan, e, m, 0);
    forall k | 0 <= k < |plan|
      ensures GoesOn(b.blocks, plan, e, m, k) <==> !Hits(b.blocks, plan, e, m, k)
    {
      assert plan[k] in plan && Cooperates(b, plan[k], e.dev(k));
      CooperatesWhole(b, r, plan[k], e.write, e.dev(k));
    }
    if n < |plan| { assert Hits(b.blocks, plan, e, m, n); }
  }

  /** Inside a request that misplaces nothing and sees only vectors of its own, a chunk after the
      first needs a block in use exactly when the one before it was interrupted and the shadow
      buffer is whole GPU pages. */
  lemma HitsInside(b: Buffer, r: Request, e: Kernel, m: seq<BlockState>, k: nat)
    requires Mapped(b) && Accepts(b, r) && !Misplaces(b, r) && e.ops
    requires 0 < k < |Plan(b, r)| && OwnVecs(b, Plan(b, r)[k - 1], e.dev(k - 1).vecs)
    ensures AllFit(Plan(b, r), b.blocks)
    ensures Hits(b.blocks, Plan(b, r), e, m, k) <==>
              e.dev(k).inProgress && Interrupted(e.dev(k - 1)) && b.ShadowSize() % GPU_PAGE == 0
  {
    PlanFits(b, r);
    PlannedAddresses(b, r);
    ChunksMeetExactly(b, r, k);
    var ch, next := Plan(b, r)[k - 1], Plan(b, r)[k];
    assert ch in Plan(b, r);
    hide Plan, Mapped, Accepts, Misplaces, Hits, Sound, Addressed;
    HitsExactly(b.blocks, Plan(b, r), e, m, k);
    CollidesOwn(b, r, ch, e.dev(k - 1), next);
  }

  lemma CollidesOwn(b: Buffer, r: Request, ch: Chunk, io: ChunkIo, next: Chunk)
    requires Addressed(b, ch) && Sound(b, r, ch) && Fits(ch, b.blocks) && Fits(next, b.blocks)
    requires OwnVecs(b, ch, io.vecs)
    ensures Collides(b.blocks, ch, true, io, next) <==> Interrupted(io) && Meets(ch, next)
  {
    forall i
      ensures !AnyStrays(b.blocks, ch.activeStart, ch.activeEnd, io.vecs, i)
    {
      OwnNeverStrays(b, r, ch, io.vecs, i);
    }
    hide AnyStrays, Sound, Addressed, OwnVecs;
    if Interrupted(io) && Meets(ch, next) {
      var i := if ch.activeStart < next.activeStart then next.activeStart else ch.activeStart;
      assert InUse(b.blocks, ch, true, io, i);
    }
  }

  // ------------------------------------------------- a sequence of requests

  /** The file behind a request, and what the caller says about it; `iters` tells whether it has
      both a read and a write operation. */
  datatype FileArgs = FileArgs(open: bool, permitted: bool, oDirect: bool, blockDevice: bool, iters: bool,
                               inum: nat, ino: nat, generation: nat, fileGeneration: nat,
                               majdev: nat, major: nat, mindev: nat, minor: nat)

  /** The checks of `nvfs_io_init` on the file. */
  predicate FileAccepts(f: FileArgs) {
    && f.open && f.permitted && f.oDirect
    && f.inum != 0 && !(f.blockDevice && f.majdev == 0)
    && (f.generation == 0 || f.generation == f.fileGeneration)
    && f.inum == f.ino && f.majdev == f.major && f.mindev == f.minor
  }

  /** A request as the caller makes it, and what the kernel does with its chunks. */
  datatype Job = Job(r: Request, write: bool, cpuArg: nat, file: FileArgs, dev: nat -> ChunkIo) {
    function Env(): Kernel { Kernel(write, file.iters, dev) }
  }

  predicate Takes(b: Buffer, job: Job) {
    Accepts(b, job.r) && job.cpuArg == b.cpuBase && FileAccepts(job.file)
  }

  /** The block states after a job; none if it fails an assertion. */
  ghost function AfterJob(b: Buffer, job: Job, m: seq<BlockState>): Option<seq<BlockState>>
    requires Mapped(b)
  {
    if !Takes(b, job) then Some(m)
    else
      var x := RequestEnds(b, job.r, job.Env(), m);
      if x.out.None? then None else Some(x.m)
  }

  /** The first job from `j` on that fails an assertion, on a buffer that job `j` finds in states `m`. */
  ghost function Crash(b: Buffer, jobs: seq<Job>, m: seq<BlockState>, j: nat): Option<nat>
    requires Mapped(b) && j <= |jobs|
    decreases |jobs| - j
  {
    if j == |jobs| then None
    else
      var after := AfterJob(b, jobs[j], m);
      if after.None? then Some(j) else Crash(b, jobs, after.value, j + 1)
  }

  // ------------------------------------------------- what a job meets

  /** A chunk that was issued, whether the file had both operations, and what the kernel did. */
  datatype Issue = Issue(ch: Chunk, ops: bool, io: ChunkIo)

  /** The chunk needs a block that the last chunk issued left in use. */
  ghost predicate Clashes(blocks: nat, last: Option<Issue>, ch: Chunk) {
    last.Some? && Collides(blocks, last.value.ch, last.value.ops, last.value.io, ch)
  }

  /** The block states are those that the last chunk issued left; before any, all are fillable. */
  ghost predicate LeftBy(blocks: nat, m: seq<BlockState>, last: Option<Issue>) {
    match last
    case None => Idle(m)
    case Some(x) => Fits(x.ch, blocks) && m == RunChunk(blocks, x.ch, false, x.ops, x.io).m
  }

  lemma ClashesExactly(blocks: nat, m: seq<BlockState>, last: Option<Issue>, ch: Chunk)
    requires LeftBy(blocks, m, last) && Fits(ch, blocks)
    ensures Blocked(m, ch) <==> Clashes(blocks, last, ch)
  {
    hide RunChunk, Collides;
    if last.Some? {
      BlockedExactly(blocks, last.value.ch, false, last.value.ops, last.value.io, ch);
    }
  }

  /** The last chunk issued before chunk `k` of a job that comes after `last`. */
  function Preceding(plan: seq<Chunk>, e: Kernel, last: Option<Issue>, k: nat): Option<Issue>
    requires k <= |plan|
  {
    if k == 0 then last else Some(Issue(plan[k - 1], e.ops, e.dev(k - 1)))
  }

  lemma StateLeftBy(blocks: nat, plan: seq<Chunk>, e: Kernel, m: seq<BlockState>, last: Option<Issue>, k: nat)
    requires AllFit(plan, blocks) && k <= |plan| && LeftBy(blocks, m, last)
    ensures LeftBy(blocks, StateAt(blocks, plan, e, m, k), Preceding(plan, e, last, k))
  {
  }

  /** Chunk `n` is attempted and meets what the last chunk issued before it left, and every chunk
      before it is attempted, meets nothing and comes back whole. */
  ghost predicate FailsAt(blocks: nat, plan: seq<Chunk>, e: Kernel, last: Option<Issue>, n: nat)
    requires AllFit(plan, blocks)
  {
    && n < |plan| && e.dev(n).inProgress && Clashes(blocks, Preceding(plan, e, last, n), plan[n])
    && forall k | 0 <= k < n :: Passes(blocks, plan, e, last, k)
  }

  ghost predicate Passes(blocks: nat, plan: seq<Chunk>, e: Kernel, last: Option<Issue>, k: nat)
    requires AllFit(plan, blocks) && k < |plan|
  {
    && e.dev(k).inProgress && !Clashes(blocks, Preceding(plan, e, last, k), plan[k])
    && EndOf(blocks, plan, e, k).whole
  }

  lemma ChunkAgrees(blocks: nat, plan: seq<Chunk>, e: Kernel, m: seq<BlockState>, last: Option<Issue>, k: nat)
    requires AllFit(plan, blocks) && LeftBy(blocks, m, last) && k < |plan|
    ensures Hits(blocks, plan, e, m, k) <==>
              e.dev(k).inProgress && Clashes(blocks, Preceding(plan, e, last, k), plan[k])
    ensures GoesOn(blocks, plan, e, m, k) <==> Passes(blocks, plan, e, last, k)
  {
    StateLeftBy(blocks, plan, e, m, last, k);
    hide Blocked, Clashes, LeftBy, EndOf, StateAt, Preceding;
    ClashesExactly(blocks, StateAt(blocks, plan, e, m, k), Preceding(plan, e, last, k), plan[k]);
  }

  /** A request on blocks as chunk `last` left them fails an assertion exactly if it fails at some
      chunk. */
  lemma FailsExactly(blocks: nat, plan: seq<Chunk>, size: nat, e: Kernel, m: seq<BlockState>, last: Option<Issue>)
    requires AllFit(plan, blocks) && LeftBy(blocks, m, last)
    ensures Ends(blocks, plan, size, e, m).out.None? <==> exists n: nat :: FailsAt(blocks, plan, e, last, n)
  {
    CrashesExactly(blocks, plan, size, e, m);
    hide Ends, LeftBy, Clashes, Preceding, Passes, GoesOn;
    if n: nat :| Hits(blocks, plan, e, m, n) && forall k | 0 <= k < n :: GoesOn(blocks, plan, e, m, k) {
      HitFails(blocks, plan, e, m, last, n);
    }
    if n: nat :| FailsAt(blocks, plan, e, last, n) {
      HitFails(blocks, plan, e, m, last, n);
    }
  }

  lemma HitFails(blocks: nat, plan: seq<Chunk>, e: Kernel, m: seq<BlockState>, last: Option<Issue>, n: nat)
    requires AllFit(plan, blocks) && LeftBy(blocks, m, last) && n < |plan|
    ensures FailsAt(blocks, plan, e, last, n) <==>
              Hits(blocks, plan, e, m, n) && forall k | 0 <= k < n :: GoesOn(blocks, plan, e, m, k)
  {
    hide LeftBy, Clashes, Preceding, Passes, GoesOn, Hits;
    ChunkAgrees(blocks, plan, e, m, last, n);
    forall k | 0 <= k < n
      ensures GoesOn(blocks, plan, e, m, k) <==> Passes(blocks, plan, e, last, k)
    {
      ChunkAgrees(blocks, plan, e, m, last, k);
    }
  }

  /** The last chunk issued once a job is over. */
  ghost function LastIssue(b: Buffer, job: Job, m: seq<BlockState>, last: Option<Issue>): Option<Issue>
    requires Mapped(b)
  {
    if !Takes(b, job) then last
    else Preceding(Plan(b, job.r), job.Env(), last, RequestEnds(b, job.r, job.Env(), m).n)
  }

  /** A job leaves the blocks as the last chunk issued by then left them. */
  lemma JobLeaves(b: Buffer, job: Job, m: seq<BlockState>, last: Option<Issue>)
    requires Mapped(b) && LeftBy(b.blocks, m, last) && AfterJob(b, job, m).Some?
    ensures LeftBy(b.blocks, AfterJob(b, job, m).value, LastIssue(b, job, m, last))
  {
    if Takes(b, job) {
      PlanFits(b, job.r);
      var plan, e := Plan(b, job.r), job.Env();
      hide Plan, Mapped, Takes, Ends, LeftBy;
      EndsLeave(b.blocks, plan, job.r.size, e, m);
      StateLeftBy(b.blocks, plan, e, m, last, RequestEnds(b, job.r, e, m).n);
    }
  }

  /** A request that fails no assertion leaves what its last chunk left. */
  lemma EndsLeave(blocks: nat, plan: seq<Chunk>, size: nat, e: Kernel, m: seq<BlockState>)
    requires AllFit(plan, blocks)
    ensures var x := Ends(blocks, plan, size, e, m); x.out.Some? ==> x.m == StateAt(blocks, plan, e, m, x.n)
  {
    hide Blocked, Total, RunChunk, Stop;
  }

  // ------------------------------------------------- a sequence of jobs

  /** How far a sequence of jobs has come: the block states and the last chunk issued. */
  datatype Track = Track(m: seq<BlockState>, last: Option<Issue>)

  /** The state before job `j`; none if an earlier job fails an assertion. */
  ghost function Before(b: Buffer, jobs: seq<Job>, m: seq<BlockState>, j: nat): Option<Track>
    requires Mapped(b) && j <= |jobs|
  {
    if j == 0 then Some(Track(m, None))
    else
      var t := Before(b, jobs, m, j - 1);
      if t.None? || AfterJob(b, jobs[j - 1], t.value.m).None? then None
      else Some(Track(AfterJob(b, jobs[j - 1], t.value.m).value, LastIssue(b, jobs[j - 1], t.value.m, t.value.last)))
  }

  lemma {:induction false} BeforeLeft(b: Buffer, jobs: seq<Job>, m: seq<BlockState>, j: nat)
    requires Mapped(b) && j <= |jobs| && Idle(m) && Before(b, jobs, m, j).Some?
    ensures var t := Before(b, jobs, m, j).value; LeftBy(b.blocks, t.m, t.last)
  {
    hide Mapped, AfterJob, LastIssue, LeftBy;
    if j > 0 {
      BeforeLeft(b, jobs, m, j - 1);
      var t := Before(b, jobs, m, j - 1).value;
      JobLeaves(b, jobs[j - 1], t.m, t.last);
    } else {
      assert LeftBy(b.blocks, m, None) by { LeftByNone(b.blocks, m); }
    }
  }

  lemma LeftByNone(blocks: nat, m: seq<BlockState>)
    requires Idle(m)
    ensures LeftBy(blocks, m, None)
  {
  }

  lemma {:induction false} CrashFrom(b: Buffer, jobs: seq<Job>, m: seq<BlockState>, j: nat)
    requires Mapped(b) && j <= |jobs|
    ensures var c := Crash(b, jobs, m, j); c.Some? ==> j <= c.value < |jobs|
    decreases |jobs| - j
  {
    hide Mapped, AfterJob;
    if j < |jobs| && AfterJob(b, jobs[j], m).Some? { CrashFrom(b, jobs, AfterJob(b, jobs[j], m).value, j + 1); }
  }

  lemma {:induction false} CrashBefore(b: Buffer, jobs: seq<Job>, m: seq<BlockState>, j: nat)
    requires Mapped(b) && j <= |jobs|
    ensures var t, c := Before(b, jobs, m, j), Crash(b, jobs, m, 0);
            if t.Some? then c == Crash(b, jobs, t.value.m, j) else c.Some? && c.value < j
  {
    hide Mapped, AfterJob, LastIssue;
    if j > 0 { CrashBefore(b, jobs, m, j - 1); }
  }

  /** A job after chunk `last` fails an assertion at some chunk of its plan. */
  ghost predicate Fails(b: Buffer, job: Job, last: Option<Issue>)
    requires Mapped(b)
  {
    Takes(b, job) && (PlanFits(b, job.r); exists n: nat :: FailsAt(b.blocks, Plan(b, job.r), job.Env(), last, n))
  }

  lemma JobFails(b: Buffer, job: Job, m: seq<BlockState>, last: Option<Issue>)
    requires Mapped(b) && LeftBy(b.blocks, m, last)
    ensures AfterJob(b, job, m).None? <==> Fails(b, job, last)
  {
    if Takes(b, job) {
      PlanFits(b, job.r);
      hide Mapped, Plan, Takes, LeftBy, Ends, FailsAt;
      FailsExactly(b.blocks, Plan(b, job.r), job.r.size, job.Env(), m, last);
    }
  }

  /** A sequence of jobs on an idle buffer fails an assertion in job `j` exactly if it comes to that
      job and the job fails at a chunk of its plan: one that meets what the last chunk issued
      before it, in this job or an earlier one, left in use. */
  lemma SessionExactly(b: Buffer, jobs: seq<Job>, m: seq<BlockState>, j: nat)
    requires Mapped(b) && Idle(m) && j < |jobs|
    ensures var t := Before(b, jobs, m, j);
            Crash(b, jobs, m, 0) == Some(j) <==> t.Some? && Fails(b, jobs[j], t.value.last)
  {
    CrashBefore(b, jobs, m, j);
    var t := Before(b, jobs, m, j);
    hide Mapped, AfterJob, Before, LeftBy, Fails;
    if t.Some? {
      BeforeLeft(b, jobs, m, j);
      JobFails(b, jobs[j], t.value.m, t.value.last);
      if AfterJob(b, jobs[j], t.value.m).Some? {
        CrashFrom(b, jobs, AfterJob(b, jobs[j], t.value.m).value, j + 1);
      }
    }
  }

  /** The second of two jobs on an idle buffer fails exactly if it fails after the last chunk of the
      first. */
  lemma NextExactly(b: Buffer, job: Job, next: Job, m: seq<BlockState>)
    requires Mapped(b) && Idle(m) && AfterJob(b, job, m).Some?
    ensures Crash(b, [job, next], m, 0) == Some(1) <==> Fails(b, next, LastIssue(b, job, m, None))
  {
    var jobs := [job, next];
    assert Before(b, jobs, m, 0) == Some(Track(m, None)) && jobs[0] == job && jobs[1] == next;
    assert Before(b, jobs, m, 1) == Some(Track(AfterJob(b, job, m).value, LastIssue(b, job, m, None)));
    hide Mapped, AfterJob, LastIssue, Before, Crash, Fails;
    SessionExactly(b, jobs, m, 1);
  }

  /** So it does if its first chunk meets what the first job left; with a plan of one chunk, only then. */
  lemma NextCrashes(b: Buffer, job: Job, next: Job, m: seq<BlockState>)
    requires Mapped(b) && Idle(m) && AfterJob(b, job, m).Some?
    requires Takes(b, next) && Plan(b, next.r) != [] && next.dev(0).inProgress
    ensures var meets := Clashes(b.blocks, LastIssue(b, job, m, None), Plan(b, next.r)[0]);
            && (meets ==> Crash(b, [job, next], m, 0) == Some(1))
            && (|Plan(b, next.r)| == 1 ==> (meets <==> Crash(b, [job, next], m, 0) == Some(1)))
  {
    PlanFits(b, next.r);
    NextExactly(b, job, next, m);
    hide Mapped, AfterJob, LastIssue, Takes, Plan, Crash, Clashes;
    var plan, e, last := Plan(b, next.r), next.Env(), LastIssue(b, job, m, None);
    if Clashes(b.blocks, last, plan[0]) { assert FailsAt(b.blocks, plan, e, last, 0); }
  }

  // ------------------------------------------------- orderly jobs

  /** A job that, if it is taken, misplaces nothing, is on a file with both operations, and has no
      chunk that is interrupted or sees a vector outside its own range. */
  ghost predicate Orderly(b: Buffer, job: Job)
    requires Mapped(b)
  {
    Takes(b, job) ==>
      && !Misplaces(b, job.r) && job.file.iters
      && forall k | 0 <= k < |Plan(b, job.r)| ::
           !Interrupted(job.dev(k)) && OwnVecs(b, Plan(b, job.r)[k], job.dev(k).vecs)
  }

  lemma OwnChunkIdle(b: Buffer, r: Request, ch: Chunk, write: bool, io: ChunkIo)
    requires Addressed(b, ch) && Sound(b, r, ch) && Fits(ch, b.blocks)
    requires !Interrupted(io) && OwnVecs(b, ch, io.vecs)
    ensures Idle(RunChunk(b.blocks, ch, write, true, io).m)
  {
    hide RunChunk, AnyStrays, Addressed, Sound, OwnVecs;
    var m := RunChunk(b.blocks, ch, write, true, io).m;
    ChunkLength(b.blocks, ch, write, true, io);
    forall i | 0 <= i < |m|
      ensures Fillable(m[i])
    {
      InUseExactly(b.blocks, ch, write, true, io, i);
      OwnNeverStrays(b, r, ch, io.vecs, i);
    }
  }

  /** An orderly job on an idle buffer fails no assertion and leaves the buffer idle. */
  lemma OrderlyJob(b: Buffer, job: Job, m: seq<BlockState>)
    requires Mapped(b) && Idle(m) && Orderly(b, job)
    ensures AfterJob(b, job, m).Some? && Idle(AfterJob(b, job, m).value)
  {
    if Takes(b, job) {
      var plan, e := Plan(b, job.r), job.Env();
      PlanFits(b, job.r);
      PlannedAddresses(b, job.r);
      hide Plan, Mapped, Takes, Misplaces, RunChunk, Idle, Total, Addressed, Sound, OwnVecs;
      forall k: nat | k <= |plan|
        ensures Idle(StateAt(b.blocks, plan, e, m, k))
      {
        if k > 0 {
          assert plan[k - 1] in plan;
          OwnChunkIdle(b, job.r, plan[k - 1], job.write, job.dev(k - 1));
        }
      }
      OrderlyEnds(b.blocks, plan, job.r.size, e, m);
    }
  }

  lemma OrderlyEnds(blocks: nat, plan: seq<Chunk>, size: nat, e: Kernel, m: seq<BlockState>)
    requires AllFit(plan, blocks)
    requires forall k: nat | k <= |plan| :: Idle(StateAt(blocks, plan, e, m, k))
    ensures var x := Ends(blocks, plan, size, e, m); x.out.Some? && Idle(x.m)
  {
    var n := Stop(blocks, plan, e, m, 0);
    assert Idle(StateAt(blocks, plan, e, m, n));
    if n < |plan| { assert Idle(StateAt(blocks, plan, e, m, n + 1)); }
    hide Stop, Total, RunChunk;
  }

  /** Orderly jobs only: no assertion fails over any sequence of them, and every job leaves the
      buffer idle. */
  lemma {:induction false} OrderlyRuns(b: Buffer, jobs: seq<Job>, m: seq<BlockState>, j: nat)
    requires Mapped(b) && Idle(m) && j <= |jobs| && forall i | 0 <= i < j :: Orderly(b, jobs[i])
    ensures Before(b, jobs, m, j).Some? && Idle(Before(b, jobs, m, j).value.m)
    ensures j == |jobs| ==> Crash(b, jobs, m, 0) == None
  {
    hide Mapped, Orderly, Idle, AfterJob, LastIssue;
    if j > 0 {
      OrderlyRuns(b, jobs, m, j - 1);
      OrderlyJob(b, jobs[j - 1], Before(b, jobs, m, j - 1).value.m);
    }
    CrashBefore(b, jobs, m, j);
  }

  /** A job that has issued a chunk leaves the buffer idle exactly if the file has both operations
      and its last chunk was not interrupted and has not strayed. */
  lemma IdleExactly(b: Buffer, job: Job, m: seq<BlockState>, last: Option<Issue>)
    requires Mapped(b) && LeftBy(b.blocks, m, last) && AfterJob(b, job, m).Some? && LastIssue(b, job, m, last).Some?
    ensures var x := LastIssue(b, job, m, last).value;
            Idle(AfterJob(b, job, m).value) <==>
              x.ops && !Interrupted(x.io)
              && forall i | 0 <= i < b.blocks :: !AnyStrays(b.blocks, x.ch.activeStart, x.ch.activeEnd, x.io.vecs, i)
  {
    JobLeaves(b, job, m, last);
    var x, left := LastIssue(b, job, m, last).value, AfterJob(b, job, m).value;
    hide Mapped, AfterJob, LastIssue, RunChunk, AnyStrays;
    ChunkLength(b.blocks, x.ch, false, x.ops, x.io);
    forall i | 0 <= i < b.blocks
      ensures !Fillable(left[i]) <==> InUse(b.blocks, x.ch, x.ops, x.io, i)
    {
      InUseExactly(b.blocks, x.ch, false, x.ops, x.io, i);
    }
    if i :| 0 <= i < b.blocks && InUse(b.blocks, x.ch, x.ops, x.io, i) {
      assert !Fillable(left[i]);
    }
    if !x.ops || Interrupted(x.io) {
      assert InUse(b.blocks, x.ch, x.ops, x.io, x.ch.activeStart);
    } else if i :| 0 <= i < b.blocks && AnyStrays(b.blocks, x.ch.activeStart, x.ch.activeEnd, x.io.vecs, i) {
      assert InUse(b.blocks, x.ch, x.ops, x.io, i);
    }
  }

  // ------------------------------------------------- concrete cases

  /** A job on an idle buffer whose first chunk does not come back whole ends there. */
  lemma FirstChunkLast(b: Buffer, job: Job, m: seq<BlockState>)
    requires Mapped(b) && Idle(m) && Takes(b, job) && Plan(b, job.r) != [] && job.dev(0).inProgress
    requires !job.file.iters || job.dev(0).res < 0
    ensures AfterJob(b, job, m).Some?
    ensures LastIssue(b, job, m, None) == Some(Issue(Plan(b, job.r)[0], job.file.iters, job.dev(0)))
  {
    PlanFits(b, job.r);
    var plan, e := Plan(b, job.r), job.Env();
    ChunkBounds(b.blocks, plan[0], job.write, job.file.iters, job.dev(0));
    assert !Blocked(m, plan[0]);
    hide Plan, Mapped, Takes, Accepts, Blocked, RunChunk, Total;
    assert Stop(b.blocks, plan, e, m, 0) == 0;
  }

  const PLAIN_FILE := FileArgs(true, true, true, false, true, 1, 1, 0, 0, 8, 8, 0, 0)

  /** One GPU page behind a shadow buffer of the same size, and a read of its first page. */
  const ONE_PAGE := Buffer(PAGE, 16, 16, 0, GPU_PAGE, 1)
  const READ_PAGE := Request(0, PAGE, 0, false)

  lemma ReadPageFirst()
    ensures Mapped(ONE_PAGE) && Accepts(ONE_PAGE, READ_PAGE)
    ensures First(ONE_PAGE, READ_PAGE) == Cursor(0, PAGE, 0, 0, 0)
    ensures Issued(ONE_PAGE, READ_PAGE, Cursor(0, PAGE, 0, 0, 0)) == PAGE && FillAccepts(16, 0, DivUp(PAGE, PAGE))
  {
  }

  lemma ReadPagePlan()
    ensures Mapped(ONE_PAGE) && Accepts(ONE_PAGE, READ_PAGE)
    ensures var plan := Plan(ONE_PAGE, READ_PAGE);
            |plan| > 0 && plan[0].activeStart == 0 == plan[0].activeEnd
  {
    ReadPageFirst();
    hide Mapped, Accepts, First, Issued, FillAccepts, Advance, OnTrack, PlanFrom;
    FirstOnTrack(ONE_PAGE, READ_PAGE);
    PlanStep(ONE_PAGE, READ_PAGE, Cursor(0, PAGE, 0, 0, 0));
  }

  /** A read of one page that a signal stops, and then the same again: the second fails. */
  lemma RestartCrashes(next: nat -> ChunkIo, m: seq<BlockState>)
    requires Idle(m) && next(0).inProgress
    ensures Mapped(ONE_PAGE)
    ensures var stopped := Job(READ_PAGE, false, PAGE, PLAIN_FILE, _ => ChunkIo(true, [], ERESTARTSYS, false, false));
            var retried := Job(READ_PAGE, false, PAGE, PLAIN_FILE, next);
            Crash(ONE_PAGE, [stopped, retried], m, 0) == Some(1)
  {
    ReadPagePlan();
    var stopped := Job(READ_PAGE, false, PAGE, PLAIN_FILE, _ => ChunkIo(true, [], ERESTARTSYS, false, false));
    var retried := Job(READ_PAGE, false, PAGE, PLAIN_FILE, next);
    hide Plan, Crash, Mapped, Accepts, LastIssue, AfterJob;
    assert InUse(16, Plan(ONE_PAGE, READ_PAGE)[0], true, stopped.dev(0), 0);
    FirstChunkLast(ONE_PAGE, stopped, m);
    NextCrashes(ONE_PAGE, stopped, retried, m);
  }

  /** The same where the file has no write operation: the first read returns EINVAL and is never
      completed. */
  lemma NoOperationCrashes(dev: nat -> ChunkIo, next: nat -> ChunkIo, m: seq<BlockState>)
    requires Idle(m) && dev(0).inProgress && next(0).inProgress
    ensures Mapped(ONE_PAGE)
    ensures var refused := Job(READ_PAGE, false, PAGE, PLAIN_FILE.(iters := false), dev);
            var retried := Job(READ_PAGE, false, PAGE, PLAIN_FILE, next);
            Crash(ONE_PAGE, [refused, retried], m, 0) == Some(1)
  {
    ReadPagePlan();
    var refused := Job(READ_PAGE, false, PAGE, PLAIN_FILE.(iters := false), dev);
    var retried := Job(READ_PAGE, false, PAGE, PLAIN_FILE, next);
    hide Plan, Crash, Mapped, Accepts, LastIssue, AfterJob;
    assert InUse(16, Plan(ONE_PAGE, READ_PAGE)[0], false, refused.dev(0), 0);
    FirstChunkLast(ONE_PAGE, refused, m);
    NextCrashes(ONE_PAGE, refused, retried, m);
  }

  /** The misplaced request of 40 KiB on a shadow buffer of 48 KiB, and a request for all of it. */
  const SMALL := Buffer(PAGE, 12, 12, 0, 2 * GPU_PAGE, 2)
  const STRAYING := Request(0, 10 * PAGE, GPU_PAGE + PAGE, true)
  const FILLING := Request(0, 12 * PAGE, 0, false)

  const CURSOR0 := Cursor(0, PAGE, 1, PAGE, 5 * PAGE)
  const CURSOR1 := Cursor(7 * PAGE, 2 * PAGE, 1, 8 * PAGE, 0)
  const CHUNK0 := Chunk(0, 0, 2 * PAGE, 7 * PAGE, 1, PAGE, 5 * PAGE, 1, 7)
  const CHUNK1 := Chunk(7 * PAGE, 7 * PAGE, 10 * PAGE, 3 * PAGE, 1, 8 * PAGE, 0, 8, 10)

  lemma StrayingFirst()
    ensures Mapped(SMALL) && Accepts(SMALL, STRAYING) && First(SMALL, STRAYING) == CURSOR0
  {
  }

  lemma StrayingChunks()
    ensures Issued(SMALL, STRAYING, CURSOR0) == 7 * PAGE && FillAccepts(12, PAGE, DivUp(7 * PAGE, PAGE))
    ensures ChunkAt(SMALL, STRAYING, CURSOR0) == CHUNK0 && Advance(SMALL, STRAYING, CURSOR0) == CURSOR1
    ensures Issued(SMALL, STRAYING, CURSOR1) == 3 * PAGE && FillAccepts(12, 8 * PAGE, DivUp(3 * PAGE, PAGE))
    ensures ChunkAt(SMALL, STRAYING, CURSOR1) == CHUNK1 && Advance(SMALL, STRAYING, CURSOR1).done == STRAYING.size
  {
  }

  lemma StrayingPlan()
    ensures Mapped(SMALL) && Accepts(SMALL, STRAYING) && Plan(SMALL, STRAYING) == [CHUNK0, CHUNK1]
  {
    StrayingFirst();
    StrayingChunks();
    hide Mapped, Accepts, First, Issued, FillAccepts, ChunkAt, Advance, OnTrack, PlanFrom;
    FirstOnTrack(SMALL, STRAYING);
    PlanStep(SMALL, STRAYING, CURSOR0);
    PlanStep(SMALL, STRAYING, CURSOR1);
    PlanDone(SMALL, STRAYING, Advance(SMALL, STRAYING, CURSOR1));
  }

  lemma FillingPlan()
    ensures Accepts(SMALL, FILLING)
    ensures var plan := Plan(SMALL, FILLING);
            |plan| > 0 && plan[0].activeStart == 0 && plan[0].activeEnd == 11
  {
    StrayingFirst();
    FillingFirst();
    hide Mapped, Accepts, First, Issued, FillAccepts, Advance, OnTrack, PlanFrom;
    FirstOnTrack(SMALL, FILLING);
    PlanStep(SMALL, FILLING, Cursor(0, PAGE, 0, 0, 0));
  }

  lemma FillingFirst()
    ensures Accepts(SMALL, FILLING) && First(SMALL, FILLING) == Cursor(0, PAGE, 0, 0, 0)
    ensures Issued(SMALL, FILLING, Cursor(0, PAGE, 0, 0, 0)) == 12 * PAGE && FillAccepts(12, 0, DivUp(12 * PAGE, PAGE))
  {
  }

  /** The first chunk comes back whole; a vector of the second runs past its active blocks. */
  function StrayingDev(k: nat): ChunkIo {
    if k == 0 then ChunkIo(true, [BVec(1, 0, 7 * PAGE)], 7 * PAGE, false, false)
    else ChunkIo(true, [BVec(9, 0, 3 * PAGE)], EIO, false, false)
  }

  lemma StrayingFirstChunk(write: bool)
    ensures Fits(CHUNK0, 12) && RunChunk(12, CHUNK0, write, true, StrayingDev(0)).whole
    ensures Fits(CHUNK1, 12) && !Collides(12, CHUNK0, true, StrayingDev(0), CHUNK1)
  {
    assert Sound(SMALL, STRAYING, CHUNK0) && Addressed(SMALL, CHUNK0);
    assert OwnVecs(SMALL, CHUNK0, StrayingDev(0).vecs);
    var v := StrayingDev(0).vecs[0];
    assert v.First() == 1 && v.Last() == 7;
    forall p | 1 <= p < 8
      ensures CoveredBy(StrayingDev(0).vecs, p)
    {
      assert v.First() <= p <= v.Last();
    }
    assert Cooperates(SMALL, CHUNK0, StrayingDev(0));
    hide RunChunk, Collides;
    CooperatesWhole(SMALL, STRAYING, CHUNK0, write, StrayingDev(0));
    CollidesOwn(SMALL, STRAYING, CHUNK0, StrayingDev(0), CHUNK1);
  }

  lemma StrayingStops(m: seq<BlockState>)
    requires Idle(m)
    ensures AllFit([CHUNK0, CHUNK1], 12)
    ensures Stop(12, [CHUNK0, CHUNK1], Kernel(false, true, StrayingDev), m, 0) == 1
    ensures !Hits(12, [CHUNK0, CHUNK1], Kernel(false, true, StrayingDev), m, 1)
  {
    var plan, e := [CHUNK0, CHUNK1], Kernel(false, true, StrayingDev);
    StrayingFirstChunk(false);
    assert AllFit(plan, 12) && !Blocked(m, CHUNK0);
    ChunkBounds(12, CHUNK1, false, true, StrayingDev(1));
    hide RunChunk, Collides, Blocked, StrayingDev;
    HitsExactly(12, plan, e, m, 1);
    assert GoesOn(12, plan, e, m, 0) && !GoesOn(12, plan, e, m, 1);
  }

  /** The request ends in its second chunk, which leaves block 11, outside its active blocks, in
      error. */
  lemma StrayingLeaves(m: seq<BlockState>)
    requires Idle(m)
    ensures Mapped(SMALL) && InUse(12, CHUNK1, true, StrayingDev(1), 11)
    ensures var job := Job(STRAYING, false, PAGE, PLAIN_FILE, StrayingDev);
            && AfterJob(SMALL, job, m).Some?
            && LastIssue(SMALL, job, m, None) == Some(Issue(CHUNK1, true, StrayingDev(1)))
  {
    StrayingPlan();
    StrayingStops(m);
    assert AnyStrays(12, 8, 10, StrayingDev(1).vecs, 11) by {
      assert Strays(12, 8, 10, StrayingDev(1).vecs[0]) && 11 == StrayBlock(10, StrayingDev(1).vecs[0]);
    }
    hide Plan, Mapped, Accepts, RunChunk, Blocked, Stop, Total, AnyStrays, StrayingDev;
  }

  /** Then a request for the whole buffer fails an assertion. */
  lemma StrayCrashes(next: nat -> ChunkIo, m: seq<BlockState>)
    requires Idle(m) && next(0).inProgress
    ensures Mapped(SMALL)
    ensures var straying := Job(STRAYING, false, PAGE, PLAIN_FILE, StrayingDev);
            var filling := Job(FILLING, false, PAGE, PLAIN_FILE, next);
            Crash(SMALL, [straying, filling], m, 0) == Some(1)
  {
    StrayingLeaves(m);
    FillingPlan();
    var straying := Job(STRAYING, false, PAGE, PLAIN_FILE, StrayingDev);
    var filling := Job(FILLING, false, PAGE, PLAIN_FILE, next);
    hide Plan, Crash, Mapped, Accepts, AfterJob, LastIssue, InUse;
    assert Clashes(12, LastIssue(SMALL, straying, m, None), Plan(SMALL, FILLING)[0]);
    NextCrashes(SMALL, straying, filling, m);
  }
}
