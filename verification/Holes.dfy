/**
  Sparse reads. A completed read reports the blocks the file system never asked to be
  DMA-mapped as a list of holes, at most 768 of them. `Runs` is what the list should be;
  `Reported` is what the driver writes, and equals `Runs` as long as it fits.
*/
module Holes {
  import opened Units

  /** A run of blocks, counted from the first block of the transfer. */
  datatype Run = Run(start: nat, npages: nat) {
    function End(): nat { start + npages }
  }

  /** The runs below block `n`, with block `n` itself added when it is a hole. */
  function AddBlock(rs: seq<Run>, n: nat, hole: bool): seq<Run> {
    if !hole then rs
    else if |rs| > 0 && rs[|rs| - 1].End() == n then
      rs[|rs| - 1 := Run(rs[|rs| - 1].start, rs[|rs| - 1].npages + 1)]
    else rs + [Run(n, 1)]
  }

  /** The runs of `true` in `h`, in order. */
  function Runs(h: seq<bool>): seq<Run> {
    if |h| == 0 then [] else AddBlock(Runs(h[..|h| - 1]), |h| - 1, h[|h| - 1])
  }

  /** Runs that are non-empty, end by `n`, stand apart and are in order. */
  predicate Apart(rs: seq<Run>, n: nat) {
    && (forall k | 0 <= k < |rs| :: rs[k].npages > 0 && rs[k].End() <= n)
    && (forall k, l | 0 <= k < l < |rs| :: rs[k].End() < rs[l].start)
  }

  ghost predicate Covered(rs: seq<Run>, i: int) {
    exists k :: 0 <= k < |rs| && rs[k].start <= i < rs[k].End()
  }

  /** `rs` lists the maximal runs of `true` in `h`: apart, in order, all `true` inside and
      nothing `true` outside. */
  ghost predicate MaximalRuns(h: seq<bool>, rs: seq<Run>) {
    Apart(rs, |h|) && forall i | 0 <= i < |h| :: h[i] <==> Covered(rs, i)
  }

  lemma AddBlockApart(rs: seq<Run>, n: nat, hole: bool)
    requires Apart(rs, n)
    ensures Apart(AddBlock(rs, n, hole), n + 1)
  {
  }

  /** How coverage changes when block `n` is added to the runs below it. */
  lemma AddBlockCovers(rs: seq<Run>, n: nat, hole: bool, i: int)
    requires Apart(rs, n)
    ensures i < n ==> (Covered(AddBlock(rs, n, hole), i) <==> Covered(rs, i))
    ensures i == n ==> (Covered(AddBlock(rs, n, hole), i) <==> hole)
  {
    var rs' := AddBlock(rs, n, hole);
    if Covered(rs, i) {
      var k :| 0 <= k < |rs| && rs[k].start <= i < rs[k].End();
      assert rs'[k].start <= i < rs'[k].End();
    }
    if hole && i == n {
      assert rs'[|rs'| - 1].start <= i < rs'[|rs'| - 1].End();
    }
  }

  lemma {:induction false} RunsApart(h: seq<bool>)
    ensures Apart(Runs(h), |h|)
  {
    if |h| > 0 {
      RunsApart(h[..|h| - 1]);
      AddBlockApart(Runs(h[..|h| - 1]), |h| - 1, h[|h| - 1]);
    }
  }

  lemma {:induction false} RunsCover(h: seq<bool>, i: nat)
    requires i < |h|
    ensures h[i] <==> Covered(Runs(h), i)
  {
    var n := |h| - 1;
    RunsApart(h[..n]);
    AddBlockCovers(Runs(h[..n]), n, h[n], i);
    if i < n {
      RunsCover(h[..n], i);
      assert h[..n][i] == h[i];
    }
  }

  /** `Runs` computes the maximal runs. */
  lemma RunsMaximal(h: seq<bool>)
    ensures MaximalRuns(h, Runs(h))
  {
    RunsApart(h);
    forall i | 0 <= i < |h|
      ensures h[i] <==> Covered(Runs(h), i)
    {
      RunsCover(h, i);
    }
  }

  /** A sequence has only one list of maximal runs. */
  lemma MaximalRunsUnique(h: seq<bool>, a: seq<Run>, b: seq<Run>)
    requires MaximalRuns(h, a) && MaximalRuns(h, b)
    ensures a == b
  {
    var k := 0;
    while k < |a| && k < |b|
      invariant k <= |a| && k <= |b| && a[..k] == b[..k]
    {
      RunNoLater(h, a, b, k);
      RunNoLater(h, b, a, k);
      RunNoShorter(h, a, b, k);
      RunNoShorter(h, b, a, k);
      k := k + 1;
    }
    if k < |a| { InsideCovered(a, k, a[k].start); EarlierMiss(h, a, b, k); assert false; }
    if k < |b| { InsideCovered(b, k, b[k].start); EarlierMiss(h, b, a, k); assert false; }
  }

  lemma InsideCovered(a: seq<Run>, k: nat, i: nat)
    requires k < |a| && a[k].start <= i < a[k].End()
    ensures Covered(a, i)
  {
  }

  /** Runs shared with `a` below index `k` end before the `k`-th run of `a` starts. */
  lemma EarlierMiss(h: seq<bool>, a: seq<Run>, b: seq<Run>, k: nat)
    requires MaximalRuns(h, a) && k < |a| && k <= |b| && a[..k] == b[..k]
    ensures forall m | 0 <= m < k :: b[m].End() < a[k].start
  {
    forall m | 0 <= m < k
      ensures b[m].End() < a[k].start
    {
      assert b[..k][m] == a[..k][m];
    }
  }

  lemma RunNoLater(h: seq<bool>, a: seq<Run>, b: seq<Run>, k: nat)
    requires MaximalRuns(h, a) && MaximalRuns(h, b)
    requires k < |a| && k < |b| && a[..k] == b[..k]
    ensures b[k].start <= a[k].start
  {
    InsideCovered(a, k, a[k].start);
    EarlierMiss(h, a, b, k);
    var m :| 0 <= m < |b| && b[m].start <= a[k].start < b[m].End();
  }

  lemma RunNoShorter(h: seq<bool>, a: seq<Run>, b: seq<Run>, k: nat)
    requires MaximalRuns(h, a) && MaximalRuns(h, b)
    requires k < |a| && k < |b| && b[k].start == a[k].start
    ensures b[k].npages >= a[k].npages
  {
    if b[k].npages < a[k].npages {
      InsideCovered(a, k, b[k].End());
      EndUncovered(b, |h|, k);
      assert false;
    }
  }

  lemma EndUncovered(b: seq<Run>, n: nat, k: nat)
    requires Apart(b, n) && k < |b|
    ensures !Covered(b, b[k].End())
  {
  }

  // ------------------------------------------------- what the driver records

  /** Blocks beyond the first of each run. */
  function Excess(rs: seq<Run>): int {
    if |rs| == 0 then 0 else Excess(rs[..|rs| - 1]) + rs[|rs| - 1].npages - 1
  }

  /** The hole list the driver leaves: all runs if they fit; otherwise the first 768, the last
      of which also counts the blocks that continue later runs. */
  function Reported(rs: seq<Run>): seq<Run>
    requires NonEmpty(rs)
  {
    if |rs| <= MAX_HOLE_REGIONS then rs
    else
      ExcessNonNegative(rs[MAX_HOLE_REGIONS..]);
      var z := MAX_HOLE_REGIONS - 1;
      rs[..MAX_HOLE_REGIONS][z := Run(rs[z].start, rs[z].npages + Excess(rs[MAX_HOLE_REGIONS..]))]
  }

  predicate NonEmpty(rs: seq<Run>) {
    forall k | 0 <= k < |rs| :: rs[k].npages > 0
  }

  lemma ExcessNonNegative(rs: seq<Run>)
    requires NonEmpty(rs)
    ensures Excess(rs) >= 0
  {
  }

  /** What the reader of a hole list may rely on: every entry starts a run, all entries but a
      768th are exact, and so is that one unless the list overflowed. */
  lemma ReportedExact(rs: seq<Run>)
    requires NonEmpty(rs)
    ensures |Reported(rs)| == Min(|rs|, MAX_HOLE_REGIONS)
    ensures forall k | 0 <= k < |Reported(rs)| :: Reported(rs)[k].start == rs[k].start
    ensures forall k | 0 <= k < |Reported(rs)| :: Reported(rs)[k].npages >= rs[k].npages
    ensures forall k | 0 <= k < |Reported(rs)| && k < MAX_HOLE_REGIONS - 1 :: Reported(rs)[k] == rs[k]
    ensures |rs| <= MAX_HOLE_REGIONS ==> Reported(rs) == rs
  {
    if |rs| > MAX_HOLE_REGIONS {
      ExcessNonNegative(rs[MAX_HOLE_REGIONS..]);
    }
  }

  /** The byte count a read is cut to when the list overflows, or 0. */
  function ReadLimit(rs: seq<Run>): nat {
    if |rs| <= MAX_HOLE_REGIONS then 0 else rs[MAX_HOLE_REGIONS].start * PAGE
  }

  /** Whether hole block `n` continues the last of the runs below it. */
  predicate Continues(rs: seq<Run>, n: nat) {
    |rs| > 0 && rs[|rs| - 1].End() == n
  }

  /** Opening a run at block `n` appends an entry while there is room, and otherwise only fixes
      the read limit, the first time. */
  lemma ReportOpen(rs: seq<Run>, n: nat)
    requires NonEmpty(rs) && !Continues(rs, n)
    ensures var rs' := AddBlock(rs, n, true);
            && NonEmpty(rs')
            && Reported(rs') == (if |rs| < MAX_HOLE_REGIONS then Reported(rs) + [Run(n, 1)] else Reported(rs))
            && ReadLimit(rs') == (if |rs| == MAX_HOLE_REGIONS then n * PAGE else ReadLimit(rs))
  {
    var rs' := AddBlock(rs, n, true);
    if |rs| >= MAX_HOLE_REGIONS {
      var tail := rs[MAX_HOLE_REGIONS..];
      var tail' := rs'[MAX_HOLE_REGIONS..];
      assert tail' == tail + [Run(n, 1)];
      assert tail'[..|tail|] == tail;
      assert rs'[..MAX_HOLE_REGIONS] == rs[..MAX_HOLE_REGIONS];
    }
  }

  /** Extending the current run adds one block to the last entry, whichever run it opened. */
  lemma ReportExtend(rs: seq<Run>, n: nat)
    requires NonEmpty(rs) && Continues(rs, n)
    ensures var rs', holes, z := AddBlock(rs, n, true), Reported(rs), |Reported(rs)| - 1;
            && NonEmpty(rs') && z >= 0
            && Reported(rs') == holes[z := Run(holes[z].start, holes[z].npages + 1)]
            && ReadLimit(rs') == ReadLimit(rs)
  {
    var rs' := AddBlock(rs, n, true);
    if |rs| > MAX_HOLE_REGIONS {
      var tail, tail' := rs[MAX_HOLE_REGIONS..], rs'[MAX_HOLE_REGIONS..];
      assert tail'[..|tail| - 1] == tail[..|tail| - 1];
      assert rs'[..MAX_HOLE_REGIONS] == rs[..MAX_HOLE_REGIONS];
    }
  }

  /** An overflowing list cuts the read, and to less than any range that holds all the runs. */
  lemma LimitBelow(rs: seq<Run>, n: nat)
    requires Apart(rs, n)
    ensures |rs| > MAX_HOLE_REGIONS <==> ReadLimit(rs) > 0
    ensures ReadLimit(rs) > 0 ==> ReadLimit(rs) <= (n - 1) * PAGE
  {
    if |rs| > MAX_HOLE_REGIONS {
      assert rs[0].End() < rs[MAX_HOLE_REGIONS].start;
    }
  }
}
