/**
  Page by page views of a block request, shared by the two ways of building its DMA list.
  Every data page is a CPU page, a GPU shadow page with its GPU physical address and GPU page
  index, or a page past the end of its shadow buffer. `head` marks the first page of a vector.
*/
module Segments {
  import opened Units

  datatype Unit = Cpu | Gpu(phys: int, index: nat, head: bool) | Outside

  /** A segment: `len` bytes of GPU memory from physical address `addr` on. */
  datatype Segment = Segment(addr: int, len: nat)

  /** The first `n` pages are GPU pages at consecutive addresses from `addr` on. */
  predicate Consecutive(us: seq<Unit>, addr: int, n: nat) {
    n <= |us| && forall j | 0 <= j < n :: us[j].Gpu? && us[j].phys == addr + PAGE * j
  }

  /** DMA merging stops at a GPU page index that is a nonzero multiple of 65535. */
  predicate Boundary(index: nat) {
    index != 0 && index % MAX_CONTIG_GPU_PAGES == 0
  }

  /** The pages of a segment, as addresses. */
  function Expand(s: Segment): seq<int> {
    seq(s.len / PAGE, j requires 0 <= j => s.addr + PAGE * j)
  }

  function ExpandAll(segs: seq<Segment>): seq<int> {
    if |segs| == 0 then [] else ExpandAll(segs[..|segs| - 1]) + Expand(segs[|segs| - 1])
  }

  /** The addresses of the leading GPU pages. */
  function GpuPrefix(us: seq<Unit>): seq<int> {
    if |us| > 0 && us[0].Gpu? then [us[0].phys] + GpuPrefix(us[1..]) else []
  }

  lemma ExpandCons(addr: int, n: nat)
    requires n > 0
    ensures Expand(Segment(addr, PAGE * n)) == [addr] + Expand(Segment(addr + PAGE, PAGE * (n - 1)))
  {
  }

  lemma ConsecutiveTail(us: seq<Unit>, addr: int, n: nat)
    requires n > 0 && Consecutive(us, addr, n)
    ensures us[0].Gpu? && us[0].phys == addr && Consecutive(us[1..], addr + PAGE, n - 1)
  {
    forall j | 0 <= j < n - 1
      ensures us[1..][j].Gpu? && us[1..][j].phys == addr + PAGE + PAGE * j
    {
      assert us[1..][j] == us[j + 1];
    }
  }

  /** A segment that covers the first `n` pages accounts for the first `n` addresses. */
  lemma {:induction false} PrefixSplits(us: seq<Unit>, addr: int, n: nat)
    requires Consecutive(us, addr, n)
    ensures n <= |us|
    ensures GpuPrefix(us) == Expand(Segment(addr, PAGE * n)) + GpuPrefix(us[n..])
    decreases n
  {
    if n == 0 {
      assert us[0..] == us;
    } else {
      var rest := Expand(Segment(addr + PAGE, PAGE * (n - 1)));
      ConsecutiveTail(us, addr, n);
      ExpandCons(addr, n);
      hide Expand, Consecutive;
      PrefixSplits(us[1..], addr + PAGE, n - 1);
      assert us[1..][n - 1..] == us[n..];
      assert [addr] + (rest + GpuPrefix(us[n..])) == ([addr] + rest) + GpuPrefix(us[n..]);
    }
  }

  lemma ConsecutiveNone(us: seq<Unit>, addr: int)
    ensures Consecutive(us, addr, 0) && us[0..] == us
  {
  }

  /** Two runs of consecutive pages make one when the second starts where the first ends. */
  lemma ConsecutiveAppend(us: seq<Unit>, addr: int, m: nat, n: nat)
    requires m <= |us| && Consecutive(us, addr, m) && Consecutive(us[m..], addr + PAGE * m, n)
    ensures m + n <= |us| && Consecutive(us, addr, m + n) && us[m..][n..] == us[m + n..]
  {
    forall j | 0 <= j < m + n
      ensures us[j].Gpu? && us[j].phys == addr + PAGE * j
    {
      if j >= m { assert us[j] == us[m..][j - m]; }
    }
  }

  lemma ExpandSnoc(segs: seq<Segment>, s: Segment)
    ensures ExpandAll(segs + [s]) == ExpandAll(segs) + Expand(s)
  {
    assert (segs + [s])[..|segs|] == segs;
  }

  /** When every page is a GPU page, the leading GPU pages are all of them. */
  lemma {:induction false} PrefixWhole(us: seq<Unit>)
    requires forall j | 0 <= j < |us| :: us[j].Gpu?
    ensures |GpuPrefix(us)| == |us| && forall j | 0 <= j < |us| :: GpuPrefix(us)[j] == us[j].phys
  {
    if |us| > 0 { PrefixWhole(us[1..]); }
  }

  // ------------------------------------------------- where segments start

  /** Pages covered by a list of segments. */
  function PagesIn(segs: seq<Segment>): nat {
    if |segs| == 0 then 0 else PagesIn(segs[..|segs| - 1]) + segs[|segs| - 1].len / PAGE
  }

  /** The page at which each segment starts. */
  function Starts(segs: seq<Segment>): seq<nat> {
    if |segs| == 0 then [] else Starts(segs[..|segs| - 1]) + [PagesIn(segs[..|segs| - 1])]
  }

  lemma {:induction false} StartsLength(segs: seq<Segment>)
    ensures |Starts(segs)| == |segs|
  {
    if |segs| > 0 { StartsLength(segs[..|segs| - 1]); }
  }

  lemma StartsSnoc(segs: seq<Segment>, s: Segment)
    ensures PagesIn(segs + [s]) == PagesIn(segs) + s.len / PAGE
    ensures Starts(segs + [s]) == Starts(segs) + [PagesIn(segs)]
  {
    assert (segs + [s])[..|segs|] == segs;
  }

  /** A page that merging across vectors stops at: the first of its vector, and at a boundary. */
  predicate Cut(u: Unit) {
    u.Gpu? && u.head && Boundary(u.index)
  }

  /** None of pages `m..n` is such a page. */
  predicate Clear(us: seq<Unit>, m: nat, n: nat) {
    n <= |us| && forall j | m <= j < n :: !Cut(us[j])
  }

  lemma ClearFirst(us: seq<Unit>, k: nat)
    ensures Clear(us, 0, 0)
    ensures k > 0 && Clear(us, 1, k) && !Cut(us[0]) ==> Clear(us, 0, k)
  {
  }

  lemma ClearAppend(us: seq<Unit>, m: nat, k: nat, n: nat)
    requires k <= |us| && Clear(us, m, k) && Clear(us[k..], 0, n)
    ensures Clear(us, m, k + n)
  {
    forall j | m <= j < k + n
      ensures !Cut(us[j])
    {
      if j >= k { assert us[j] == us[k..][j - k]; }
    }
  }

  /** Page `j` has to start a segment: it is the first, it does not follow on from the page before
      it, or it is cut. */
  predicate BreakAt(us: seq<Unit>, j: nat)
    requires j < |us|
  {
    || j == 0 || Cut(us[j])
    || !us[j - 1].Gpu? || !us[j].Gpu? || us[j - 1].phys + PAGE != us[j].phys
  }

  /** The segments start exactly at the breaks among the pages they cover. */
  ghost predicate SplitExactly(us: seq<Unit>, segs: seq<Segment>) {
    && PagesIn(segs) <= |us|
    && forall j: nat :: j in Starts(segs) <==> j < PagesIn(segs) && BreakAt(us, j)
  }

  /** Inside a segment nothing breaks. */
  lemma NoBreakInside(us: seq<Unit>, pos: nat, addr: int, n: nat, j: nat)
    requires pos <= |us| && Consecutive(us[pos..], addr, n) && Clear(us[pos..], 1, n) && pos < j < pos + n
    ensures j < |us| && !BreakAt(us, j)
  {
    assert us[j] == us[pos..][j - pos] && us[j - 1] == us[pos..][j - 1 - pos];
  }

  lemma SplitSnoc(us: seq<Unit>, segs: seq<Segment>, addr: int, n: nat)
    requires SplitExactly(us, segs) && n > 0
    requires Consecutive(us[PagesIn(segs)..], addr, n) && Clear(us[PagesIn(segs)..], 1, n)
    requires PagesIn(segs) < |us| && BreakAt(us, PagesIn(segs))
    ensures SplitExactly(us, segs + [Segment(addr, PAGE * n)])
  {
    hide PagesIn, Starts, BreakAt;
    var more, pos := segs + [Segment(addr, PAGE * n)], PagesIn(segs);
    StartsSnoc(segs, Segment(addr, PAGE * n));
    forall j: nat
      ensures j in Starts(more) <==> j < PagesIn(more) && BreakAt(us, j)
    {
      if pos < j < pos + n { NoBreakInside(us, pos, addr, n, j); }
    }
  }

  /** Where a segment ends and the next page is not its continuation, that page breaks. */
  lemma StopBreaks(us: seq<Unit>, pos: nat, addr: int, n: nat)
    requires pos <= |us| && n > 0 && Consecutive(us[pos..], addr, n) && pos + n < |us|
    requires us[pos + n].Gpu? ==> us[pos + n].phys != addr + PAGE * n || Cut(us[pos + n])
    ensures BreakAt(us, pos + n)
  {
    assert us[pos + n - 1] == us[pos..][n - 1];
  }

  lemma SplitNone(us: seq<Unit>)
    ensures PagesIn([]) == 0 && SplitExactly(us, []) && us[0..] == us
    ensures |us| > 0 ==> BreakAt(us, 0)
  {
  }

  /** A list covers as many pages as it expands to. */
  lemma {:induction false} ExpandLength(segs: seq<Segment>)
    ensures |ExpandAll(segs)| == PagesIn(segs)
  {
    if |segs| > 0 { ExpandLength(segs[..|segs| - 1]); }
  }

  // ------------------------------------------------- mapping one segment after another

  /** Of pages `us`, the segments cover all but `rest`, and with every mark accepted they start
      where they must. */
  ghost predicate Progress(us: seq<Unit>, segs: seq<Segment>, rest: seq<Unit>, marked: bool) {
    && PagesIn(segs) <= |us| && rest == us[PagesIn(segs)..]
    && ExpandAll(segs) + GpuPrefix(rest) == GpuPrefix(us)
    && (marked ==> SplitExactly(us, segs) && (PagesIn(segs) < |us| ==> BreakAt(us, PagesIn(segs))))
  }

  lemma ProgressStart(us: seq<Unit>, marked: bool)
    ensures Progress(us, [], us, marked) && ExpandAll([]) <= GpuPrefix(us) && SplitExactly(us, [])
  {
    SplitNone(us);
  }

  lemma ProgressMeans(us: seq<Unit>, segs: seq<Segment>, rest: seq<Unit>, marked: bool)
    requires Progress(us, segs, rest, marked)
    ensures ExpandAll(segs) <= GpuPrefix(us) && (marked ==> SplitExactly(us, segs))
    ensures rest == [] || !rest[0].Gpu? ==> ExpandAll(segs) == GpuPrefix(us)
    ensures PagesIn(segs) <= |us| && rest == us[PagesIn(segs)..]
    ensures rest != [] ==> rest[0] == us[PagesIn(segs)]
  {
  }

  /** One more segment. */
  lemma ProgressStep(us: seq<Unit>, segs: seq<Segment>, rest: seq<Unit>, addr: int, n: nat, marked: bool)
    requires Progress(us, segs, rest, marked) && n > 0 && Consecutive(rest, addr, n) && Clear(rest, 1, n)
    requires marked && n < |rest| && rest[n].Gpu? ==> rest[n].phys != addr + PAGE * n || Cut(rest[n])
    ensures n <= |rest| && Progress(us, segs + [Segment(addr, PAGE * n)], rest[n..], marked)
  {
    hide PagesIn, Expand, ExpandAll, GpuPrefix, SplitExactly, BreakAt, Starts;
    var pos, s := PagesIn(segs), Segment(addr, PAGE * n);
    PrefixSplits(rest, addr, n);
    ExpandSnoc(segs, s);
    StartsSnoc(segs, s);
    assert us[pos..][n..] == us[pos + n..];
    assert (ExpandAll(segs) + Expand(s)) + GpuPrefix(rest[n..]) == ExpandAll(segs) + (Expand(s) + GpuPrefix(rest[n..]));
    if marked {
      SplitSnoc(us, segs, addr, n);
      if pos + n < |us| {
        assert us[pos + n] == rest[n];
        StopBreaks(us, pos, addr, n);
      }
    }
  }
}
