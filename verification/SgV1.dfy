/**
  Building a scatter-gather list for a block request, one entry per physically contiguous GPU
  run. The request is seen page by page; `Outside` stands for a page whose buffer cannot be
  looked up or marked for DMA.
*/
module SgV1 {
  import opened Units
  import opened Segments

  const NVME_MAX_SEGS := 127

  /** The request queue: NVMe queues ignore the maximum segment size. */
  datatype Queue = Queue(nvme: bool, maxSegment: nat)

  /** The surroundings of the request: it is a plain read or write, a list was passed, it carries
      no integrity data and fits the payload limit, the entries allotted to the list, and whether
      the kernel lets the list grow. */
  datatype Env = Env(accepted: bool, listed: bool, plain: bool, room: nat, grows: bool)

  /** Nothing to do for a request without GPU pages, an error, or the list. */
  datatype SgResult = NotOurs | IoErr | Sg(segs: seq<Segment>)

  predicate AllGpu(us: seq<Unit>) {
    forall j | 0 <= j < |us| :: us[j].Gpu?
  }

  predicate AllCpu(us: seq<Unit>) {
    forall j | 0 <= j < |us| :: us[j].Cpu?
  }

  /** The list has room for, or can be extended to, `n` entries. */
  predicate Holds(env: Env, n: nat) {
    n <= env.room || (n < NVME_MAX_SEGS && env.grows)
  }

  /** A page at `u` joins the last entry, when the page before it is at `prev`. */
  predicate Joins(q: Queue, segs: seq<Segment>, prev: int, u: Unit)
    requires u.Gpu?
  {
    && |segs| > 0
    && (q.nvme || segs[|segs| - 1].len + PAGE <= q.maxSegment)
    && prev != 0 && prev + PAGE == u.phys
    && !Boundary(u.index)
  }

  /** Put a page into the list. */
  function Place(q: Queue, segs: seq<Segment>, prev: int, u: Unit): seq<Segment>
    requires u.Gpu?
  {
    if Joins(q, segs, prev, u) then
      var last := segs[|segs| - 1];
      segs[|segs| - 1 := last.(len := last.len + PAGE)]
    else segs + [Segment(u.phys, PAGE)]
  }

  /** The address before page `i`; zero for the first. */
  function Prev(us: seq<Unit>, i: nat): int
    requires i <= |us| && AllGpu(us)
  {
    if i == 0 then 0 else us[i - 1].phys
  }

  /** The list for a run of GPU pages. */
  function Merge(q: Queue, us: seq<Unit>): seq<Segment>
    requires AllGpu(us)
  {
    if |us| == 0 then []
    else Place(q, Merge(q, us[..|us| - 1]), Prev(us, |us| - 1), us[|us| - 1])
  }

  /** Where a list of `n` entries ends: past the allotted ones once it has grown. */
  function End(env: Env, n: nat): nat {
    if n <= env.room then env.room else n
  }

  /** Add a page to a list that ends at `end`, extending the list by one entry if need be. */
  method AddPage(q: Queue, segs: seq<Segment>, prev: int, u: Unit, env: Env, end: nat)
      returns (fits: bool, segs': seq<Segment>, end': nat)
    requires u.Gpu? && env.room > 0 && Holds(env, |segs|) && end == End(env, |segs|)
    ensures fits <==> Holds(env, |Place(q, segs, prev, u)|)
    ensures fits ==> segs' == Place(q, segs, prev, u) && |segs'| > 0 && end' == End(env, |segs'|)
  {
    hide Boundary;
    var full := !q.nvme && |segs| > 0 && segs[|segs| - 1].len + PAGE > q.maxSegment;
    if !full && |segs| > 0 && prev != 0 && prev + PAGE == u.phys && !Boundary(u.index) {
      return true, segs[|segs| - 1 := segs[|segs| - 1].(len := segs[|segs| - 1].len + PAGE)], end;
    }
    var nsegs := |segs| + 1;
    end' := end;
    if nsegs > 1 && nsegs - 1 == end {
      if nsegs >= NVME_MAX_SEGS || !env.grows {
        return false, segs, end;
      }
      end' := end + 1;
    }
    return true, segs + [Segment(u.phys, PAGE)], end';
  }

  /** Build the list. A request that mixes CPU and GPU pages is an error, one of CPU pages only is
      left alone, and one of GPU pages only gets its list exactly when the entries fit. */
  method MapSg(q: Queue, us: seq<Unit>, env: Env) returns (r: SgResult)
    requires env.room > 0
    ensures !env.accepted ==> r == NotOurs
    ensures env.accepted && !env.listed ==> r == IoErr
    ensures env.accepted && env.listed && AllCpu(us) ==> r == NotOurs
    ensures env.accepted && env.listed && !AllCpu(us) && !AllGpu(us) ==> r == IoErr
    ensures env.accepted && env.listed && AllGpu(us) && |us| > 0 ==>
              r == if env.plain && Holds(env, |Merge(q, us)|) then Sg(Merge(q, us)) else IoErr
  {
    if !env.accepted {
      return NotOurs;
    }
    if !env.listed {
      return IoErr;
    }
    hide Merge, Place, Prev, AllGpu, AllCpu, End;
    MergeNone(q, us);
    var segs, prev, end := [], 0, env.room;
    var foundCpu, foundGpu := false, false;
    for i := 0 to |us|
      invariant foundCpu ==> !foundGpu && AllCpu(us[..i])
      invariant !foundCpu ==> AllGpu(us[..i]) && segs == Merge(q, us[..i]) && prev == Prev(us[..i], i)
      invariant foundGpu <==> |segs| > 0
      invariant if i == 0 then !foundCpu else (foundCpu && us[0].Cpu?) || (foundGpu && us[0].Gpu?)
      invariant foundGpu ==> env.plain
      invariant Holds(env, |segs|) && end == End(env, |segs|)
    {
      var u := us[i];
      KindOf(us, i);
      KindOf(us, 0);
      if u.Outside? {
        return IoErr;
      }
      if u.Gpu? {
        foundGpu := true;
      } else {
        foundCpu := true;
      }
      if foundCpu && foundGpu {
        return IoErr;
      }
      if foundCpu {
        continue;
      }
      if |segs| == 0 && !env.plain {
        return IoErr;
      }
      MergeNext(q, us, i);
      var fits: bool;
      fits, segs, end := AddPage(q, segs, prev, u, env, end);
      if !fits {
        MergeGrows(q, us, i + 1);
        return IoErr;
      }
      prev := u.phys;
    }
    assert us[..|us|] == us;
    return if foundGpu then Sg(segs) else NotOurs;
  }

  lemma MergeNone(q: Queue, us: seq<Unit>)
    ensures AllGpu(us[..0]) && Merge(q, us[..0]) == [] && AllCpu(us[..0]) && Prev(us[..0], 0) == 0
    ensures |us| == 0 ==> AllCpu(us)
    ensures |us| > 0 ==> (us[0].Cpu? ==> !AllGpu(us)) && (us[0].Gpu? ==> !AllCpu(us))
  {
  }

  /** What one page says about the kinds of pages in a request. */
  lemma KindOf(us: seq<Unit>, i: nat)
    requires i < |us|
    ensures !us[i].Cpu? ==> !AllCpu(us)
    ensures !us[i].Gpu? ==> !AllGpu(us)
    ensures AllCpu(us[..i]) && us[i].Cpu? ==> AllCpu(us[..i + 1])
  {
  }

  /** One more page. */
  lemma MergeNext(q: Queue, us: seq<Unit>, i: nat)
    requires i < |us| && AllGpu(us[..i]) && us[i].Gpu?
    ensures AllGpu(us[..i + 1])
    ensures Merge(q, us[..i + 1]) == Place(q, Merge(q, us[..i]), Prev(us[..i], i), us[i])
    ensures Prev(us[..i + 1], i + 1) == us[i].phys
  {
    assert us[..i + 1][..i] == us[..i];
  }

  /** The list never shrinks as pages are added. */
  lemma {:induction false} MergeGrows(q: Queue, us: seq<Unit>, i: nat)
    requires i <= |us|
    ensures AllGpu(us) ==> |Merge(q, us[..i])| <= |Merge(q, us)|
    decreases |us|
  {
    if AllGpu(us) {
      if i == |us| {
        assert us[..i] == us;
      } else {
        MergeGrows(q, us[..|us| - 1], i);
        assert us[..|us| - 1][..i] == us[..i];
      }
    }
  }

  // ------------------------------------------------- what the list means

  /** The addresses of a run of GPU pages, one by one. */
  function Addresses(us: seq<Unit>): seq<int>
    requires AllGpu(us)
  {
    seq(|us|, j requires 0 <= j < |us| => us[j].phys)
  }

  /** The last entry ends right after the last page. */
  predicate Tight(us: seq<Unit>, segs: seq<Segment>)
    requires AllGpu(us)
  {
    && (|us| == 0 <==> |segs| == 0)
    && (forall s | s in segs :: s.len > 0 && s.len % PAGE == 0)
    && (|us| > 0 ==> segs[|segs| - 1].addr + segs[|segs| - 1].len == us[|us| - 1].phys + PAGE)
  }

  lemma ExpandGrow(addr: int, len: nat)
    requires len % PAGE == 0
    ensures Expand(Segment(addr, len + PAGE)) == Expand(Segment(addr, len)) + [addr + len]
  {
  }

  /** Growing the last entry adds the address after it. */
  lemma GrowLast(segs: seq<Segment>)
    requires |segs| > 0 && segs[|segs| - 1].len % PAGE == 0
    ensures var last := segs[|segs| - 1];
            var grown := segs[|segs| - 1 := last.(len := last.len + PAGE)];
            && ExpandAll(grown) == ExpandAll(segs) + [last.addr + last.len]
            && PagesIn(grown) == PagesIn(segs) + 1 && Starts(grown) == Starts(segs)
  {
    var n := |segs| - 1;
    var last := segs[n];
    var grown := segs[n := last.(len := last.len + PAGE)];
    assert grown[..n] == segs[..n];
    ExpandGrow(last.addr, last.len);
    hide Expand;
    assert ExpandAll(segs[..n]) + (Expand(last) + [last.addr + last.len]) ==
           (ExpandAll(segs[..n]) + Expand(last)) + [last.addr + last.len];
  }

  /** A new entry adds its own address and its own start. */
  lemma AddEntry(segs: seq<Segment>, addr: int)
    ensures var more := segs + [Segment(addr, PAGE)];
            && ExpandAll(more) == ExpandAll(segs) + [addr]
            && PagesIn(more) == PagesIn(segs) + 1 && Starts(more) == Starts(segs) + [PagesIn(segs)]
  {
    ExpandSnoc(segs, Segment(addr, PAGE));
    StartsSnoc(segs, Segment(addr, PAGE));
    assert Expand(Segment(addr, PAGE)) == [addr];
  }

  /** What one more page does to a list that stands for the pages before it. */
  lemma PlaceStep(q: Queue, us: seq<Unit>, segs: seq<Segment>)
    requires AllGpu(us) && |us| > 0 && Tight(us[..|us| - 1], segs)
    ensures var u := us[|us| - 1];
            var more := Place(q, segs, Prev(us, |us| - 1), u);
            && Tight(us, more)
            && ExpandAll(more) == ExpandAll(segs) + [u.phys]
            && PagesIn(more) == PagesIn(segs) + 1
            && Starts(more) == Starts(segs) + if Joins(q, segs, Prev(us, |us| - 1), u) then [] else [PagesIn(segs)]
  {
    hide ExpandAll, PagesIn, Starts;
    if Joins(q, segs, Prev(us, |us| - 1), us[|us| - 1]) {
      GrowLast(segs);
    } else {
      AddEntry(segs, us[|us| - 1].phys);
    }
  }

  lemma AddressesSnoc(us: seq<Unit>)
    requires AllGpu(us) && |us| > 0
    ensures Addresses(us) == Addresses(us[..|us| - 1]) + [us[|us| - 1].phys]
  {
  }

  /** The list stands for the pages it was built from: the entries cover exactly their addresses,
      in order. */
  lemma {:induction false} MergeExpands(q: Queue, us: seq<Unit>)
    requires AllGpu(us)
    ensures var segs := Merge(q, us);
            Tight(us, segs) && ExpandAll(segs) == Addresses(us) && PagesIn(segs) == |us|
    decreases |us|
  {
    if |us| > 0 {
      var n := |us| - 1;
      MergeExpands(q, us[..n]);
      PlaceStep(q, us, Merge(q, us[..n]));
      AddressesSnoc(us);
      hide Place, Tight, ExpandAll, PagesIn, Starts, Addresses, Joins;
    }
  }

  /** Page `i` does not follow on from the page before it. */
  predicate Breaks(us: seq<Unit>, i: nat)
    requires AllGpu(us) && i < |us|
  {
    i == 0 || us[i - 1].phys == 0 || us[i - 1].phys + PAGE != us[i].phys || Boundary(us[i].index)
  }

  /** The entry before the last page has no room for it. */
  predicate Full(q: Queue, segs: seq<Segment>) {
    !q.nvme && |segs| > 0 && segs[|segs| - 1].len + PAGE > q.maxSegment
  }

  /** The last page joins exactly when it does not break and there is room. */
  lemma JoinsExactly(q: Queue, us: seq<Unit>, segs: seq<Segment>)
    requires AllGpu(us) && |us| > 0 && Tight(us[..|us| - 1], segs)
    ensures Joins(q, segs, Prev(us, |us| - 1), us[|us| - 1]) <==> !Breaks(us, |us| - 1) && !Full(q, segs)
  {
  }

  lemma BreaksPrefix(us: seq<Unit>, i: nat)
    requires AllGpu(us) && i + 1 < |us|
    ensures AllGpu(us[..|us| - 1]) && Breaks(us[..|us| - 1], i) == Breaks(us, i)
  {
  }

  /** The starts after one more page. */
  lemma StartsStep(q: Queue, us: seq<Unit>)
    requires AllGpu(us) && |us| > 0
    ensures var segs := Merge(q, us[..|us| - 1]);
            Starts(Merge(q, us)) ==
            Starts(segs) + if Breaks(us, |us| - 1) || Full(q, segs) then [|us| - 1] else []
  {
    hide Place, Tight, ExpandAll, PagesIn, Starts, Addresses, Joins, Breaks, Full;
    var n := |us| - 1;
    MergeExpands(q, us[..n]);
    PlaceStep(q, us, Merge(q, us[..n]));
    JoinsExactly(q, us, Merge(q, us[..n]));
  }

  /** Whether an entry starts at page `i`, after one more page. */
  lemma StartsAt(q: Queue, us: seq<Unit>, i: nat)
    requires AllGpu(us) && |us| > 0
    ensures var segs := Merge(q, us[..|us| - 1]);
            i in Starts(Merge(q, us)) <==>
              i in Starts(segs) || (i == |us| - 1 && (Breaks(us, i) || Full(q, segs)))
  {
    hide Merge, Starts, Breaks, Full;
    StartsStep(q, us);
  }

  lemma NvmeStep(q: Queue, us: seq<Unit>, i: nat)
    requires AllGpu(us) && |us| > 0 && q.nvme
    requires i in Starts(Merge(q, us[..|us| - 1])) <==> i < |us| - 1 && Breaks(us[..|us| - 1], i)
    ensures i in Starts(Merge(q, us)) <==> i < |us| && Breaks(us, i)
  {
    hide Merge, Starts, Breaks;
    StartsAt(q, us, i);
    if i < |us| - 1 { BreaksPrefix(us, i); }
  }

  /** On the NVMe path entries are split exactly where the pages break. */
  lemma {:induction false} NvmeSplitsExactly(q: Queue, us: seq<Unit>, i: nat)
    requires AllGpu(us) && q.nvme
    ensures i in Starts(Merge(q, us)) <==> i < |us| && Breaks(us, i)
    decreases |us|
  {
    if |us| > 0 {
      var n := |us| - 1;
      NvmeSplitsExactly(q, us[..n], i);
      NvmeStep(q, us, i);
    }
  }

  /** On either path every break splits. */
  lemma {:induction false} BreaksSplit(q: Queue, us: seq<Unit>, i: nat)
    requires AllGpu(us)
    ensures i < |us| && Breaks(us, i) ==> i in Starts(Merge(q, us))
    decreases |us|
  {
    if |us| > 0 {
      var n := |us| - 1;
      BreaksSplit(q, us[..n], i);
      StartsAt(q, us, i);
      if i < n { BreaksPrefix(us, i); }
    }
  }

  /** Off the NVMe path an entry of several pages respects the queue's maximum. */
  lemma {:induction false} SegmentLimit(q: Queue, us: seq<Unit>, k: nat)
    requires AllGpu(us) && !q.nvme
    ensures k < |Merge(q, us)| ==> Merge(q, us)[k].len == PAGE || Merge(q, us)[k].len <= q.maxSegment
    decreases |us|
  {
    if |us| > 0 { SegmentLimit(q, us[..|us| - 1], k); }
  }

  /** Entry `k` starts where it does for a reason: a break, or an entry before it that is full. */
  predicate Justified(q: Queue, us: seq<Unit>, segs: seq<Segment>, k: nat)
    requires AllGpu(us) && 0 < k < |segs| == |Starts(segs)|
  {
    Starts(segs)[k] < |us| && (Breaks(us, Starts(segs)[k]) || Full(q, segs[..k]))
  }

  /** One more page changes no entry but the last, and adds an entry only for a reason. */
  lemma JustifiedStep(q: Queue, us: seq<Unit>, segs: seq<Segment>, more: seq<Segment>, k: nat)
    requires AllGpu(us) && |us| > 0 && 0 < k < |more| == |Starts(more)| && |segs| == |Starts(segs)|
    requires |segs| <= |more| <= |segs| + 1 && (|more| == |segs| + 1 <==> Breaks(us, |us| - 1) || Full(q, segs))
    requires k <= |segs| && more[..k] == segs[..k] && (k == |segs| ==> more[..k] == segs)
    requires Starts(more) == Starts(segs) + if |more| > |segs| then [|us| - 1] else []
    requires k < |segs| ==> Justified(q, us[..|us| - 1], segs, k)
    ensures Justified(q, us, more, k)
  {
    if k < |segs| { BreaksPrefix(us, Starts(segs)[k]); }
  }

  lemma PlaceEntries(q: Queue, segs: seq<Segment>, prev: int, u: Unit, k: nat)
    requires u.Gpu?
    ensures var more := Place(q, segs, prev, u);
            && |segs| <= |more| <= |segs| + 1 && (|more| == |segs| + 1 <==> !Joins(q, segs, prev, u))
            && (0 < k < |more| ==> k <= |segs| && more[..k] == segs[..k] && (k == |segs| ==> more[..k] == segs))
  {
  }

  /** Every entry after the first starts at a break, or, off the NVMe path, because the entry
      before it had no room for one more page. */
  lemma {:induction false} SplitsForAReason(q: Queue, us: seq<Unit>, k: nat)
    requires AllGpu(us)
    ensures |Starts(Merge(q, us))| == |Merge(q, us)|
    ensures 0 < k < |Merge(q, us)| ==> Justified(q, us, Merge(q, us), k)
    decreases |us|
  {
    StartsLength(Merge(q, us));
    if |us| > 0 && 0 < k < |Merge(q, us)| {
      var n := |us| - 1;
      var segs := Merge(q, us[..n]);
      StartsStep(q, us);
      SplitsForAReason(q, us[..n], k);
      MergeExpands(q, us[..n]);
      JoinsExactly(q, us, segs);
      PlaceEntries(q, segs, Prev(us, n), us[n], k);
      StartsLength(segs);
      hide Place, Tight, Starts, Addresses, Joins, Breaks, Full, Justified;
      JustifiedStep(q, us, segs, Merge(q, us), k);
    }
  }

  /** On the NVMe path a run of consecutive pages with GPU page indices from 1 to 65534 becomes one
      entry. */
  lemma {:induction false} RunMerges(q: Queue, us: seq<Unit>)
    requires q.nvme && |us| > 0 && AllGpu(us) && us[0].phys > 0 && Consecutive(us, us[0].phys, |us|)
    requires forall i | 0 <= i < |us| :: 0 < us[i].index < MAX_CONTIG_GPU_PAGES
    ensures Merge(q, us) == [Segment(us[0].phys, PAGE * |us|)]
  {
    var n := |us| - 1;
    if n > 0 {
      RunMerges(q, us[..n]);
    }
  }

  /** Where its index is a nonzero multiple of 65535 a page starts an entry, however it follows on. */
  lemma {:induction false} MultipleSplits(q: Queue, us: seq<Unit>, m: nat)
    requires |us| > 0 && AllGpu(us) && m > 0 && us[|us| - 1].index == m * MAX_CONTIG_GPU_PAGES
    ensures |Merge(q, us)| == |Merge(q, us[..|us| - 1])| + 1
  {
    QuotientUnique(us[|us| - 1].index, MAX_CONTIG_GPU_PAGES, m, 0);
  }
}
