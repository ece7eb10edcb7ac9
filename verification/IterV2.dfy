/**
  The DMA iterator for kernels with the iterator interface: each call consumes the longest
  physically contiguous GPU run at the iterator's position and reports it as one segment.
  Requests are chains of non-empty bios made of page-aligned vectors; a vector may span pages.
*/
module IterV2 {
  import opened Units
  import opened Segments

  /** The pages of one shadow buffer: GPU physical address and GPU page index of each. */
  datatype Table = Table(phys: seq<int>, index: seq<nat>)

  /** A bio vector: `len` bytes from byte `offset` of `page`, which for a GPU vector is a page of
      the shadow buffer `table`. The offset may lie beyond the first page. `whole` tells a vector of
      the request from what is left of one. */
  datatype Vec =
    | CpuVec(whole: bool, offset: nat, len: nat)
    | GpuVec(whole: bool, table: Table, page: nat, offset: nat, len: nat)

  predicate ValidVec(v: Vec) {
    && v.len > 0 && v.len % PAGE == 0 && v.offset % PAGE == 0
    && (v.GpuVec? ==> |v.table.phys| == |v.table.index| <= MAX_SHADOW_PAGES && v.page < |v.table.phys|)
  }

  predicate ValidBio(vecs: seq<Vec>) {
    |vecs| > 0 && forall i | 0 <= i < |vecs| :: ValidVec(vecs[i]) && vecs[i].whole
  }

  predicate ValidReq(req: seq<seq<Vec>>) {
    |req| > 0 && forall b | 0 <= b < |req| :: ValidBio(req[b])
  }

  /** Page `k` of a vector, translated on its own. */
  function UnitAt(v: Vec, k: nat): Unit
    requires ValidVec(v)
  {
    if v.CpuVec? then Cpu
    else
      var t := v.page + v.offset / PAGE + k;
      if t < |v.table.phys| then Gpu(v.table.phys[t], v.table.index[t], v.whole && k == 0) else Outside
  }

  /** The pages of a vector from page `k` on. */
  function VecPages(v: Vec, k: nat): seq<Unit>
    requires ValidVec(v) && k <= v.len / PAGE
  {
    seq(v.len / PAGE - k, j requires 0 <= j => UnitAt(v, k + j))
  }

  /** The pages of a bio from page `k` of vector `i` on. */
  function BioPages(vecs: seq<Vec>, i: nat, k: nat): seq<Unit>
    requires ValidBio(vecs) && i <= |vecs| && (if i < |vecs| then k <= vecs[i].len / PAGE else k == 0)
    decreases |vecs| - i
  {
    if i == |vecs| then [] else VecPages(vecs[i], k) + BioPages(vecs, i + 1, 0)
  }

  /** The pages of the bios from number `b` on. */
  function ReqPages(req: seq<seq<Vec>>, b: nat): seq<Unit>
    requires ValidReq(req) && b <= |req|
    decreases |req| - b
  {
    if b == |req| then [] else BioPages(req[b], 0, 0) + ReqPages(req, b + 1)
  }

  /** A vector with its first `bytes` bytes taken off. */
  function Trim(v: Vec, bytes: nat): Vec
    requires bytes <= v.len
  {
    v.(whole := v.whole && bytes == 0, offset := v.offset + bytes, len := v.len - bytes)
  }

  lemma TrimUnit(v: Vec, k: nat, j: nat)
    requires ValidVec(v) && PAGE * k < v.len
    ensures ValidVec(Trim(v, PAGE * k)) && UnitAt(Trim(v, PAGE * k), j) == UnitAt(v, k + j)
  {
    assert (v.offset + PAGE * k) / PAGE == v.offset / PAGE + k;
  }

  /** Trimming whole pages off a vector drops that many of its pages. */
  lemma TrimDrops(v: Vec, k: nat)
    requires ValidVec(v) && PAGE * k < v.len
    ensures ValidVec(Trim(v, PAGE * k)) && k < v.len / PAGE
    ensures VecPages(Trim(v, PAGE * k), 0) == VecPages(v, k)
  {
    hide UnitAt;
    var t := Trim(v, PAGE * k);
    assert t.len / PAGE == v.len / PAGE - k;
    forall j | 0 <= j < t.len / PAGE
      ensures VecPages(t, 0)[j] == VecPages(v, k)[j]
    {
      TrimUnit(v, k, j);
    }
  }

  lemma VecDrops(v: Vec, k: nat, m: nat)
    requires ValidVec(v) && k + m <= v.len / PAGE
    ensures m <= |VecPages(v, k)| && VecPages(v, k)[m..] == VecPages(v, k + m)
    ensures k + m == v.len / PAGE ==> VecPages(v, k + m) == []
  {
    hide UnitAt;
  }

  lemma DropConcat<T>(a: seq<T>, b: seq<T>, m: nat)
    requires m <= |a|
    ensures (a + b)[m..] == a[m..] + b && (m == |a| ==> (a + b)[m..] == b)
  {
  }

  /** Consuming `m` pages of the current vector drops them from the bio's pages. */
  lemma AdvanceDrops(vecs: seq<Vec>, i: nat, k: nat, m: nat)
    requires ValidBio(vecs) && i < |vecs| && k + m <= vecs[i].len / PAGE
    ensures m <= |BioPages(vecs, i, k)|
    ensures BioPages(vecs, i, k)[m..] ==
            if k + m == vecs[i].len / PAGE then BioPages(vecs, i + 1, 0) else BioPages(vecs, i, k + m)
  {
    hide VecPages;
    VecDrops(vecs[i], k, m);
    DropConcat(VecPages(vecs[i], k), BioPages(vecs, i + 1, 0), m);
  }

  /** The page at the iterator's position is the first page of the current vector. */
  lemma FirstPage(vecs: seq<Vec>, i: nat, k: nat)
    requires ValidBio(vecs) && i < |vecs| && k < vecs[i].len / PAGE
    ensures |BioPages(vecs, i, k)| > 0 && BioPages(vecs, i, k)[0] == UnitAt(vecs[i], k)
    ensures VecPages(vecs[i], k) <= BioPages(vecs, i, k)
  {
  }

  /** How far the pages of a vector are physically contiguous, in bytes: all of it, or up to the
      first page that is out of bounds or does not follow on. */
  method CheckBvecContiguity(v: Vec, base: int) returns (full: bool, n: nat)
    requires ValidVec(v) && v.GpuVec? && UnitAt(v, 0).Gpu? && UnitAt(v, 0).phys == base
    ensures 0 < n <= v.len && n % PAGE == 0 && (full <==> n == v.len)
    ensures Consecutive(VecPages(v, 0), base, n / PAGE)
    ensures n < v.len ==> !(UnitAt(v, n / PAGE).Gpu? && UnitAt(v, n / PAGE).phys == base + n)
  {
    if v.len <= PAGE {
      return true, v.len;
    }
    var checked, left, prev := PAGE, v.len - PAGE, base;
    var t := v.page + v.offset / PAGE + 1;
    while left > 0
      invariant 0 < checked <= v.len && checked % PAGE == 0 && left == v.len - checked
      invariant t == v.page + v.offset / PAGE + checked / PAGE
      invariant prev == base + checked - PAGE
      invariant Consecutive(VecPages(v, 0), base, checked / PAGE)
    {
      if t >= MAX_SHADOW_PAGES || t >= |v.table.phys| {
        return false, checked;
      }
      var curr := v.table.phys[t];
      if curr != prev + PAGE {
        return false, checked;
      }
      if left >= PAGE {
        checked, left := checked + PAGE, left - PAGE;
      } else {
        checked, left := checked + left, 0;
      }
      prev := curr;
      t := t + 1;
    }
    return true, v.len;
  }

  /** The pages of a vector past its first are not cut. */
  lemma InsideVec(v: Vec, us: seq<Unit>, k: nat)
    requires ValidVec(v) && VecPages(v, 0) <= us && k <= v.len / PAGE
    ensures Clear(us, 1, k)
    ensures k < v.len / PAGE ==> k < |us| && us[k] == UnitAt(v, k)
  {
    forall j | 1 <= j < k
      ensures !Cut(us[j])
    {
      assert us[j] == VecPages(v, 0)[j] == UnitAt(v, j);
    }
    if k < v.len / PAGE { assert us[k] == VecPages(v, 0)[k]; }
  }

  /** The answers of the code around the iterator during one call: whether the request passes the
      integrity and payload checks, whether the metadata accepts the DMA mark of the vector found
      in a given bio with a given number of bytes to go, and whether the segment gets a DMA
      address. */
  datatype Answers = Answers(valid: bool, marks: (nat, nat) -> bool, mapped: bool)

  /** No mark is refused. */
  ghost predicate AllMarked(marks: (nat, nat) -> bool) {
    forall b, n :: marks(b, n)
  }

  ghost predicate Agrees(ans: Answers) {
    ans.valid && ans.mapped && AllMarked(ans.marks)
  }

  datatype Outcome = Mapped | Done | Failed

  /** Why the segments end where they do: before a CPU page or the end, or at a failure. */
  ghost predicate Closed(us: seq<Unit>, segs: seq<Segment>, r: Outcome, ans: Answers) {
    && PagesIn(segs) <= |us|
    && (r == Done <==> PagesIn(segs) == |us| || us[PagesIn(segs)].Cpu?)
    && (r == Failed ==> us[PagesIn(segs)].Outside? || !Agrees(ans))
  }

  lemma CloseExactly(us: seq<Unit>, segs: seq<Segment>, rest: seq<Unit>, r: Outcome, ans: Answers,
                     ok: bool, marked: bool)
    requires Progress(us, segs, rest, marked) && r != Mapped && (!ok ==> !Agrees(ans))
    requires r == Done <==> rest == [] || rest[0].Cpu?
    requires r == Failed <==> rest != [] && (rest[0].Outside? || (rest[0].Gpu? && !ok))
    ensures Closed(us, segs, r, ans)
  {
    ProgressMeans(us, segs, rest, marked);
    hide PagesIn, Agrees;
  }

  lemma ClosedMeans(us: seq<Unit>, segs: seq<Segment>, r: Outcome, ans: Answers)
    requires Closed(us, segs, r, ans)
    ensures PagesIn(segs) <= |us|
    ensures r == Done <==> PagesIn(segs) == |us| || us[PagesIn(segs)].Cpu?
    ensures r == Failed ==> us[PagesIn(segs)].Outside? || !Agrees(ans)
  {
  }

  lemma AgreesMeans(ans: Answers, bio: nat, size: nat)
    ensures Agrees(ans) ==> ans.valid && ans.marks(bio, size) && ans.mapped
  {
  }

  class DmaIter {
    const req: seq<seq<Vec>>
    var bio: nat
    var size: nat
    var idx: nat
    var done: nat
    var addr: int
    var len: nat

    ghost predicate Valid()
      reads this`bio, this`size, this`idx, this`done
    {
      && ValidReq(req) && bio < |req|
      && idx <= |req[bio]| && done % PAGE == 0
      && (if idx < |req[bio]| then done < req[bio][idx].len else done == 0)
      && size == PAGE * |BioPages(req[bio], idx, done / PAGE)|
    }

    /** The pages still to be mapped. */
    ghost function Pages(): (us: seq<Unit>)
      requires Valid()
      reads this`bio, this`size, this`idx, this`done
    {
      BioPages(req[bio], idx, done / PAGE) + ReqPages(req, bio + 1)
    }

    /** The iterator does not stand at the end of a bio that has a successor. */
    ghost predicate Rested()
      reads this`bio, this`size, this`idx, this`done
    {
      size == 0 ==> bio + 1 == |req|
    }

    constructor (req: seq<seq<Vec>>)
      requires ValidReq(req)
      ensures Valid() && Rested() && this.req == req && Pages() == ReqPages(req, 0)
    {
      this.req := req;
      bio, idx, done := 0, 0, 0;
      addr, len := 0, 0;
      size := PAGE * |BioPages(req[0], 0, 0)|;
      new;
      FirstPage(req[0], 0, 0);
    }

    /** The rest of the vector at the iterator's position, without consuming it. */
    method Peek() returns (v: Option<Vec>)
      requires Valid()
      ensures v.None? <==> size == 0
      ensures v.Some? ==>
                && idx < |req[bio]| && ValidVec(v.value) && v.value == Trim(req[bio][idx], done)
                && VecPages(v.value, 0) <= Pages() && |Pages()| > 0 && Pages()[0] == UnitAt(v.value, 0)
    {
      if size == 0 {
        return None;
      }
      assert idx < |req[bio]|;
      TrimDrops(req[bio][idx], done / PAGE);
      FirstPage(req[bio], idx, done / PAGE);
      var t := Trim(req[bio][idx], done);
      return Some(t.(len := Min(size, t.len)));
    }

    /** Consume `bytes` bytes of the current vector. */
    method Advance(bytes: nat)
      requires Valid() && idx < |req[bio]| && bytes % PAGE == 0 && 0 < bytes <= req[bio][idx].len - done
      modifies this`size, this`idx, this`done
      ensures Valid() && bytes / PAGE <= |old(Pages())| && Pages() == old(Pages())[bytes / PAGE..]
      ensures bytes == req[bio][old(idx)].len - old(done) ==> done == 0
    {
      hide BioPages, ReqPages, VecPages, UnitAt;
      ghost var k, m := done / PAGE, bytes / PAGE;
      AdvanceDrops(req[bio], idx, k, m);
      assert (done + bytes) / PAGE == k + m;
      assert (BioPages(req[bio], idx, k) + ReqPages(req, bio + 1))[m..] ==
             BioPages(req[bio], idx, k)[m..] + ReqPages(req, bio + 1);
      size, done := size - bytes, done + bytes;
      if done == req[bio][idx].len {
        idx, done := idx + 1, 0;
      }
    }

    /** Step to the next bio once the current one is exhausted. */
    method NextBio()
      requires Valid() && size == 0 && bio + 1 < |req|
      modifies this`bio, this`size, this`idx, this`done
      ensures Valid() && size > 0 && Pages() == old(Pages())
    {
      assert idx == |req[bio]|;
      FirstPage(req[bio + 1], 0, 0);
      bio, idx, done := bio + 1, 0, 0;
      size := PAGE * |BioPages(req[bio], 0, 0)|;
    }

    /** The page at the iterator's position may not be added to a segment that ends at `end`. */
    ghost predicate Stops(end: int)
      requires Valid()
      reads this`bio, this`size, this`idx, this`done
    {
      |Pages()| > 0 && Pages()[0].Gpu? ==> Pages()[0].phys != end || Cut(Pages()[0])
    }

    /** If the page at the iterator's position is inside a vector, it does not continue a segment
        that ends at `end`. */
    ghost predicate Turned(end: int)
      requires Valid()
      reads this`bio, this`size, this`idx, this`done
    {
      |Pages()| > 0 && Pages()[0].Gpu? && !Pages()[0].head ==> Pages()[0].phys != end
    }

    /** Between two vectors the next page is the first of its vector. */
    lemma HeadBetween()
      requires Valid() && done == 0
      ensures |Pages()| > 0 && Pages()[0].Gpu? ==> Pages()[0].head
    {
      if idx < |req[bio]| {
        FirstPage(req[bio], idx, 0);
      } else if bio + 1 < |req| {
        FirstPage(req[bio + 1], 0, 0);
      }
    }

    /** Consume as much of the peeked GPU vector as is physically contiguous, after marking it
        for DMA; nothing when the mark is refused. */
    method Consume(v: Vec, marks: (nat, nat) -> bool) returns (n: nat, ghost k: nat)
      requires Valid() && idx < |req[bio]| && ValidVec(v) && v == Trim(req[bio][idx], done)
      requires UnitAt(v, 0).Gpu? && VecPages(v, 0) <= Pages()
      modifies this`size, this`idx, this`done
      ensures Valid() && n == PAGE * k && (k > 0 <==> marks(bio, old(size)))
      ensures k == 0 ==> !AllMarked(marks) && unchanged(this)
      ensures Consecutive(old(Pages()), UnitAt(v, 0).phys, k) && k <= |old(Pages())|
      ensures Pages() == old(Pages())[k..]
      ensures k > 0 ==> Clear(old(Pages()), 1, k) && Turned(UnitAt(v, 0).phys + n)
    {
      hide VecPages, BioPages, ReqPages;
      var full;
      full, n := CheckBvecContiguity(v, UnitAt(v, 0).phys);
      if !marks(bio, size) {
        return 0, 0;
      }
      k := n / PAGE;
      InsideVec(v, Pages(), k);
      assert Consecutive(Pages(), UnitAt(v, 0).phys, k);
      Advance(n);
      if n == v.len {
        HeadBetween();
      } else {
        assert old(Pages())[k] == Pages()[0];
      }
    }

    /** Add to a segment that ends at `end` the next contiguous run, stepping to the next bio
        where one is exhausted; add nothing when the page there may not be merged. */
    method Extend(end: int, marks: (nat, nat) -> bool) returns (n: nat, ghost k: nat)
      requires Valid() && Turned(end)
      modifies this`bio, this`size, this`idx, this`done
      ensures Valid() && n == PAGE * k
      ensures Consecutive(old(Pages()), end, k) && k <= |old(Pages())|
      ensures Pages() == old(Pages())[k..]
      ensures k == 0 ==> Rested() && (AllMarked(marks) ==> Stops(end))
      ensures Clear(old(Pages()), 0, k) && Turned(end + n)
    {
      hide DmaIter.Valid, DmaIter.Pages, VecPages, UnitAt, Consecutive, Clear, ValidVec, Trim, AllMarked, Boundary;
      n, k := 0, 0;
      ConsecutiveNone(Pages(), end);
      ClearFirst(Pages(), 0);
      if size == 0 {
        if bio + 1 >= |req| {
          ExhaustedReq();
          return;
        }
        NextBio();
      }
      var v := Peek();
      if v.None? {
        return;
      }
      var u := UnitAt(v.value, 0);
      if !u.Gpu? {
        return;
      }
      if end != u.phys || Boundary(u.index) {
        return;
      }
      n, k := Consume(v.value, marks);
      ClearFirst(old(Pages()), k);
    }

    /** Extend the segment of `seed` bytes at `start` by what follows it in GPU memory. */
    method Coalesce(start: int, seed: nat, marks: (nat, nat) -> bool) returns (total: nat, ghost c: nat)
      requires Valid() && Turned(start + seed)
      modifies this`bio, this`size, this`idx, this`done
      ensures Valid() && Rested()
      ensures total == seed + PAGE * c
      ensures Consecutive(old(Pages()), start + seed, c) && c <= |old(Pages())|
      ensures Pages() == old(Pages())[c..]
      ensures Clear(old(Pages()), 0, c)
      ensures AllMarked(marks) ==> Stops(start + total)
    {
      hide DmaIter.Valid, DmaIter.Pages, Consecutive, Clear, Boundary, AllMarked;
      total, c := seed, 0;
      ConsecutiveNone(Pages(), start + seed);
      ClearFirst(Pages(), 0);
      while true
        invariant Valid() && total == seed + PAGE * c
        invariant c <= |old(Pages())| && Consecutive(old(Pages()), start + seed, c)
        invariant Clear(old(Pages()), 0, c) && Turned(start + total)
        invariant Pages() == old(Pages())[c..]
        decreases |Pages()|
      {
        var n, k := Extend(start + total, marks);
        if n == 0 {
          break;
        }
        ConsecutiveAppend(old(Pages()), start + seed, c, k);
        ClearAppend(old(Pages()), 0, c, k);
        total, c := total + n, c + k;
      }
    }

    lemma ExhaustedReq()
      requires Valid() && size == 0 && bio + 1 >= |req|
      ensures Pages() == [] && Rested()
    {
    }

    /** Map the next segment. There is none at the end of the request and before a CPU page; it
        fails on a page past the end of its buffer, and on a GPU page when the request is not valid,
        the page's own mark is refused or the segment gets no DMA address. */
    method MapNext(ans: Answers) returns (r: Outcome)
      requires Valid() && Rested()
      modifies this
      ensures Valid() && Rested()
      ensures r == Mapped ==>
                && 0 < len && len % PAGE == 0 && Consecutive(old(Pages()), addr, len / PAGE)
                && Pages() == old(Pages())[len / PAGE..] && Clear(old(Pages()), 1, len / PAGE)
                && (AllMarked(ans.marks) ==> Stops(addr + len))
      ensures r == Done <==> old(Pages()) == [] || old(Pages())[0].Cpu?
      ensures r == Done ==> Pages() == old(Pages())
      ensures r == Failed <==>
                && old(Pages()) != []
                && (|| old(Pages())[0].Outside?
                    || (old(Pages())[0].Gpu? && !(ans.valid && ans.marks(old(bio), old(size)) && ans.mapped)))
    {
      hide DmaIter.Valid, DmaIter.Pages, VecPages, UnitAt, Consecutive, Clear, ValidVec, Trim, AllMarked, Boundary;
      var v := Peek();
      if v.None? {
        ExhaustedReq();
        return Done;
      }
      var u := UnitAt(v.value, 0);
      if u.Cpu? {
        return Done;
      }
      if !ans.valid || u.Outside? {
        return Failed;
      }
      var n, k := Consume(v.value, ans.marks);
      if n == 0 {
        return Failed;
      }
      var total, c := Coalesce(u.phys, n, ans.marks);
      ConsecutiveAppend(old(Pages()), u.phys, k, c);
      ClearAppend(old(Pages()), 1, k, c);
      if !ans.mapped {
        return Failed;
      }
      addr, len := u.phys, total;
      assert len / PAGE == k + c;
      return Mapped;
    }

    /** Map segments until none is left, as the block layer does; `answers(i)` are the answers
        during call `i`. The segments concatenate to the page-by-page translation of the leading
        GPU pages of the request: none skipped, none repeated. It is done exactly if the page after
        the last segment is a CPU page, or there is none; only a refusal, or a page past the end of
        its buffer, keeps it from getting there, and only granted segments are listed. When every
        mark is accepted a segment
        starts exactly where a page does not follow on from the one before it, or is the first of
        its vector and at a boundary. */
    static method MapAll(req: seq<seq<Vec>>, answers: nat -> Answers) returns (segs: seq<Segment>, r: Outcome)
      requires ValidReq(req)
      ensures r != Mapped && ExpandAll(segs) <= GpuPrefix(ReqPages(req, 0))
      ensures r == Done ==> ExpandAll(segs) == GpuPrefix(ReqPages(req, 0))
      ensures PagesIn(segs) <= |ReqPages(req, 0)|
      ensures r == Done <==> PagesIn(segs) == |ReqPages(req, 0)| || ReqPages(req, 0)[PagesIn(segs)].Cpu?
      ensures r == Failed ==> ReqPages(req, 0)[PagesIn(segs)].Outside? || !Agrees(answers(|segs|))
      ensures forall i | 0 <= i < |segs| :: answers(i).valid && answers(i).mapped
      ensures (forall i :: AllMarked(answers(i).marks)) ==> SplitExactly(ReqPages(req, 0), segs)
    {
      hide DmaIter.Valid, DmaIter.Pages, DmaIter.Rested, Agrees, AllMarked, ReqPages, ValidReq;
      hide Progress, Consecutive, GpuPrefix, ExpandAll, PagesIn, Clear, SplitExactly, Cut, Closed;
      var it := new DmaIter(req);
      segs, r := [], Mapped;
      ghost var us, marked := ReqPages(req, 0), forall i :: AllMarked(answers(i).marks);
      ProgressStart(us, marked);
      while r == Mapped
        invariant fresh(it) && it.Valid() && it.Rested()
        invariant r == Mapped ==> Progress(us, segs, it.Pages(), marked)
        invariant forall i | 0 <= i < |segs| :: answers(i).valid && answers(i).mapped
        invariant r != Mapped ==> Closed(us, segs, r, answers(|segs|))
        invariant ExpandAll(segs) <= GpuPrefix(us) && (marked ==> SplitExactly(us, segs))
        invariant r == Done ==> ExpandAll(segs) == GpuPrefix(us)
        decreases r == Mapped, |it.Pages()|
      {
        ghost var rest := it.Pages();
        ProgressMeans(us, segs, rest, marked);
        ghost var ans, at, left := answers(|segs|), it.bio, it.size;
        r := it.MapNext(answers(|segs|));
        if r != Mapped {
          AgreesMeans(ans, at, left);
          CloseExactly(us, segs, rest, r, ans, ans.valid && ans.marks(at, left) && ans.mapped, marked);
        } else {
          assert marked ==> AllMarked(answers(|segs|).marks);
          assert answers(|segs|).valid && answers(|segs|).mapped;
          ProgressStep(us, segs, rest, it.addr, it.len / PAGE, marked);
          segs := segs + [Segment(it.addr, it.len)];
          ProgressMeans(us, segs, it.Pages(), marked);
        }
      }
      ClosedMeans(us, segs, r, answers(|segs|));
    }
  }

  /** A vector of two consecutive pages whose second is at a boundary. */
  function LongVec(): Vec {
    GpuVec(true, Table([0, PAGE], [MAX_CONTIG_GPU_PAGES - 1, MAX_CONTIG_GPU_PAGES]), 0, 0, 2 * PAGE)
  }

  /** The boundary inside it is passed over: both pages are covered, and no segment starts at the
      second. */
  method BoundaryPassed(answers: nat -> Answers) returns (segs: seq<Segment>)
    requires forall i :: Agrees(answers(i))
    ensures ValidReq([[LongVec()]]) && ReqPages([[LongVec()]], 0) == VecPages(LongVec(), 0)
    ensures UnitAt(LongVec(), 1).Gpu? && Boundary(UnitAt(LongVec(), 1).index)
    ensures PagesIn(segs) == 2 && 1 !in Starts(segs)
  {
    LongVecPages();
    var r;
    segs, r := DmaIter.MapAll([[LongVec()]], answers);
    hide ReqPages, VecPages, ExpandAll, PagesIn, Starts, Consecutive;
    ExpandLength(segs);
    assert forall i :: AllMarked(answers(i).marks);
    assert 1 !in Starts(segs);
  }

  lemma LongVecPages()
    ensures ValidReq([[LongVec()]])
    ensures var us := ReqPages([[LongVec()]], 0);
            && us == VecPages(LongVec(), 0) && |us| == 2
            && us[0] == Gpu(0, MAX_CONTIG_GPU_PAGES - 1, true) && us[1] == Gpu(PAGE, MAX_CONTIG_GPU_PAGES, false)
            && |GpuPrefix(us)| == 2 && !BreakAt(us, 1)
  {
    var us := ReqPages([[LongVec()]], 0);
    assert us == VecPages(LongVec(), 0);
    assert us == [Gpu(0, MAX_CONTIG_GPU_PAGES - 1, true), Gpu(PAGE, MAX_CONTIG_GPU_PAGES, false)];
    PrefixWhole(us);
  }
}
