/**
  Validation at completion, one block at a time: the local variables of the loop of
  `nvfs_mgroup_check_and_set`, and the proof that they end up describing the transfer.
*/
module Notes {
  import opened Units
  import opened Holes
  import opened Blocks

  /** Holes so far, the last hole block (or -1), the byte limit of an overflowing list (or 0),
      and the error code (or 0). Blocks count from the first of the transfer. */
  datatype Note = Note(holes: seq<Run>, last: int, limit: nat, err: int) {
    predicate Started() { (last >= 0 || limit > 0) ==> |holes| > 0 }
  }

  /** Record block `k` as a hole: extend the last entry, open one, or set the byte limit. */
  function NoteHole(k: nat, note: Note): Note
    requires note.Started()
  {
    if note.last < 0 || note.last + 1 != k then
      if note.limit > 0 then note.(last := k)
      else if |note.holes| >= MAX_HOLE_REGIONS then note.(limit := k * PAGE, last := k)
      else note.(holes := note.holes + [Run(k, 1)], last := k)
    else
      var z := |note.holes| - 1;
      note.(holes := note.holes[z := Run(note.holes[z].start, note.holes[z].npages + 1)], last := k)
  }

  /** One iteration for block `k` in state `s`, when `n` blocks are accounted for. */
  function NoteBlock(n: nat, k: nat, s: BlockState, write: bool, note: Note): (note': Note)
    requires note.Started()
    ensures note'.Started()
  {
    if s == DmaStart then note
    else if k >= n then (if s != Queued then note.(err := EIO) else note)
    else if !write then NoteHole(k, note)
    else note.(err := EIO)
  }

  /** The loop's variables after the first `k` blocks from `lo` on. */
  function NoteFold(m: seq<BlockState>, lo: nat, n: nat, k: nat, write: bool): (note: Note)
    requires lo + k <= |m|
    ensures note.Started()
  {
    if k == 0 then Note([], -1, 0, 0)
    else NoteBlock(n, k - 1, m[lo + k - 1], write, NoteFold(m, lo, n, k - 1, write))
  }

  /** The runs `rs` below block `n` are recorded in `note`. */
  ghost predicate Recorded(rs: seq<Run>, n: nat, note: Note) {
    && Apart(rs, n)
    && note.holes == Reported(rs)
    && note.limit == ReadLimit(rs)
    && note.last == if rs == [] then -1 else rs[|rs| - 1].End() - 1
  }

  lemma NoteHoleOpens(rs: seq<Run>, n: nat, note: Note)
    requires Recorded(rs, n, note) && !Continues(rs, n)
    requires note.Started()
    ensures Recorded(AddBlock(rs, n, true), n + 1, NoteHole(n, note))
  {
    AddBlockApart(rs, n, true);
    LimitBelow(rs, n);
    ReportOpen(rs, n);
  }

  lemma NoteHoleExtends(rs: seq<Run>, n: nat, note: Note)
    requires Recorded(rs, n, note) && Continues(rs, n)
    requires note.Started()
    ensures Recorded(AddBlock(rs, n, true), n + 1, NoteHole(n, note))
  {
    AddBlockApart(rs, n, true);
    ReportExtend(rs, n);
  }

  lemma UnmappedStep(m: seq<BlockState>, lo: nat, k: nat)
    requires lo + k < |m|
    ensures Runs(Unmapped(m, lo, k + 1)) == AddBlock(Runs(Unmapped(m, lo, k)), k, m[lo + k] != DmaStart)
  {
    assert Unmapped(m, lo, k + 1)[..k] == Unmapped(m, lo, k);
  }

  lemma ReadStep(rs: seq<Run>, n: nat, k: nat, s: BlockState, note: Note)
    requires Recorded(rs, k, note) && note.Started() && k < n
    ensures Recorded(AddBlock(rs, k, s != DmaStart), k + 1, NoteBlock(n, k, s, false, note))
  {
    if s != DmaStart {
      if Continues(rs, k) { NoteHoleExtends(rs, k, note); } else { NoteHoleOpens(rs, k, note); }
    }
  }

  lemma ReadExtends(m: seq<BlockState>, lo: nat, n: nat, k: nat, rs: seq<Run>, note: Note)
    requires lo + k < |m| && k < n
    requires rs == Runs(Unmapped(m, lo, k)) && note == NoteFold(m, lo, n, k, false) && Recorded(rs, k, note)
    ensures Recorded(Runs(Unmapped(m, lo, k + 1)), k + 1, NoteFold(m, lo, n, k + 1, false))
  {
    UnmappedStep(m, lo, k);
    ReadStep(rs, n, k, m[lo + k], note);
  }

  /** Over the accounted blocks a read records exactly the runs of unmapped blocks. */
  lemma {:induction false} ReadRecords(m: seq<BlockState>, lo: nat, n: nat, k: nat)
    requires lo + k <= |m| && k <= n
    ensures Recorded(Runs(Unmapped(m, lo, k)), k, NoteFold(m, lo, n, k, false))
  {
    if k > 0 {
      ReadRecords(m, lo, n, k - 1);
      ReadExtends(m, lo, n, k - 1, Runs(Unmapped(m, lo, k - 1)), NoteFold(m, lo, n, k - 1, false));
    }
  }

  /** Past the accounted blocks nothing is recorded. */
  lemma {:induction false} RecordsStop(m: seq<BlockState>, lo: nat, n: nat, k: nat, write: bool)
    requires lo + k <= |m| && n <= k
    ensures NoteFold(m, lo, n, k, write).(err := 0) == NoteFold(m, lo, n, n, write).(err := 0)
  {
    if n < k { RecordsStop(m, lo, n, k - 1, write); }
  }

  /** A write records no hole and no limit. */
  lemma {:induction false} WriteRecordsNothing(m: seq<BlockState>, lo: nat, n: nat, k: nat)
    requires lo + k <= |m|
    ensures NoteFold(m, lo, n, k, true).holes == [] && NoteFold(m, lo, n, k, true).limit == 0
  {
    if k > 0 { WriteRecordsNothing(m, lo, n, k - 1); }
  }

  /** The error code tells whether one of the first `k` blocks is at fault. */
  lemma {:induction false} FaultsNoted(m: seq<BlockState>, lo: nat, n: nat, k: nat, write: bool)
    requires lo + n <= |m| && lo + k <= |m|
    ensures NoteFold(m, lo, n, k, write).err ==
            if || (write && exists i :: lo <= i < lo + Min(k, n) && m[i] != DmaStart)
               || (exists i :: lo + n <= i < lo + k && !InTransfer(m[i]))
            then EIO else 0
  {
    if k > 0 { FaultsNoted(m, lo, n, k - 1, write); }
  }

  /** The notes of a finished read are its hole list and byte limit. */
  lemma ReadNotes(m: seq<BlockState>, lo: nat, hi: nat, n: nat)
    requires lo + n <= hi + 1 <= |m|
    ensures var note, rs := NoteFold(m, lo, n, hi - lo + 1, false), Runs(Unmapped(m, lo, n));
            && NonEmpty(rs) && note.holes == Reported(rs) && note.limit == ReadLimit(rs)
            && (note.holes == [] <==> rs == [])
  {
    hide NoteFold, Runs, Unmapped;
    RecordsStop(m, lo, n, hi - lo + 1, false);
    ReadRecords(m, lo, n, n);
    ReportedExact(Runs(Unmapped(m, lo, n)));
  }

  lemma ErrNotes(m: seq<BlockState>, lo: nat, hi: nat, n: nat, write: bool)
    requires lo + n <= hi + 1 <= |m|
    ensures NoteFold(m, lo, n, hi - lo + 1, write).err == if Faulty(m, lo, hi, n, write) then EIO else 0
  {
    FaultsNoted(m, lo, n, hi - lo + 1, write);
  }

  /** The variables left by the loop decide the completion. */
  lemma NotesDecide(m: seq<BlockState>, lo: nat, hi: nat, write: bool, checkSparse: bool, ret: nat)
    requires lo <= hi < |m|
    ensures var note := NoteFold(m, lo, DoneBlocks(ret, lo, hi), hi - lo + 1, write);
            CompletionOf(m, lo, hi, write, checkSparse, ret)
            == Completion(if note.err < 0 then note.err else if note.limit > 0 then note.limit else ret,
                          if !write && (checkSparse || |note.holes| > 0) then Some(note.holes) else None)
  {
    var n := DoneBlocks(ret, lo, hi);
    ErrNotes(m, lo, hi, n, write);
    if write {
      WriteRecordsNothing(m, lo, n, hi - lo + 1);
    } else {
      ReadNotes(m, lo, hi, n);
    }
  }
}
