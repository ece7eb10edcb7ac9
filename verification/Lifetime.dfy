/**
  Reference safety of one mapped buffer. A group carries a reference for its VMA, one for the
  mapping, and one for an I/O; munmap, the release of a synchronous I/O and the GPU free callback
  all may drop the mapping's. The machine starts with the buffer mapped (READY) and runs one I/O
  at a time, one munmap and at most one callback, with every exchange, store, read, get and put
  as its own step. The put that brings the count to zero starts the release, which stores UNPIN
  and later takes the group off the registry; until then a lookup still finds it.

  Two interleavings make two parties drop the mapping's reference; they set `raced` and `late`.
  In a third a lookup takes a reference on a count of zero; it sets `revived`. Besides, a DMA mark
  that is refused puts the group once too often; `over` counts that. The theorems say that these
  are the only ways in which references are lost. Some of them ask for a clean run: one in which
  the release has not begun after a refused mark.
*/
module Lifetime {
  import opened IoMachine

  /** The I/O thread. `sync` is the caller's mode. In the `Leave` positions `owner` tells an I/O
      that was claimed from one whose claim failed, and `held` whether its reference is still
      to be dropped. */
  datatype IoPc =
    | Quiet
    | Pinned(sync: bool)
    | Claiming(sync: bool)
    | ClaimFallback(sync: bool)
    | ClaimDropMap(sync: bool)
    | ClaimForce(sync: bool)
    | Flying(sync: bool)
    | Leaving(sync: bool, held: bool, owner: bool)
    | LeaveFallback(sync: bool, held: bool, owner: bool)
    | LeaveForce(held: bool, owner: bool)
    | DropMapI(held: bool)
    | DropIo

  /** munmap, in `nvfs_vma_close`. */
  datatype MunPc = MunNot | MunCheck | MunRung(rung: int) | Reread | Reread2 | DropMapM | MunFinal | MunGone

  /** The GPU free callback. */
  datatype CbPc = CbNot | CbRung(rung: int) | CbRead | CbWait | CbCheck | Spin | Freeing | DropMapC | CbGone

  /** How far the release of the group has come: the count has reached zero, UNPIN is stored, the
      group is off the registry. */
  datatype Reap = Alive | Zero | Unpinned | Removed

  /** The group's own fields: the I/O state, the reference count, the progress of its release, and
      whether the count has reached zero a second time. */
  datatype Group = Group(io: Io, ref: int, reap: Reap, again: bool)

  /** One party's part in dropping the mapping's reference: it has not decided to, it has, it has
      dropped it. */
  datatype Drop = Keep | Decide | Dropped

  /** The three harmful interleavings, and the number of puts by refused marks. */
  datatype Harm = Harm(raced: bool, late: bool, revived: bool, over: nat)

  /** The whole system: the group, the three parties, and what each of them does with the mapping's
      reference. */
  datatype Life = Life(
    g: Group, iot: IoPc, mun: MunPc, cb: CbPc,
    byIo: Drop, byMun: Drop, byCb: Drop, harm: Harm)

  function Start(): Life {
    Life(Group(IoReady, 2, Alive, false), Quiet, MunNot, CbNot, Keep, Keep, Keep, Harm(false, false, false, 0))
  }

  /** An I/O thread's next call: pin the buffer's first page, complete or abandon a claimed I/O,
      have a DMA mark refused while it is in flight, or just take the next step. */
  datatype IoChoice = Pin(sync: bool) | Complete | Bail | Refuse | Go

  /** `nvfs_mgroup_put`: a put that brings the count to zero starts the release. */
  function Put(g: Group): Group {
    if g.ref == 1 then
      g.(ref := 0, reap := if g.reap == Alive then Zero else g.reap, again := g.again || g.reap != Alive)
    else g.(ref := g.ref - 1)
  }

  /** The end of an I/O: drop its reference unless that was done already. */
  function AfterLeave(held: bool): IoPc {
    if held then DropIo else Quiet
  }

  function IoStep(s: Life, ch: IoChoice): Life {
    match s.iot
    case Quiet =>
      // a page can be pinned only while it is mapped, so never once munmap has begun
      if ch.Pin? && s.mun == MunNot then s.(iot := Pinned(ch.sync)) else s
    case Pinned(sync) =>
      // the page's number finds the group for as long as it is registered
      if s.g.reap == Removed then s.(iot := Quiet)
      else s.(g := s.g.(ref := s.g.ref + 1), iot := Claiming(sync),
              harm := s.harm.(revived := s.harm.revived || s.g.ref == 0))
    case Claiming(sync) =>
      if s.g.io == IoReady then s.(g := s.g.(io := InProgress), iot := Flying(sync))
      else s.(iot := ClaimFallback(sync))
    case ClaimFallback(sync) =>
      if sync && s.g.io == TerminateReq then
        s.(g := s.g.(io := Terminated), iot := ClaimDropMap(sync), byIo := Decide)
      else s.(iot := ClaimForce(sync))
    case ClaimDropMap(sync) =>
      s.(g := Put(s.g), iot := Leaving(sync, true, false), byIo := Dropped)
    case ClaimForce(sync) =>
      s.(g := s.g.(io := CallbackEnd), iot := Leaving(sync, true, false),
         harm := s.harm.(late := s.harm.late || s.byMun != Keep))
    case Flying(sync) =>
      if ch.Complete? then s.(g := Put(s.g), iot := Leaving(sync, false, true))            // nvfs_io_free
      else if ch.Bail? then s.(iot := Leaving(sync, true, true))                           // nvfs_io_init gives up
      else if ch.Refuse? then s.(g := Put(s.g), harm := s.harm.(over := s.harm.over + 1))  // two puts for one get
      else s
    case Leaving(sync, held, owner) =>
      if s.g.io == InProgress then s.(g := s.g.(io := IoReady), iot := AfterLeave(held))
      else s.(iot := LeaveFallback(sync, held, owner))
    case LeaveFallback(sync, held, owner) =>
      if sync && s.g.io == TerminateReq then
        s.(g := s.g.(io := Terminated), iot := DropMapI(held), byIo := Decide,
           harm := s.harm.(raced := s.harm.raced || s.mun == Reread))
      else s.(iot := LeaveForce(held, owner))
    case LeaveForce(held, owner) =>
      s.(g := s.g.(io := CallbackEnd), iot := AfterLeave(held), harm := s.harm.(late := s.harm.late || s.byMun != Keep))
    case DropMapI(held) => s.(g := Put(s.g), iot := AfterLeave(held), byIo := Dropped)
    case DropIo => s.(g := Put(s.g), iot := Quiet)
  }

  function MunStep(s: Life): Life {
    var io := s.g.io;
    match s.mun
    case MunNot => s.(mun := MunCheck)
    case MunCheck => s.(mun := if io == IoFree || io == IoInit || io == CallbackEnd then MunFinal else MunRung(0))
    case MunRung(k) =>
      s.(g := s.g.(io := Rung(io, false, k)),
         mun := if Rung(io, false, k) != io || k >= 3 then Reread else MunRung(k + 1))
    case Reread => s.(mun := if io != Terminated then MunFinal else Reread2)
    case Reread2 => if io == Terminated then s.(mun := DropMapM, byMun := Decide) else s.(mun := MunFinal)
    case DropMapM => s.(g := Put(s.g), mun := MunFinal, byMun := Dropped)
    case MunFinal => s.(g := Put(s.g), mun := MunGone)
    case MunGone => s
  }

  function CbStep(s: Life): Life {
    var io := s.g.io;
    match s.cb
    case CbNot => s.(cb := CbRung(0))
    case CbRung(k) =>
      s.(g := s.g.(io := Rung(io, true, k)),
         cb := if Rung(io, true, k) != io then (if k >= 3 then CbWait else CbCheck)
               else if k >= 4 then CbRead else CbRung(k + 1))
    case CbRead => s.(cb := if io == TerminateReq || io == CallbackReq then CbWait else CbCheck)
    case CbWait => if io == CallbackEnd || io == Terminated then s.(cb := CbCheck) else s
    case CbCheck => if io == CallbackEnd then s.(cb := Freeing, byCb := Decide) else s.(cb := Spin)
    case Spin => if io == UnpinInvoked then s.(cb := CbGone) else s
    case Freeing => s.(cb := DropMapC)
    case DropMapC => s.(g := Put(s.g), cb := CbGone, byCb := Dropped)
    case CbGone => s
  }

  /** The release: store UNPIN, then leave the registry. */
  function ReapStep(s: Life): Life {
    match s.g.reap
    case Zero => s.(g := s.g.(io := UnpinInvoked, reap := Unpinned))
    case Unpinned => s.(g := s.g.(reap := Removed))
    case _ => s
  }

  datatype Actor = IoThread(ch: IoChoice) | Munmap | Callback | Reaper

  function Step(s: Life, a: Actor): Life {
    match a
    case IoThread(ch) => IoStep(s, ch)
    case Munmap => MunStep(s)
    case Callback => CbStep(s)
    case Reaper => ReapStep(s)
  }

  function Run(s: Life, acts: seq<Actor>): Life
    decreases |acts|
  {
    if |acts| == 0 then s else Run(Step(s, acts[0]), acts[1..])
  }

  // ------------------------------------------------- invariant

  /** The I/O thread holds a reference. */
  predicate HoldsIo(p: IoPc) {
    match p
    case Quiet => false
    case Pinned(_) => false
    case Leaving(_, held, _) => held
    case LeaveFallback(_, held, _) => held
    case LeaveForce(held, _) => held
    case DropMapI(held) => held
    case _ => true
  }

  /** An I/O is in flight: claimed and not yet released. */
  predicate InFlight(p: IoPc) {
    || p.Flying?
    || ((p.Leaving? || p.LeaveFallback? || p.LeaveForce?) && p.owner)
  }

  /** A claim that failed or is about to be tried. */
  predicate Unclaimed(p: IoPc) {
    || p.Pinned? || p.Claiming? || p.ClaimFallback? || p.ClaimDropMap? || p.ClaimForce?
    || ((p.Leaving? || p.LeaveFallback? || p.LeaveForce?) && !p.owner)
  }

  /** The I/O thread, munmap and the callback about to drop the mapping's reference. */
  predicate IoDropping(p: IoPc) { p.DropMapI? || p.ClaimDropMap? }
  predicate MunDropping(m: MunPc) { m.DropMapM? }
  predicate CbDropping(c: CbPc) { c.Freeing? || c.DropMapC? }

  /** munmap before its decision; on its re-reads; past its ladder; past its drop. */
  predicate MunUndecided(m: MunPc) { m.MunNot? || m.MunCheck? || m.MunRung? || m.Reread? || m.Reread2? }
  predicate MunRereading(m: MunPc) { m.Reread? || m.Reread2? }
  predicate MunMarked(m: MunPc) { m.Reread? || m.Reread2? || m.DropMapM? || m.MunFinal? || m.MunGone? }
  predicate MunOver(m: MunPc) { m.MunFinal? || m.MunGone? }

  /** The VMA holds a reference, until the last put of munmap. */
  predicate VmaHolds(m: MunPc) { !m.MunGone? }

  /** The callback before its decision, or having decided to leave the buffer to others. */
  predicate CbUndecided(c: CbPc) { !CbDropping(c) && !c.CbGone? }

  /** The state is that of an I/O in flight; the release has stored UNPIN. */
  predicate Busy(io: Io) { io == InProgress || io == TerminateReq || io == CallbackReq }
  predicate Unpinning(r: Reap) { r == Unpinned || r == Removed }

  function N(b: bool): int { if b then 1 else 0 }

  /** The count is the VMA's, the mapping's and the I/O's reference, less the drops of the
      mapping's beyond the first and the puts of refused marks. */
  predicate Conserved(s: Life) {
    s.g.ref == N(VmaHolds(s.mun)) + 1 - Puts(s) + N(HoldsIo(s.iot)) - s.harm.over
  }

  /** Each party carries its drop out once it has decided. */
  predicate Carried(s: Life) {
    && (IoDropping(s.iot) <==> s.byIo == Decide)
    && (MunDropping(s.mun) <==> s.byMun == Decide) && (MunUndecided(s.mun) ==> s.byMun == Keep)
    && (CbDropping(s.cb) <==> s.byCb == Decide) && (CbUndecided(s.cb) ==> s.byCb == Keep)
    && (s.byIo != Keep ==> s.g.io == Terminated || s.g.io == CallbackEnd || s.g.io == UnpinInvoked)
  }

  /** The account of the references. */
  predicate Counted(s: Life) {
    Conserved(s) && Carried(s) && (s.g.reap == Alive ==> s.g.ref > 0)
  }

  /** How the shared state relates to the positions of the three parties. */
  predicate Consistent(s: Life) {
    && s.g.io != IoFree && s.g.io != IoInit
    && (Busy(s.g.io) ==> InFlight(s.iot))
    && (InFlight(s.iot) ==> Busy(s.g.io) || s.g.io == UnpinInvoked)
    && (Unclaimed(s.iot) ==> s.iot.Pinned? || HoldsIo(s.iot))
    && (s.g.io == TerminateReq || s.g.io == Terminated ==> MunMarked(s.mun))
    && (s.mun.Reread2? ==> s.g.io == Terminated || s.g.io == CallbackEnd || s.g.io == UnpinInvoked)
    && (s.g.io == UnpinInvoked ==> Unpinning(s.g.reap))
  }

  /** Who can have decided to drop the mapping's reference. */
  predicate Decided(s: Life) {
    && (s.byMun != Keep || s.byCb != Keep ==> s.g.io == Terminated || s.g.io == CallbackEnd || s.g.io == UnpinInvoked)
    && (s.byIo != Keep ==> MunMarked(s.mun) && s.byCb == Keep && s.g.io != CallbackEnd)
    && (s.byIo != Keep ==> !Unclaimed(s.iot) && !InFlight(s.iot))
    && (s.byCb != Keep ==> s.g.io != Terminated && !InFlight(s.iot))
    && (s.byMun != Keep && s.g.io == CallbackEnd ==> s.harm.late)
    && (s.byMun != Keep && s.byCb != Keep ==> s.harm.late)
    && (s.harm.raced ==> s.byIo != Keep)
    && (s.byIo != Keep && !s.harm.raced ==> s.byMun == Keep && MunOver(s.mun))
    && (s.harm.late ==> s.byMun != Keep && s.g.io != Terminated)
  }

  /** When the release has begun, and when it begins again. */
  predicate Released(s: Life) {
    && (s.harm.raced ==> s.byMun != Keep || MunRereading(s.mun))
    && (InFlight(s.iot) ==> s.g.reap == Alive)
    && (s.g.reap == Alive ==> !s.harm.revived)
    && (s.g.reap != Alive ==> !MunUndecided(s.mun) && Drops(s) > 0 && (!s.harm.revived ==> s.g.ref <= 0))
    && (Unpinning(s.g.reap) && !s.harm.revived && s.byCb == Keep ==> s.g.io == UnpinInvoked)
    && (s.g.again ==> s.harm.revived)
    && (s.harm.revived && Drops(s) <= 1 ==>
          !VmaHolds(s.mun) && Puts(s) == 1 && (s.g.again || HoldsIo(s.iot)))
  }

  /** How many of munmap, the release of an I/O and the callback have decided to drop the
      mapping's reference. */
  function Drops(s: Life): int { N(s.byIo != Keep) + N(s.byMun != Keep) + N(s.byCb != Keep) }

  /** How many of them have dropped it. */
  function Puts(s: Life): int { N(s.byIo == Dropped) + N(s.byMun == Dropped) + N(s.byCb == Dropped) }

  /** No mark has been refused, or the release has not begun. */
  predicate Clean(s: Life) { s.harm.over == 0 || s.g.reap == Alive }

  predicate Ordered(s: Life) {
    Consistent(s) && Decided(s) && (Clean(s) ==> Released(s))
  }

  predicate Inv(s: Life) { Counted(s) && Ordered(s) }

  /** What no step takes back. */
  predicate Onward(s: Life, s': Life) {
    && (s.byCb != Keep ==> s'.byCb != Keep) && (s.harm.late ==> s'.harm.late)
    && (s.harm.revived ==> s'.harm.revived) && (Clean(s') ==> Clean(s))
  }

  // ------------------------------------------------- the count

  lemma CountQuiet(s: Life, ch: IoChoice)
    requires Counted(s) && s.iot.Quiet?
    ensures Counted(IoStep(s, ch)) && Onward(s, IoStep(s, ch))
  {
    hide MunDropping, MunUndecided, VmaHolds, CbDropping, CbUndecided;
  }

  lemma CountPinned(s: Life, ch: IoChoice)
    requires Counted(s) && s.iot.Pinned?
    ensures Counted(IoStep(s, ch)) && Onward(s, IoStep(s, ch))
  {
    hide MunDropping, MunUndecided, VmaHolds, CbDropping, CbUndecided;
  }

  lemma CountClaim(s: Life, ch: IoChoice)
    requires Counted(s) && s.iot.Claiming?
    ensures Counted(IoStep(s, ch)) && Onward(s, IoStep(s, ch))
  {
    hide MunDropping, MunUndecided, VmaHolds, CbDropping, CbUndecided;
  }

  lemma CountFallback(s: Life, ch: IoChoice)
    requires Counted(s) && s.iot.ClaimFallback?
    ensures Counted(IoStep(s, ch)) && Onward(s, IoStep(s, ch))
  {
    hide MunDropping, MunUndecided, VmaHolds, CbDropping, CbUndecided;
  }

  lemma CountForce(s: Life, ch: IoChoice)
    requires Counted(s) && (s.iot.ClaimForce? || s.iot.LeaveForce?)
    ensures Counted(IoStep(s, ch)) && Onward(s, IoStep(s, ch))
  {
    hide MunDropping, MunUndecided, VmaHolds, CbDropping, CbUndecided;
  }

  lemma CountFlying(s: Life, ch: IoChoice)
    requires Counted(s) && s.iot.Flying?
    ensures Counted(IoStep(s, ch)) && Onward(s, IoStep(s, ch))
  {
    hide MunDropping, MunUndecided, VmaHolds, CbDropping, CbUndecided;
  }

  lemma CountLeave(s: Life, ch: IoChoice)
    requires Counted(s) && s.iot.Leaving?
    ensures Counted(IoStep(s, ch)) && Onward(s, IoStep(s, ch))
  {
    hide MunDropping, MunUndecided, VmaHolds, CbDropping, CbUndecided, Put;
    if s.g.io == InProgress {
      assert IoStep(s, ch) == s.(g := s.g.(io := IoReady), iot := AfterLeave(s.iot.held));
    }
  }

  lemma CountLeaveFallback(s: Life, ch: IoChoice)
    requires Counted(s) && s.iot.LeaveFallback?
    ensures Counted(IoStep(s, ch)) && Onward(s, IoStep(s, ch))
  {
    hide MunDropping, MunUndecided, VmaHolds, CbDropping, CbUndecided;
  }

  lemma CountClaimDrop(s: Life, ch: IoChoice)
    requires Counted(s) && s.iot.ClaimDropMap?
    ensures Counted(IoStep(s, ch)) && Onward(s, IoStep(s, ch))
  {
    hide MunDropping, MunUndecided, VmaHolds, CbDropping, CbUndecided;
  }

  lemma CountDropMap(s: Life, ch: IoChoice)
    requires Counted(s) && s.iot.DropMapI?
    ensures Counted(IoStep(s, ch)) && Onward(s, IoStep(s, ch))
  {
    hide MunDropping, MunUndecided, VmaHolds, CbDropping, CbUndecided;
  }

  lemma CountDropIo(s: Life, ch: IoChoice)
    requires Counted(s) && s.iot.DropIo?
    ensures Counted(IoStep(s, ch)) && Onward(s, IoStep(s, ch))
  {
    hide MunDropping, MunUndecided, VmaHolds, CbDropping, CbUndecided;
  }

  lemma CountIo(s: Life, ch: IoChoice)
    requires Counted(s)
    ensures Counted(IoStep(s, ch)) && Onward(s, IoStep(s, ch))
  {
    hide Counted, IoStep;
    match s.iot
    case Quiet => CountQuiet(s, ch);
    case Pinned(_) => CountPinned(s, ch);
    case Claiming(_) => CountClaim(s, ch);
    case ClaimFallback(_) => CountFallback(s, ch);
    case ClaimDropMap(_) => CountClaimDrop(s, ch);
    case ClaimForce(_) => CountForce(s, ch);
    case Flying(_) => CountFlying(s, ch);
    case Leaving(_, _, _) => CountLeave(s, ch);
    case LeaveFallback(_, _, _) => CountLeaveFallback(s, ch);
    case LeaveForce(_, _) => CountForce(s, ch);
    case DropMapI(_) => CountDropMap(s, ch);
    case DropIo => CountDropIo(s, ch);
  }

  lemma CountMunRung(s: Life)
    requires Counted(s) && s.mun.MunRung?
    ensures Counted(MunStep(s)) && Onward(s, MunStep(s))
  {
    hide HoldsIo, IoDropping, CbDropping, CbUndecided;
  }

  lemma CountMunDrop(s: Life)
    requires Counted(s) && s.mun.DropMapM?
    ensures Counted(MunStep(s)) && Onward(s, MunStep(s))
  {
    hide HoldsIo, IoDropping, CbDropping, CbUndecided;
  }

  lemma CountMunFinal(s: Life)
    requires Counted(s) && s.mun.MunFinal?
    ensures Counted(MunStep(s)) && Onward(s, MunStep(s))
  {
    hide HoldsIo, IoDropping, CbDropping, CbUndecided;
  }

  lemma CountMunMove(s: Life)
    requires Counted(s) && !s.mun.MunRung? && !s.mun.DropMapM? && !s.mun.MunFinal?
    ensures Counted(MunStep(s)) && Onward(s, MunStep(s))
  {
    hide HoldsIo, IoDropping, CbDropping, CbUndecided;
  }

  lemma CountMun(s: Life)
    requires Counted(s)
    ensures Counted(MunStep(s)) && Onward(s, MunStep(s))
  {
    hide Counted, MunStep;
    match s.mun
    case MunRung(_) => CountMunRung(s);
    case DropMapM => CountMunDrop(s);
    case MunFinal => CountMunFinal(s);
    case _ => CountMunMove(s);
  }

  lemma CountCbRung(s: Life)
    requires Counted(s) && s.cb.CbRung?
    ensures Counted(CbStep(s)) && Onward(s, CbStep(s))
  {
    hide HoldsIo, IoDropping, MunDropping, MunUndecided, VmaHolds;
  }

  lemma CountCbPut(s: Life)
    requires Counted(s) && s.cb.DropMapC?
    ensures Counted(CbStep(s)) && Onward(s, CbStep(s))
  {
    hide HoldsIo, IoDropping, MunDropping, MunUndecided, VmaHolds;
  }

  lemma CountCbCheck(s: Life)
    requires Counted(s) && (s.cb.CbCheck? || s.cb.CbRead? || s.cb.CbWait?)
    ensures Counted(CbStep(s)) && Onward(s, CbStep(s))
  {
    hide HoldsIo, IoDropping, MunDropping, MunUndecided, VmaHolds;
  }

  lemma CountCbMove(s: Life)
    requires Counted(s) && (s.cb.CbNot? || s.cb.Spin? || s.cb.Freeing? || s.cb.CbGone?)
    ensures Counted(CbStep(s)) && Onward(s, CbStep(s))
  {
    hide HoldsIo, IoDropping, MunDropping, MunUndecided, VmaHolds;
  }

  lemma CountCb(s: Life)
    requires Counted(s)
    ensures Counted(CbStep(s)) && Onward(s, CbStep(s))
  {
    hide Counted, CbStep;
    match s.cb
    case CbRung(_) => CountCbRung(s);
    case DropMapC => CountCbPut(s);
    case CbCheck => CountCbCheck(s);
    case CbRead => CountCbCheck(s);
    case CbWait => CountCbCheck(s);
    case _ => CountCbMove(s);
  }

  lemma CountReap(s: Life)
    requires Counted(s)
    ensures Counted(ReapStep(s)) && Onward(s, ReapStep(s))
  {
    hide HoldsIo, IoDropping, MunDropping, MunUndecided, VmaHolds, CbDropping, CbUndecided;
  }

  lemma StepCounted(s: Life, a: Actor)
    requires Counted(s)
    ensures Counted(Step(s, a)) && Onward(s, Step(s, a))
  {
    hide Counted, IoStep, MunStep, CbStep, ReapStep;
    match a
    case IoThread(ch) => CountIo(s, ch);
    case Munmap => CountMun(s);
    case Callback => CountCb(s);
    case Reaper => CountReap(s);
  }

  // ------------------------------------------------- the order of the decisions

  lemma MunOrder(s: Life)
    requires Inv(s)
    ensures Ordered(MunStep(s))
  {
    hide Inv, Ordered, MunStep;
    match s.mun
    case MunRung(_) => MunRungOrder(s);
    case DropMapM => MunPutOrder(s);
    case MunFinal => MunPutOrder(s);
    case Reread => MunRereadOrder(s);
    case Reread2 => MunRereadOrder(s);
    case _ => MunCheckOrder(s);
  }

  lemma MunRungOrder(s: Life)
    requires Inv(s) && s.mun.MunRung?
    ensures Ordered(MunStep(s))
  {
    hide HoldsIo, Unclaimed, IoDropping, CbDropping, CbUndecided;
  }

  lemma MunPutOrder(s: Life)
    requires Inv(s) && (s.mun.DropMapM? || s.mun.MunFinal?)
    ensures Ordered(MunStep(s))
  {
    hide InFlight, Unclaimed, IoDropping, CbDropping, CbUndecided;
  }

  lemma MunRereadOrder(s: Life)
    requires Inv(s) && (s.mun.Reread? || s.mun.Reread2?)
    ensures Ordered(MunStep(s))
  {
    hide HoldsIo, Unclaimed, IoDropping, CbDropping, CbUndecided;
  }

  lemma MunCheckOrder(s: Life)
    requires Inv(s) && (s.mun.MunNot? || s.mun.MunCheck? || s.mun.MunGone?)
    ensures Ordered(MunStep(s))
  {
    hide HoldsIo, Unclaimed, IoDropping, CbDropping, CbUndecided;
  }

  lemma CbOrder(s: Life)
    requires Inv(s)
    ensures Ordered(CbStep(s))
  {
    hide Inv, Ordered, CbStep;
    match s.cb
    case CbRung(_) => CbRungOrder(s);
    case CbCheck => CbCheckOrder(s);
    case DropMapC => CbDropOrder(s);
    case CbWait => CbMoveOrder(s);
    case CbRead => CbMoveOrder(s);
    case Spin => CbMoveOrder(s);
    case _ => CbRestOrder(s);
  }

  lemma CbMoveOrder(s: Life)
    requires Inv(s) && (s.cb.CbRead? || s.cb.CbWait? || s.cb.Spin?)
    ensures Ordered(CbStep(s))
  {
    hide HoldsIo, InFlight, Unclaimed, IoDropping;
    hide MunDropping, MunRereading, MunMarked, MunOver, VmaHolds, MunUndecided;
  }

  lemma CbRestOrder(s: Life)
    requires Inv(s) && (s.cb.CbNot? || s.cb.Freeing? || s.cb.CbGone?)
    ensures Ordered(CbStep(s))
  {
    hide HoldsIo, InFlight, Unclaimed, IoDropping;
    hide MunDropping, MunRereading, MunMarked, MunOver, VmaHolds, MunUndecided;
  }

  lemma CbCheckOrder(s: Life)
    requires Inv(s) && s.cb.CbCheck?
    ensures Ordered(CbStep(s))
  {
    hide HoldsIo, Unclaimed, IoDropping, MunDropping, MunRereading, MunMarked, MunOver, VmaHolds;
  }

  lemma CbDropOrder(s: Life)
    requires Inv(s) && s.cb.DropMapC?
    ensures Ordered(CbStep(s))
  {
    hide InFlight, Unclaimed, IoDropping, MunDropping, MunRereading, MunMarked, MunOver;
  }

  lemma CbRungOrder(s: Life)
    requires Inv(s) && s.cb.CbRung?
    ensures Ordered(CbStep(s))
  {
    hide HoldsIo, Unclaimed, IoDropping, MunDropping, MunRereading, MunOver;
  }

  /** The release of an I/O that munmap has marked: the step that can race with munmap's re-read. */
  lemma LeaveFallbackOrder(s: Life, ch: IoChoice)
    requires Inv(s) && s.iot.LeaveFallback?
    ensures Ordered(IoStep(s, ch))
  {
    hide CbDropping, CbUndecided, VmaHolds;
  }

  /** The puts by the I/O thread. */
  lemma FlyingOrder(s: Life, ch: IoChoice)
    requires Inv(s) && s.iot.Flying?
    ensures Ordered(IoStep(s, ch))
  {
    hide CbDropping, CbUndecided, MunDropping, MunRereading;
  }

  lemma DropMapOrder(s: Life, ch: IoChoice)
    requires Inv(s) && s.iot.DropMapI?
    ensures Ordered(IoStep(s, ch))
  {
    hide CbDropping, CbUndecided, MunDropping, MunRereading;
  }

  lemma DropIoOrder(s: Life, ch: IoChoice)
    requires Inv(s) && s.iot.DropIo?
    ensures Ordered(IoStep(s, ch))
  {
    hide CbDropping, CbUndecided, MunDropping, MunRereading;
  }

  lemma QuietOrder(s: Life, ch: IoChoice)
    requires Inv(s) && s.iot.Quiet?
    ensures Ordered(IoStep(s, ch))
  {
    hide CbDropping, CbUndecided, MunDropping, MunRereading, MunOver;
  }

  lemma PinnedOrder(s: Life, ch: IoChoice)
    requires Inv(s) && s.iot.Pinned?
    ensures Ordered(IoStep(s, ch))
  {
    hide CbDropping, CbUndecided, MunDropping, MunRereading, MunOver;
  }

  /** The release. */
  lemma ReapOrder(s: Life)
    requires Inv(s)
    ensures Ordered(ReapStep(s))
  {
    hide Counted, Ordered;
    match s.g.reap
    case Zero => UnpinOrder(s);
    case Unpinned => RemoveOrder(s);
    case _ =>
  }

  lemma RemoveOrder(s: Life)
    requires Inv(s) && s.g.reap == Unpinned
    ensures Ordered(ReapStep(s))
  {
    hide HoldsIo, InFlight, Unclaimed, IoDropping, CbDropping, CbUndecided;
    hide MunDropping, MunRereading, MunMarked, MunOver, VmaHolds, MunUndecided;
  }

  lemma UnpinOrder(s: Life)
    requires Inv(s) && s.g.reap == Zero
    ensures Ordered(ReapStep(s))
  {
    hide HoldsIo, Unclaimed, IoDropping, CbDropping, CbUndecided, MunDropping, MunRereading, MunOver, VmaHolds;
  }

  lemma ClaimOrder(s: Life, ch: IoChoice)
    requires Inv(s) && (s.iot.Claiming? || s.iot.ClaimFallback?)
    ensures Ordered(IoStep(s, ch))
  {
    hide CbDropping, CbUndecided, MunDropping, MunRereading, MunOver, VmaHolds;
  }

  lemma ForceOrder(s: Life, ch: IoChoice)
    requires Inv(s) && (s.iot.ClaimForce? || s.iot.LeaveForce?)
    ensures Ordered(IoStep(s, ch))
  {
    hide CbDropping, CbUndecided, MunDropping, MunRereading, MunOver, VmaHolds;
  }

  lemma LeaveOrder(s: Life, ch: IoChoice)
    requires Inv(s) && s.iot.Leaving?
    ensures Ordered(IoStep(s, ch))
  {
    hide CbDropping, CbUndecided, MunDropping, MunRereading, MunOver, VmaHolds;
  }

  lemma IoOrder(s: Life, ch: IoChoice)
    requires Inv(s)
    ensures Ordered(IoStep(s, ch))
  {
    match s.iot
    case Quiet => QuietOrder(s, ch);
    case Pinned(_) => PinnedOrder(s, ch);
    case Flying(_) => FlyingOrder(s, ch);
    case DropMapI(_) => DropMapOrder(s, ch);
    case DropIo => DropIoOrder(s, ch);
    case LeaveFallback(_, _, _) => LeaveFallbackOrder(s, ch);
    case Leaving(_, _, _) => LeaveOrder(s, ch);
    case LeaveForce(_, _) => ForceOrder(s, ch);
    case ClaimForce(_) => ForceOrder(s, ch);
    case ClaimDropMap(_) => assert false;
    case _ => ClaimOrder(s, ch);
  }

  lemma StepOrder(s: Life, a: Actor)
    requires Inv(s)
    ensures Ordered(Step(s, a))
  {
    hide Inv, Ordered, IoStep, MunStep, CbStep, ReapStep;
    match a
    case IoThread(ch) => IoOrder(s, ch);
    case Munmap => MunOrder(s);
    case Callback => CbOrder(s);
    case Reaper => ReapOrder(s);
  }

  /** Every run keeps the invariant. */
  lemma {:induction false} RunInv(s: Life, acts: seq<Actor>)
    requires Inv(s)
    ensures Inv(Run(s, acts)) && Onward(s, Run(s, acts))
    decreases |acts|
  {
    hide Counted, Ordered, Step;
    if |acts| > 0 {
      StepCounted(s, acts[0]);
      StepOrder(s, acts[0]);
      RunInv(Step(s, acts[0]), acts[1..]);
    }
  }

  /** No DMA mark is refused. */
  predicate NoRefusal(acts: seq<Actor>) {
    forall k | 0 <= k < |acts| :: acts[k] != IoThread(Refuse)
  }

  lemma StepNoRefusal(s: Life, a: Actor)
    requires a != IoThread(Refuse)
    ensures Step(s, a).harm.over == s.harm.over
  {
    match a
    case IoThread(ch) => IoFrame(s, ch);
    case _ =>
  }

  /** What a step of the I/O thread leaves alone. */
  lemma IoFrame(s: Life, ch: IoChoice)
    ensures IoStep(s, ch).byCb == s.byCb && (ch != Refuse ==> IoStep(s, ch).harm.over == s.harm.over)
  {
  }

  /** A run without a refused mark ends clean. */
  lemma {:induction false} NoRefusalClean(s: Life, acts: seq<Actor>)
    requires s.harm.over == 0 && NoRefusal(acts)
    ensures Clean(Run(s, acts)) && Run(s, acts).harm.over == 0
    decreases |acts|
  {
    hide Step;
    if |acts| > 0 {
      StepNoRefusal(s, acts[0]);
      NoRefusalClean(Step(s, acts[0]), acts[1..]);
    }
  }

  // ------------------------------------------------- theorems

  lemma StartInv()
    ensures Inv(Start())
  {
  }

  lemma FromStart(acts: seq<Actor>)
    ensures Inv(Run(Start(), acts))
  {
    StartInv();
    hide Inv, Run, Start;
    RunInv(Start(), acts);
  }

  /** The mapping's reference is dropped twice only in two interleavings. Either a synchronous
      release ends the I/O between munmap's mark and its re-read, or a failed claim stores
      CALLBACK_END after munmap's decision and the callback goes on to drop too. In a clean run
      the first always ends so, once munmap has decided. */
  lemma DroppedTwiceExactly(acts: seq<Actor>)
    ensures var s := Run(Start(), acts);
            && (MunUndecided(s.mun) ==> Drops(s) <= 1)
            && (s.byIo != Keep && s.byMun != Keep ==> s.harm.raced)
            && (s.byMun != Keep && s.byCb != Keep <==> s.harm.late && s.byCb != Keep)
            && !(s.byIo != Keep && s.byCb != Keep)
            && (Clean(s) && !MunUndecided(s.mun) ==>
                  && (s.byIo != Keep && s.byMun != Keep <==> s.harm.raced)
                  && (Drops(s) > 1 <==> s.harm.raced || (s.harm.late && s.byCb != Keep)))
  {
    FromStart(acts);
  }

  /** Reference safety over every run without the two interleavings: the mapping's reference is
      dropped at most once; the count is the VMA's, the mapping's and the I/O's reference less one
      for each refused mark; munmap's last put finds a reference to drop, unless a mark was
      refused; and in a clean run, unless a lookup revived the group, its release has begun
      exactly when the count is zero. */
  lemma ReferencesConserved(acts: seq<Actor>)
    ensures var s := Run(Start(), acts);
            !s.harm.raced && !s.harm.late ==>
              && Drops(s) <= 1
              && s.g.ref == N(VmaHolds(s.mun)) + N(Puts(s) == 0) + N(HoldsIo(s.iot)) - s.harm.over
              && (s.mun == MunFinal ==> s.g.ref >= 1 - s.harm.over)
              && (Clean(s) && !s.harm.revived ==> (s.g.reap != Alive <==> s.g.ref == 0))
  {
    FromStart(acts);
  }

  /** Whatever else happens, every refused mark costs one reference and every drop of the mapping's
      one: over every run the count is the VMA's, the mapping's and the I/O's reference less those
      puts, and once that is zero the release has begun. */
  lemma RefusedMarksCost(acts: seq<Actor>)
    ensures var s := Run(Start(), acts);
            && s.g.ref == N(VmaHolds(s.mun)) + 1 + N(HoldsIo(s.iot)) - Puts(s) - s.harm.over
            && (s.g.ref <= 0 ==> s.g.reap != Alive)
  {
    FromStart(acts);
  }

  /** The group is released a second time only if a lookup took a reference on a count of zero; and
      then it is, once that I/O has dropped its reference, unless the mapping's was dropped twice. */
  lemma ReleasedTwiceExactly(acts: seq<Actor>)
    requires Clean(Run(Start(), acts))
    ensures var s := Run(Start(), acts);
            && (s.g.again ==> s.harm.revived)
            && (Drops(s) <= 1 && !HoldsIo(s.iot) ==> (s.g.again <==> s.harm.revived))
  {
    FromStart(acts);
  }

  /** While an I/O is in flight the release has not begun, and unless a mark was refused the put
      that completes the I/O is not the last one. */
  lemma CompletionPutNeverLast(acts: seq<Actor>)
    requires Clean(Run(Start(), acts))
    ensures var s := Run(Start(), acts);
            s.iot.Flying? ==>
              && s.g.reap == Alive && s.g.ref >= 2 - s.harm.over
              && (s.harm.over == 0 ==> Put(s.g).reap == Alive)
  {
    FromStart(acts);
  }

  /** When the callback frees the DMA mappings no I/O is in flight, and none can start ever after. An
      I/O in flight keeps the state at IN_PROGRESS, TERMINATE_REQ or CALLBACK_REQ, until in a run
      that is not clean the release stores UNPIN. */
  lemma NoIoWhileFreeing(acts: seq<Actor>, later: seq<Actor>)
    ensures var s := Run(Start(), acts);
            && (CbDropping(s.cb) ==> !InFlight(s.iot) && !InFlight(Run(s, later).iot))
            && (InFlight(s.iot) ==> Busy(s.g.io) || s.g.io == UnpinInvoked)
            && (InFlight(s.iot) && Clean(s) ==> Busy(s.g.io))
  {
    FromStart(acts);
    RunInv(Run(Start(), acts), later);
  }

  /** After the second interleaving munmap has decided, and the state is CALLBACK_END or, once the
      release has stored it, UNPIN. */
  lemma LateState(acts: seq<Actor>)
    ensures var s := Run(Start(), acts);
            s.harm.late ==>
              s.byMun != Keep && (s.g.io == CallbackEnd || (s.g.io == UnpinInvoked && Unpinning(s.g.reap)))
  {
    FromStart(acts);
  }

  /** The callback stands at its check, and the release has not stored UNPIN. */
  predicate ChecksInTime(s: Life) {
    s.cb == CbCheck && !Unpinning(s.g.reap)
  }

  lemma LateCheck(s: Life)
    requires Inv(s) && Clean(s) && s.harm.late && !s.harm.revived && s.byCb == Keep
    ensures CbStep(s).byCb != Keep <==> ChecksInTime(s)
  {
    hide Conserved, HoldsIo, Unclaimed, InFlight, IoDropping, MunDropping, MunUndecided, MunMarked;
  }

  lemma LateStep(s: Life, a: Actor)
    requires Inv(s) && Clean(s) && s.harm.late && !s.harm.revived && s.byCb == Keep
    ensures Step(s, a).byCb != Keep <==> a == Callback && ChecksInTime(s)
  {
    match a
    case IoThread(ch) => IoFrame(s, ch);
    case Callback => LateCheck(s);
    case _ => hide Inv, ChecksInTime;
  }

  /** The callback passes its check in time at some point of the run. */
  predicate PassesInTime(s: Life, acts: seq<Actor>) {
    exists k :: 0 <= k < |acts| && acts[k] == Callback && ChecksInTime(Run(s, acts[..k]))
  }

  lemma PassesSnoc(s: Life, p: seq<Actor>, a: Actor)
    ensures PassesInTime(s, p + [a]) <==> PassesInTime(s, p) || (a == Callback && ChecksInTime(Run(s, p)))
  {
    hide Run, ChecksInTime;
    var q := p + [a];
    assert q[..|p|] == p && q[|p|] == a;
    assert forall k | 0 <= k < |p| :: q[..k] == p[..k] && q[k] == p[k];
    if k :| 0 <= k < |p| && p[k] == Callback && ChecksInTime(Run(s, p[..k])) {
      assert q[k] == Callback && ChecksInTime(Run(s, q[..k]));
    }
  }

  lemma {:induction false} LateFrom(s: Life, later: seq<Actor>)
    requires Inv(s) && s.harm.late && s.byCb == Keep
    requires Clean(Run(s, later)) && !Run(s, later).harm.revived
    ensures Run(s, later).byCb != Keep <==> PassesInTime(s, later)
    decreases |later|
  {
    if |later| > 0 {
      var p, a := later[..|later| - 1], later[|later| - 1];
      assert later == p + [a];
      hide Inv, Step, PassesInTime, ChecksInTime, Clean;
      RunAppend(s, p, [a]);
      RunInv(s, p);
      RunInv(Run(s, p), [a]);
      LateFrom(s, p);
      PassesSnoc(s, p, a);
      if Run(s, p).byCb == Keep { LateStep(Run(s, p), a); }
      assert Run(Run(s, p), [a]) == Step(Run(s, p), a);
    }
  }

  /** After the second interleaving, in a clean run without a revival, the callback goes on to drop
      exactly if it passes its check before the release stores UNPIN. */
  lemma LateDropsExactly(acts: seq<Actor>, later: seq<Actor>)
    requires Run(Start(), acts).harm.late && Run(Start(), acts).byCb == Keep
    requires var s := Run(Run(Start(), acts), later); Clean(s) && !s.harm.revived
    ensures Run(Run(Start(), acts), later).byCb != Keep <==> PassesInTime(Run(Start(), acts), later)
  {
    FromStart(acts);
    hide Inv, Run, Start;
    LateFrom(Run(Start(), acts), later);
  }

  /** Only asynchronous I/O. */
  predicate AsyncOnly(acts: seq<Actor>) {
    forall k | 0 <= k < |acts| :: acts[k] != IoThread(Pin(true))
  }

  predicate Async(s: Life) {
    && s.byIo == Keep && !IoDropping(s.iot)
    && !(s.iot.Pinned? && s.iot.sync) && !(s.iot.Claiming? && s.iot.sync) && !(s.iot.ClaimFallback? && s.iot.sync)
    && !(s.iot.ClaimForce? && s.iot.sync) && !(s.iot.Flying? && s.iot.sync) && !(s.iot.Leaving? && s.iot.sync)
    && !(s.iot.LeaveFallback? && s.iot.sync)
  }

  lemma AsyncStep(s: Life, a: Actor)
    requires Async(s) && a != IoThread(Pin(true))
    ensures Async(Step(s, a))
  {
    match a
    case IoThread(ch) => AsyncIo(s, ch);
    case _ =>
  }

  lemma AsyncIo(s: Life, ch: IoChoice)
    requires Async(s) && ch != Pin(true)
    ensures Async(IoStep(s, ch))
  {
    match s.iot
    case Quiet =>
    case Leaving(_, _, _) =>
    case LeaveFallback(_, _, _) =>
    case _ =>
  }

  /** An asynchronous I/O never drops the mapping's reference: it leaves that to the callback. */
  lemma {:induction false} AsyncNeverDrops(s: Life, acts: seq<Actor>)
    requires Async(s) && AsyncOnly(acts)
    ensures Async(Run(s, acts)) && Run(s, acts).byIo == Keep
    decreases |acts|
  {
    hide Step;
    if |acts| > 0 {
      AsyncStep(s, acts[0]);
      AsyncNeverDrops(Step(s, acts[0]), acts[1..]);
    }
  }

  // ------------------------------------------------- the coarse grain

  /** Between a lookup and the outcome of its claim. */
  predicate LookingUp(p: IoPc) {
    p.Pinned? || p.Claiming? || p.ClaimFallback? || p.ClaimDropMap? || p.ClaimForce?
  }

  /** The retreat of a failed claim. */
  predicate Retreating(p: IoPc) {
    (p.Leaving? || p.LeaveFallback? || p.LeaveForce?) && !p.owner
  }

  /** A step that does not break up munmap's mark and re-read, nor a lookup and its claim. */
  predicate Grouped(s: Life, a: Actor) {
    && (s.mun.MunRung? || s.mun.Reread? ==> a.Munmap?)
    && (LookingUp(s.iot) ==> a.IoThread?)
  }

  predicate Coarse(s: Life, acts: seq<Actor>)
    decreases |acts|
  {
    |acts| > 0 ==> Grouped(s, acts[0]) && Coarse(Step(s, acts[0]), acts[1..])
  }

  /** What holds between the steps of a coarse run. */
  predicate Tidy(s: Life) {
    && !s.harm.raced && !s.harm.late && !s.harm.revived
    && (LookingUp(s.iot) ==> s.mun == MunNot)
    && (Retreating(s.iot) ==>
          && (s.g.io == CallbackEnd || s.g.io == UnpinInvoked) && s.byMun == Keep
          && (s.mun.MunNot? || s.mun.MunCheck? || MunOver(s.mun)))
  }

  lemma TidyIo(s: Life, ch: IoChoice)
    requires Inv(s) && Clean(s) && Tidy(s) && Grouped(s, IoThread(ch))
    ensures Tidy(IoStep(s, ch))
  {
    hide Tidy, Grouped, Ordered, Clean, IoStep;
    match s.iot
    case LeaveForce(_, _) => TidyForce(s, ch);
    case ClaimForce(_) => TidyForce(s, ch);
    case LeaveFallback(_, _, _) => TidyFallback(s, ch);
    case Pinned(_) => TidyPinned(s, ch);
    case Quiet => TidyPinned(s, ch);
    case Flying(_) => TidyPut(s, ch);
    case DropMapI(_) => TidyPut(s, ch);
    case DropIo => TidyPut(s, ch);
    case Leaving(_, _, _) => TidyLeave(s, ch);
    case _ => TidyClaim(s, ch);
  }

  lemma TidyClaim(s: Life, ch: IoChoice)
    requires Inv(s) && Clean(s) && Tidy(s) && Grouped(s, IoThread(ch))
    requires s.iot.Claiming? || s.iot.ClaimFallback? || s.iot.ClaimDropMap?
    ensures Tidy(IoStep(s, ch))
  {
  }

  lemma TidyLeave(s: Life, ch: IoChoice)
    requires Inv(s) && Clean(s) && Tidy(s) && Grouped(s, IoThread(ch)) && s.iot.Leaving?
    ensures Tidy(IoStep(s, ch))
  {
  }

  lemma TidyPut(s: Life, ch: IoChoice)
    requires Inv(s) && Clean(s) && Tidy(s) && Grouped(s, IoThread(ch))
    requires s.iot.Flying? || s.iot.DropMapI? || s.iot.DropIo?
    ensures Tidy(IoStep(s, ch))
  {
  }

  lemma TidyForce(s: Life, ch: IoChoice)
    requires Inv(s) && Clean(s) && Tidy(s) && Grouped(s, IoThread(ch)) && (s.iot.LeaveForce? || s.iot.ClaimForce?)
    ensures Tidy(IoStep(s, ch))
  {
  }

  lemma TidyFallback(s: Life, ch: IoChoice)
    requires Inv(s) && Clean(s) && Tidy(s) && Grouped(s, IoThread(ch)) && s.iot.LeaveFallback?
    ensures Tidy(IoStep(s, ch))
  {
  }

  lemma TidyPinned(s: Life, ch: IoChoice)
    requires Inv(s) && Clean(s) && Tidy(s) && Grouped(s, IoThread(ch)) && (s.iot.Pinned? || s.iot.Quiet?)
    ensures Tidy(IoStep(s, ch))
  {
  }

  lemma TidyStep(s: Life, a: Actor)
    requires Inv(s) && Clean(s) && Tidy(s) && Grouped(s, a)
    ensures Tidy(Step(s, a))
  {
    match a
    case IoThread(ch) => TidyIo(s, ch);
    case Munmap => TidyMun(s);
    case Callback => TidyCb(s);
    case Reaper =>
  }

  lemma TidyMun(s: Life)
    requires Inv(s) && Clean(s) && Tidy(s) && Grouped(s, Munmap)
    ensures Tidy(MunStep(s))
  {
  }

  lemma TidyCb(s: Life)
    requires Inv(s) && Clean(s) && Tidy(s) && Grouped(s, Callback)
    ensures Tidy(CbStep(s))
  {
    match s.cb
    case CbRung(_) =>
    case DropMapC =>
    case _ =>
  }

  lemma {:induction false} CoarseRunTidy(s: Life, acts: seq<Actor>)
    requires Inv(s) && Tidy(s) && Coarse(s, acts) && Clean(Run(s, acts))
    ensures Tidy(Run(s, acts))
    decreases |acts|
  {
    hide Counted, Ordered, Clean, Tidy, Grouped, Step;
    if |acts| > 0 {
      RunInv(s, acts);
      TidyStep(s, acts[0]);
      StepCounted(s, acts[0]);
      StepOrder(s, acts[0]);
      CoarseRunTidy(Step(s, acts[0]), acts[1..]);
    }
  }

  /** With munmap's mark and re-read as one step and a lookup and its claim as one step, reference
      safety holds outright. */
  lemma CoarseRunsSafe(acts: seq<Actor>)
    ensures var s := Run(Start(), acts);
            Coarse(Start(), acts) && Clean(Run(Start(), acts)) ==>
              && Drops(s) <= 1 && !s.g.again
              && s.g.ref == N(VmaHolds(s.mun)) + N(Puts(s) == 0) + N(HoldsIo(s.iot)) - s.harm.over
              && (s.g.reap != Alive <==> s.g.ref == 0)
              && (s.mun == MunFinal ==> s.g.ref >= 1 - s.harm.over)
  {
    if Coarse(Start(), acts) && Clean(Run(Start(), acts)) {
      CoarseRunTidy(Start(), acts);
      ReferencesConserved(acts);
      ReleasedTwiceExactly(acts);
    }
  }

  // ------------------------------------------------- one party by itself

  /** `n` steps of the callback, or of munmap. */
  function Calls(s: Life, n: nat): Life
    decreases n
  {
    if n == 0 then s else Calls(CbStep(s), n - 1)
  }

  function Unmaps(s: Life, n: nat): Life
    decreases n
  {
    if n == 0 then s else Unmaps(MunStep(s), n - 1)
  }

  /** One step that leads to `s'`, and the rest. */
  lemma CallsNext(s: Life, n: nat, s': Life)
    requires n > 0 && CbStep(s) == s'
    ensures Calls(s, n) == Calls(s', n - 1)
  {
  }

  lemma UnmapsNext(s: Life, n: nat, s': Life)
    requires n > 0 && MunStep(s) == s'
    ensures Unmaps(s, n) == Unmaps(s', n - 1)
  {
  }

  /** A callback that waits, spins or is done stays where it is. */
  predicate CbRests(s: Life) {
    || s.cb == CbGone
    || (s.cb == CbWait && s.g.io != CallbackEnd && s.g.io != Terminated)
    || (s.cb == Spin && s.g.io != UnpinInvoked)
  }

  lemma {:induction false} CallsRest(s: Life, n: nat)
    requires CbRests(s)
    ensures Calls(s, n) == s
  {
    if n > 0 {
      CallsNext(s, n, s);
      CallsRest(s, n - 1);
    }
  }

  lemma {:induction false} UnmapsRest(s: Life, n: nat)
    requires s.mun == MunGone
    ensures Unmaps(s, n) == s
  {
    if n > 0 {
      UnmapsNext(s, n, s);
      UnmapsRest(s, n - 1);
    }
  }

  /** The callback frees and drops. */
  function Dropping(s: Life): Life {
    s.(g := Put(s.g), cb := CbGone, byCb := Dropped)
  }

  /** From its check on the callback drops the mapping's reference in CALLBACK_END, is done in UNPIN,
      and otherwise waits for UNPIN. */
  lemma CheckAlone(s: Life, n: nat)
    requires s.cb == CbCheck && n >= 3
    ensures s.g.io == CallbackEnd ==> Calls(s, n) == Dropping(s)
    ensures s.g.io == UnpinInvoked ==> Calls(s, n) == s.(cb := CbGone)
    ensures s.g.io != CallbackEnd && s.g.io != UnpinInvoked ==> Calls(s, n) == s.(cb := Spin)
  {
    if s.g.io == CallbackEnd {
      CallsNext(s, n, s.(cb := Freeing, byCb := Decide));
      CallsNext(s.(cb := Freeing, byCb := Decide), n - 1, s.(cb := DropMapC, byCb := Decide));
      CallsNext(s.(cb := DropMapC, byCb := Decide), n - 2, Dropping(s));
      CallsRest(Dropping(s), n - 3);
    } else {
      CallsNext(s, n, s.(cb := Spin));
      if s.g.io == UnpinInvoked {
        CallsNext(s.(cb := Spin), n - 1, s.(cb := CbGone));
        CallsRest(s.(cb := CbGone), n - 2);
      } else {
        CallsRest(s.(cb := Spin), n - 1);
      }
    }
  }

  /** From its wait the callback goes on once the I/O has ended: to drop the mapping's reference
      in CALLBACK_END, and to wait for UNPIN in TERMINATED. */
  lemma WaitAlone(s: Life, n: nat)
    requires s.cb == CbWait && n >= 4
    ensures s.g.io == CallbackEnd ==> Calls(s, n) == Dropping(s)
    ensures s.g.io == Terminated ==> Calls(s, n) == s.(cb := Spin)
    ensures s.g.io != CallbackEnd && s.g.io != Terminated ==> Calls(s, n) == s
  {
    if s.g.io == CallbackEnd || s.g.io == Terminated {
      CallsNext(s, n, s.(cb := CbCheck));
      CheckAlone(s.(cb := CbCheck), n - 1);
    } else {
      CallsRest(s, n);
    }
  }

  lemma RungsPass(s: Life, k: nat, j: nat, n: nat)
    requires s.cb == CbRung(k) && k <= j <= 4 && n >= j - k
    requires forall i | k <= i < j :: Rung(s.g.io, true, i) == s.g.io
    ensures Calls(s, n) == Calls(s.(cb := CbRung(j)), n - (j - k))
    decreases j - k
  {
    if k < j {
      CallsNext(s, n, s.(cb := CbRung(k + 1)));
      RungsPass(s.(cb := CbRung(k + 1)), k + 1, j, n - 1);
    }
  }

  /** The callback by itself: it tears an idle buffer down and drops the mapping's reference; with an
      I/O in flight it takes the termination over and waits; where others have ended the I/O it
      drops in CALLBACK_END, and in TERMINATED leaves the buffer to them until UNPIN. */
  lemma CallbackAlone(s: Life)
    requires s.cb == CbNot
    ensures s.g.io == IoReady ==> Calls(s, 10) == Dropping(s.(g := s.g.(io := CallbackEnd)))
    ensures Busy(s.g.io) ==> Calls(s, 10) == s.(g := s.g.(io := CallbackReq), cb := CbWait)
    ensures s.g.io == CallbackEnd ==> Calls(s, 10) == Dropping(s)
    ensures s.g.io == Terminated ==> Calls(s, 10) == s.(cb := Spin)
    ensures s.g.io == UnpinInvoked ==> Calls(s, 10) == s.(cb := CbGone)
  {
    hide Calls, Dropping, CbStep;
    match s.g.io
    case IoFree =>
    case IoInit =>
    case IoReady => CallbackReady(s);
    case InProgress => CallbackBusy(s);
    case TerminateReq => CallbackBusy(s);
    case _ => CallbackLater(s);
  }

  lemma CallbackReady(s: Life)
    requires s.cb == CbNot && s.g.io == IoReady
    ensures Calls(s, 10) == Dropping(s.(g := s.g.(io := CallbackEnd)))
  {
    hide Calls, Dropping;
    CallsNext(s, 10, s.(cb := CbRung(0)));
    RungsPass(s.(cb := CbRung(0)), 0, 2, 9);
    var t := s.(g := s.g.(io := CallbackEnd), cb := CbCheck);
    CallsNext(s.(cb := CbRung(2)), 7, t);
    CheckAlone(t, 6);
    DroppingFrom(s.(g := s.g.(io := CallbackEnd)), CbCheck);
  }

  lemma DroppingFrom(s: Life, cb: CbPc)
    ensures Dropping(s.(cb := cb)) == Dropping(s)
  {
  }

  lemma CallbackBusy(s: Life)
    requires s.cb == CbNot && (s.g.io == InProgress || s.g.io == TerminateReq)
    ensures Calls(s, 10) == s.(g := s.g.(io := CallbackReq), cb := CbWait)
  {
    hide Calls;
    var k := if s.g.io == InProgress then 3 else 4;
    var t := s.(g := s.g.(io := CallbackReq), cb := CbWait);
    CallsNext(s, 10, s.(cb := CbRung(0)));
    RungsPass(s.(cb := CbRung(0)), 0, k, 9);
    CallsNext(s.(cb := CbRung(k)), 9 - k, t);
    CallsRest(t, 8 - k);
  }

  lemma CallbackLater(s: Life)
    requires s.cb == CbNot && s.g.io in {CallbackReq, CallbackEnd, Terminated, UnpinInvoked}
    ensures s.g.io == CallbackReq ==> Calls(s, 10) == s.(cb := CbWait)
    ensures s.g.io == CallbackEnd ==> Calls(s, 10) == Dropping(s)
    ensures s.g.io == Terminated ==> Calls(s, 10) == s.(cb := Spin)
    ensures s.g.io == UnpinInvoked ==> Calls(s, 10) == s.(cb := CbGone)
  {
    hide Calls, Dropping;
    CallsNext(s, 10, s.(cb := CbRung(0)));
    RungsPass(s.(cb := CbRung(0)), 0, 4, 9);
    CallsNext(s.(cb := CbRung(4)), 5, s.(cb := CbRead));
    ReadAlone(s.(cb := CbRead), 4);
    DroppingFrom(s, CbRead);
  }

  /** Past its ladder the callback reads the state: it waits while an I/O has been asked to end, and
      otherwise comes to its check. */
  lemma ReadAlone(s: Life, n: nat)
    requires s.cb == CbRead && n >= 4
    ensures s.g.io == TerminateReq || s.g.io == CallbackReq ==> Calls(s, n) == s.(cb := CbWait)
    ensures s.g.io == CallbackEnd ==> Calls(s, n) == Dropping(s)
    ensures s.g.io == UnpinInvoked ==> Calls(s, n) == s.(cb := CbGone)
    ensures s.g.io !in {TerminateReq, CallbackReq, CallbackEnd, UnpinInvoked} ==> Calls(s, n) == s.(cb := Spin)
  {
    hide Calls, Dropping;
    if s.g.io == TerminateReq || s.g.io == CallbackReq {
      CallsNext(s, n, s.(cb := CbWait));
      CallsRest(s.(cb := CbWait), n - 1);
    } else {
      CallsNext(s, n, s.(cb := CbCheck));
      CheckAlone(s.(cb := CbCheck), n - 1);
      DroppingFrom(s, CbCheck);
    }
  }

  /** munmap's last put. */
  function Closes(s: Life): Life {
    s.(g := Put(s.g), mun := MunGone)
  }

  lemma FinalAlone(s: Life, n: nat)
    requires s.mun == MunFinal && n >= 1
    ensures Unmaps(s, n) == Closes(s)
  {
    UnmapsNext(s, n, Closes(s));
    UnmapsRest(Closes(s), n - 1);
  }

  /** From its re-read on munmap drops the mapping's reference in TERMINATED only, and the VMA's
      always. */
  lemma RereadAlone(s: Life, n: nat)
    requires s.mun == Reread && n >= 4
    ensures s.g.io == Terminated ==>
              Unmaps(s, n) == Closes(s.(g := Put(s.g), byMun := Dropped))
    ensures s.g.io != Terminated ==> Unmaps(s, n) == Closes(s)
  {
    hide Unmaps, Put;
    if s.g.io == Terminated {
      UnmapsNext(s, n, s.(mun := Reread2));
      UnmapsNext(s.(mun := Reread2), n - 1, s.(mun := DropMapM, byMun := Decide));
      var t := s.(g := Put(s.g), mun := MunFinal, byMun := Dropped);
      UnmapsNext(s.(mun := DropMapM, byMun := Decide), n - 2, t);
      FinalAlone(t, n - 3);
    } else {
      UnmapsNext(s, n, s.(mun := MunFinal));
      FinalAlone(s.(mun := MunFinal), n - 1);
    }
  }

  lemma MunRungsPass(s: Life, k: nat, j: nat, n: nat)
    requires s.mun == MunRung(k) && k <= j <= 3 && n >= j - k
    requires forall i | k <= i < j :: Rung(s.g.io, false, i) == s.g.io
    ensures Unmaps(s, n) == Unmaps(s.(mun := MunRung(j)), n - (j - k))
    decreases j - k
  {
    if k < j {
      UnmapsNext(s, n, s.(mun := MunRung(k + 1)));
      MunRungsPass(s.(mun := MunRung(k + 1)), k + 1, j, n - 1);
    }
  }

  /** munmap by itself: it tears an idle buffer down and drops the mapping's reference, as it does
      where another has TERMINATED it; it asks an I/O in flight to end and leaves the mapping's
      reference to that; and otherwise it only drops the VMA's. */
  lemma MunmapAlone(s: Life)
    requires s.mun == MunNot
    ensures var t := s.(g := s.g.(io := Terminated));
            s.g.io == IoReady || s.g.io == Terminated ==> Unmaps(s, 10) == Closes(t.(g := Put(t.g), byMun := Dropped))
    ensures s.g.io == InProgress ==> Unmaps(s, 10) == Closes(s.(g := s.g.(io := TerminateReq)))
    ensures s.g.io !in {IoReady, Terminated, InProgress} ==> Unmaps(s, 10) == Closes(s)
  {
    UnmapsNext(s, 10, s.(mun := MunCheck));
    hide Unmaps, Put;
    if s.g.io == IoFree || s.g.io == IoInit || s.g.io == CallbackEnd {
      UnmapsNext(s.(mun := MunCheck), 9, s.(mun := MunFinal));
      FinalAlone(s.(mun := MunFinal), 8);
    } else {
      UnmapsNext(s.(mun := MunCheck), 9, s.(mun := MunRung(0)));
      hide MunStep;
      MunLadderAlone(s);
    }
  }

  lemma MunLadderAlone(s: Life)
    requires s.g.io !in {IoFree, IoInit, CallbackEnd}
    ensures var t := s.(g := s.g.(io := Terminated));
            s.g.io == IoReady || s.g.io == Terminated ==>
              Unmaps(s.(mun := MunRung(0)), 8) == Closes(t.(g := Put(t.g), byMun := Dropped))
    ensures s.g.io == InProgress ==> Unmaps(s.(mun := MunRung(0)), 8) == Closes(s.(g := s.g.(io := TerminateReq)))
    ensures s.g.io !in {IoReady, Terminated, InProgress} ==> Unmaps(s.(mun := MunRung(0)), 8) == Closes(s)
  {
    hide Unmaps, Put;
    var k := if s.g.io == IoReady then 2 else 3;
    MunRungsPass(s.(mun := MunRung(0)), 0, k, 8);
    var t := s.(g := s.g.(io := Rung(s.g.io, false, k)), mun := Reread);
    UnmapsNext(s.(mun := MunRung(k)), 8 - k, t);
    RereadAlone(t, 7 - k);
  }

  /** The release by itself stores UNPIN and then takes the group off the registry. */
  lemma ReleaseAlone(s: Life)
    requires s.g.reap == Zero
    ensures ReapStep(s) == s.(g := s.g.(io := UnpinInvoked, reap := Unpinned))
    ensures ReapStep(ReapStep(s)) == s.(g := s.g.(io := UnpinInvoked, reap := Removed))
  {
  }

  /** `n` steps of the I/O thread. */
  function Goes(s: Life, n: nat): Life
    decreases n
  {
    if n == 0 then s else Goes(IoStep(s, Go), n - 1)
  }

  lemma GoesNext(s: Life, n: nat, s': Life)
    requires n > 0 && IoStep(s, Go) == s'
    ensures Goes(s, n) == Goes(s', n - 1)
  {
  }

  /** The I/O thread hands the buffer to the callback. */
  function HandsOver(s: Life): Life {
    s.(g := s.g.(io := CallbackEnd), harm := s.harm.(late := s.harm.late || s.byMun != Keep))
  }

  /** The retreat of a failed claim by itself ends in CALLBACK_END and drops the I/O's reference. */
  lemma RetreatAlone(s: Life, sync: bool)
    requires s.iot == Leaving(sync, true, false) && (s.g.io == CallbackEnd || s.g.io == Terminated)
    ensures Goes(s, 4) == HandsOver(s).(g := Put(HandsOver(s).g), iot := Quiet)
  {
    hide Put, Goes;
    var h := HandsOver(s);
    GoesNone(h.(g := Put(h.g), iot := Quiet));
    GoesNext(s, 4, s.(iot := LeaveFallback(sync, true, false)));
    GoesNext(s.(iot := LeaveFallback(sync, true, false)), 3, s.(iot := LeaveForce(true, false)));
    GoesNext(s.(iot := LeaveForce(true, false)), 2, h.(iot := DropIo));
    GoesNext(h.(iot := DropIo), 1, h.(g := Put(h.g), iot := Quiet));
  }

  lemma GoesNone(s: Life)
    ensures Goes(s, 0) == s
  {
  }

  /** A claim that fails, by itself: a synchronous one ends a termination that munmap asked for and
      drops the mapping's reference; and every one hands the buffer to the callback and drops its
      own. */
  lemma FailedClaimAlone(s: Life, sync: bool)
    requires s.iot == Claiming(sync) && s.g.io != IoReady
    ensures var t := if sync && s.g.io == TerminateReq then
                       s.(g := Put(s.g.(io := Terminated)), byIo := Dropped)
                     else HandsOver(s);
            Goes(s, 7) == HandsOver(t).(g := Put(HandsOver(t).g), iot := Quiet)
  {
    hide Put, Goes;
    GoesNext(s, 7, s.(iot := ClaimFallback(sync)));
    if sync && s.g.io == TerminateReq {
      var d := s.(g := s.g.(io := Terminated), iot := ClaimDropMap(sync), byIo := Decide);
      var t := d.(g := Put(d.g), iot := Leaving(sync, true, false), byIo := Dropped);
      GoesNext(s.(iot := ClaimFallback(sync)), 6, d);
      GoesNext(d, 5, t);
      PutKeepsState(d.g);
      RetreatAlone(t, sync);
    } else {
      GoesNext(s.(iot := ClaimFallback(sync)), 6, s.(iot := ClaimForce(sync)));
      var t := HandsOver(s).(iot := Leaving(sync, true, false));
      GoesNext(s.(iot := ClaimForce(sync)), 5, t);
      RetreatAlone(t, sync);
    }
  }

  lemma PutKeepsState(g: Group)
    ensures Put(g).io == g.io
  {
  }

  /** An I/O that nothing disturbs, completed or given up, leaves everything as it was. */
  lemma IoUndisturbed(s: Life, sync: bool)
    requires s.g.io == IoReady && s.iot == Quiet && s.mun == MunNot && s.g.reap == Alive && s.g.ref > 0
    ensures var t := IoStep(IoStep(IoStep(s, Pin(sync)), Go), Go);
            && t == s.(g := s.g.(io := InProgress, ref := s.g.ref + 1), iot := Flying(sync))
            && IoStep(IoStep(t, Complete), Go) == s
            && IoStep(IoStep(IoStep(t, Bail), Go), Go) == s
  {
    var p := s.(iot := Pinned(sync));
    var c := s.(g := s.g.(ref := s.g.ref + 1), iot := Claiming(sync));
    assert IoStep(s, Pin(sync)) == p;
    assert IoStep(p, Go) == c;
  }

  // ------------------------------------------------- the three interleavings

  lemma {:induction false} RunAppend(s: Life, p: seq<Actor>, q: seq<Actor>)
    ensures Run(s, p + q) == Run(Run(s, p), q)
    decreases |p|
  {
    hide Step;
    if |p| == 0 {
      assert p + q == q;
    } else {
      assert (p + q)[1..] == p[1..] + q;
      RunAppend(Step(s, p[0]), p[1..], q);
    }
  }

  /** A claimed synchronous read is marked by munmap, which now stands before its re-read; the
      read completes; munmap goes on. */
  function ClaimedRun(): seq<Actor> { [IoThread(Pin(true)), IoThread(Go), IoThread(Go)] }
  function MarkedRun(): seq<Actor> { [Munmap, Munmap, Munmap, Munmap, Munmap, Munmap] }
  function CompletedRun(): seq<Actor> { [IoThread(Complete), IoThread(Go), IoThread(Go), IoThread(Go)] }
  function DecidedRun(): seq<Actor> { [Munmap, Munmap, Munmap] }
  function RaceRun(): seq<Actor> { ClaimedRun() + (MarkedRun() + (CompletedRun() + DecidedRun())) }

  function Claimed(): Life { Start().(g := Start().g.(io := InProgress, ref := 3), iot := Flying(true)) }
  function Marked(): Life { Claimed().(g := Claimed().g.(io := TerminateReq), mun := Reread) }
  function Completed(): Life {
    Marked().(g := Start().g.(io := Terminated, ref := 1), iot := Quiet, byIo := Dropped,
              harm := Harm(true, false, false, 0))
  }
  function Raced(): Life {
    Completed().(g := Group(Terminated, 0, Zero, false), mun := MunFinal, byMun := Dropped)
  }

  lemma ToClaimed()
    ensures Run(Start(), ClaimedRun()) == Claimed()
  {
  }

  lemma ToMarked()
    ensures Run(Claimed(), MarkedRun()) == Marked()
  {
  }

  lemma ToCompleted()
    ensures Run(Marked(), CompletedRun()) == Completed()
  {
  }

  lemma ToRaced()
    ensures Run(Completed(), DecidedRun()) == Raced()
  {
  }

  /** The race happens: both drop, the release begins, and munmap's check for a remaining
      reference fails. */
  lemma RaceHappens()
    ensures var s := Run(Start(), RaceRun());
            s.harm.raced && Drops(s) == 2 && s.g.reap != Alive && s.mun == MunFinal && s.g.ref < 1
  {
    ToClaimed();
    ToMarked();
    ToCompleted();
    ToRaced();
    hide Run, ClaimedRun, MarkedRun, CompletedRun, DecidedRun;
    RunAppend(Start(), ClaimedRun(), MarkedRun() + (CompletedRun() + DecidedRun()));
    RunAppend(Claimed(), MarkedRun(), CompletedRun() + DecidedRun());
    RunAppend(Marked(), CompletedRun(), DecidedRun());
  }

  /** A read looks the buffer up, munmap marks the buffer and decides to drop; the read's claim
      fails and hands the buffer to the callback. */
  function LookedRun(): seq<Actor> { [IoThread(Pin(false)), IoThread(Go)] }
  function TornRun(): seq<Actor> { [Munmap, Munmap, Munmap, Munmap] + DecidedRun() }
  function ForcedRun(): seq<Actor> { [IoThread(Go), IoThread(Go), IoThread(Go)] }
  function FourCalls(): seq<Actor> { [Callback, Callback, Callback, Callback] }
  function LateRun(): seq<Actor> { LookedRun() + (TornRun() + (ForcedRun() + (FourCalls() + FourCalls()))) }

  function Looked(): Life { Start().(g := Start().g.(ref := 3), iot := Claiming(false)) }
  function Tearing(): Life { Looked().(mun := MunRung(2)) }
  function Torn(): Life { Looked().(g := Looked().g.(io := Terminated), mun := DropMapM, byMun := Decide) }
  function Forced(): Life {
    Torn().(g := Looked().g.(io := CallbackEnd), iot := Leaving(false, true, false),
            harm := Harm(false, true, false, 0))
  }
  function Calling(): Life { Forced().(cb := CbRung(3)) }
  function Called(): Life { Forced().(cb := Freeing, byCb := Decide) }

  lemma ToLooked()
    ensures Run(Start(), LookedRun()) == Looked()
  {
  }

  lemma ToTearing()
    ensures Run(Looked(), [Munmap, Munmap, Munmap, Munmap]) == Tearing()
  {
  }

  lemma ToDecided()
    ensures Run(Tearing(), DecidedRun()) == Torn()
  {
  }

  lemma ToTorn()
    ensures Run(Looked(), TornRun()) == Torn()
  {
    ToTearing();
    ToDecided();
    hide Run, DecidedRun;
    RunAppend(Looked(), [Munmap, Munmap, Munmap, Munmap], DecidedRun());
  }

  lemma ToForced()
    ensures Run(Torn(), ForcedRun()) == Forced()
  {
  }

  lemma ToCalling()
    ensures Run(Forced(), FourCalls()) == Calling()
  {
  }

  lemma ToCalled()
    ensures Run(Calling(), FourCalls()) == Called()
  {
  }

  /** The second interleaving happens too. */
  lemma LateHappens()
    ensures var s := Run(Start(), LateRun());
            s.harm.late && s.byMun != Keep && s.byCb != Keep
  {
    ToLooked();
    ToTorn();
    ToForced();
    ToCalling();
    ToCalled();
    hide Run, LookedRun, TornRun, ForcedRun, FourCalls;
    RunAppend(Start(), LookedRun(), TornRun() + (ForcedRun() + (FourCalls() + FourCalls())));
    RunAppend(Looked(), TornRun(), ForcedRun() + (FourCalls() + FourCalls()));
    RunAppend(Torn(), ForcedRun(), FourCalls() + FourCalls());
    RunAppend(Forced(), FourCalls(), FourCalls());
  }

  /** A page is pinned; the callback and munmap drop every reference; the lookup still finds the
      group, and its failed claim ends in a second release. */
  function PinnedRun(): seq<Actor> { [IoThread(Pin(true)), Callback, Callback, Callback] }
  function ClosedRun(): seq<Actor> { [Munmap, Munmap, Munmap, IoThread(Go)] }
  function TwoSteps(): seq<Actor> { [IoThread(Go), IoThread(Go)] }
  function BackRun(): seq<Actor> { TwoSteps() + TwoSteps() }
  function ReviveRun(): seq<Actor> { PinnedRun() + (FourCalls() + (ClosedRun() + (ForcedRun() + BackRun()))) }

  function Notified(): Life { Start().(iot := Pinned(true), cb := CbRung(2)) }
  function Freed(): Life {
    Start().(g := Start().g.(io := CallbackEnd, ref := 1), iot := Pinned(true), cb := CbGone,
             byCb := Dropped)
  }
  function Closed(): Life {
    Freed().(g := Group(CallbackEnd, 1, Zero, false), iot := Claiming(true), mun := MunGone,
             harm := Harm(false, false, true, 0))
  }
  function Refused(): Life { Closed().(iot := Leaving(true, true, false)) }
  function Left(): Life { Closed().(g := Group(CallbackEnd, 0, Zero, true), iot := Quiet) }

  lemma ToNotified()
    ensures Run(Start(), PinnedRun()) == Notified()
  {
  }

  lemma ToFreed()
    ensures Run(Notified(), FourCalls()) == Freed()
  {
  }

  lemma ToClosed()
    ensures Run(Freed(), ClosedRun()) == Closed()
  {
  }

  lemma ToRefused()
    ensures Run(Closed(), ForcedRun()) == Refused()
  {
  }

  lemma ToForcing()
    ensures Run(Refused(), TwoSteps()) == Closed().(iot := LeaveForce(true, false))
  {
  }

  lemma ToDropped()
    ensures Run(Closed().(iot := LeaveForce(true, false)), TwoSteps()) == Left()
  {
  }

  lemma ToLeft()
    ensures Run(Refused(), BackRun()) == Left()
  {
    ToForcing();
    ToDropped();
    hide Run, TwoSteps;
    RunAppend(Refused(), TwoSteps(), TwoSteps());
  }

  /** And so does the third, without the other two. */
  lemma ReviveHappens()
    ensures var s := Run(Start(), ReviveRun());
            !s.harm.raced && !s.harm.late && s.harm.revived && s.g.again
  {
    ToNotified();
    ToFreed();
    ToClosed();
    ToRefused();
    ToLeft();
    hide Run, PinnedRun, FourCalls, ClosedRun, ForcedRun, BackRun;
    RunAppend(Start(), PinnedRun(), FourCalls() + (ClosedRun() + (ForcedRun() + BackRun())));
    RunAppend(Notified(), FourCalls(), ClosedRun() + (ForcedRun() + BackRun()));
    RunAppend(Freed(), ClosedRun(), ForcedRun() + BackRun());
    RunAppend(Closed(), ForcedRun(), BackRun());
  }

  /** A mark of a read in flight is refused; the read completes; munmap drops the mapping's
      reference, which is then the last. */
  function RefusedRun(): seq<Actor> { [IoThread(Refuse), IoThread(Complete), IoThread(Go)] }
  function FourUnmaps(): seq<Actor> { [Munmap, Munmap, Munmap, Munmap] }
  function OverRun(): seq<Actor> {
    ClaimedRun() + (RefusedRun() + (FourUnmaps() + FourUnmaps()))
  }

  function Overput(): Life { Start().(g := Start().g.(ref := 1), harm := Harm(false, false, false, 1)) }
  function Closing(): Life { Overput().(mun := MunRung(2)) }
  function Overdropped(): Life {
    Overput().(g := Group(Terminated, 0, Zero, false), mun := MunFinal, byMun := Dropped)
  }

  lemma ToOverput()
    ensures Run(Claimed(), RefusedRun()) == Overput()
  {
  }

  lemma ToClosing()
    ensures Run(Overput(), FourUnmaps()) == Closing()
  {
  }

  lemma ToOverdropped()
    ensures Run(Closing(), FourUnmaps()) == Overdropped()
  {
  }

  /** One refused mark is enough for munmap's check for a remaining reference to fail, without any
      of the three interleavings. */
  lemma OverputHappens()
    ensures var s := Run(Start(), OverRun());
            !s.harm.raced && !s.harm.late && !s.harm.revived && s.harm.over == 1 && s.mun == MunFinal && s.g.ref < 1
  {
    ToClaimed();
    ToOverput();
    ToClosing();
    ToOverdropped();
    hide Run, ClaimedRun, RefusedRun, FourUnmaps;
    RunAppend(Start(), ClaimedRun(), RefusedRun() + (FourUnmaps() + FourUnmaps()));
    RunAppend(Claimed(), RefusedRun(), FourUnmaps() + FourUnmaps());
    RunAppend(Overput(), FourUnmaps(), FourUnmaps());
  }
}
