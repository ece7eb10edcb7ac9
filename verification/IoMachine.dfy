/**
  The I/O state of one mapped buffer as a machine over any number of threads, with every
  compare-and-exchange and every unconditional store as its own step. Threads map the buffer,
  run I/O, tear the buffer down (munmap or the GPU free callback) and release it for good.

  Steps that depend on reference counts are left unguarded here, so every real interleaving
  is included.
*/
module IoMachine {

  datatype Io =
    | IoFree | IoInit | IoReady | InProgress
    | TerminateReq | Terminated | CallbackReq | CallbackEnd | UnpinInvoked

  /** The states above IN_PROGRESS. */
  predicate TornDown(io: Io) {
    io != IoFree && io != IoInit && io != IoReady && io != InProgress
  }

  /** The transitions requested through `nvfs_transit_state`. A thread whose `Claim` failed
      still attempts `Retreat`, the same transition as `Release`. */
  datatype Role = MapBegin | MapEnd | MapAbort | Claim | Release | Retreat {
    function From(): Io {
      match this
      case MapBegin => IoFree
      case MapEnd => IoInit
      case MapAbort => IoInit
      case Claim => IoReady
      case Release => InProgress
      case Retreat => InProgress
    }
    function To(): Io {
      match this
      case MapBegin => IoInit
      case MapEnd => IoReady
      case MapAbort => IoFree
      case Claim => InProgress
      case Release => IoReady
      case Retreat => IoReady
    }
  }

  /** Where a thread stands: inside `nvfs_transit_state` (the requested exchange, the exchange
      of a synchronous caller after a failure, the store of CALLBACK_END), holding the mapping
      or the I/O slot, on a rung of `nvfs_io_terminate_requested`, or about to store UNPIN. */
  datatype Pc =
    | Idle
    | Try(role: Role, sync: bool)
    | Fallback(role: Role, sync: bool)
    | Force(role: Role, sync: bool)
    | Mapping
    | Owning(sync: bool)
    | Ladder(callback: bool, rung: int)
    | Unpinning

  /** What a thread at rest does next. */
  datatype Choice = Map | StartIo(sync: bool) | Terminate(callback: bool) | Free | Finish | Abort | Leave

  /** What has happened to the buffer's mapping: it was finished, or a thread gave up on it without
      undoing it. */
  datatype Mapped = Mapped(finished: bool, abandoned: bool)

  /** The shared state, every thread's position, whether some thread other than the owner of the
      I/O slot has stored a state of its own while the slot was owned, and the mapping. */
  datatype State = State(io: Io, pcs: seq<Pc>, clashed: bool, mapping: Mapped)

  /** A thread owns the I/O slot from its successful claim to the end of its release. */
  predicate Owns(pc: Pc) {
    pc.Owning? || ((pc.Try? || pc.Fallback? || pc.Force?) && pc.role == Release)
  }

  ghost predicate Owned(s: State) {
    exists t :: 0 <= t < |s.pcs| && Owns(s.pcs[t])
  }

  /** The position after a requested exchange succeeds. */
  function AfterSuccess(role: Role, sync: bool): Pc {
    match role
    case MapBegin => Mapping
    case Claim => Owning(sync)
    case _ => Idle
  }

  /** The position after a failed transition has been dealt with. */
  function AfterFailure(role: Role, sync: bool): Pc {
    if role == Claim then Try(Retreat, sync) else Idle
  }

  function Cmpxchg(io: Io, from: Io, to: Io): Io {
    if io == from then to else io
  }

  /** One rung of the exchange ladder of `nvfs_io_terminate_requested`. */
  function Rung(io: Io, callback: bool, rung: int): Io {
    var end := if callback then CallbackEnd else Terminated;
    match rung
    case 0 => Cmpxchg(io, IoFree, Terminated)
    case 1 => Cmpxchg(io, IoInit, end)
    case 2 => Cmpxchg(io, IoReady, end)
    case 3 => Cmpxchg(io, InProgress, if callback then CallbackReq else TerminateReq)
    case 4 => if callback then Cmpxchg(io, TerminateReq, CallbackReq) else io
    case _ => io
  }

  /** A ladder returns at the first rung that takes effect, and after the last one. */
  function AfterRung(io: Io, callback: bool, rung: int): Pc {
    if Rung(io, callback, rung) != io || rung >= 4 then Idle else Ladder(callback, rung + 1)
  }

  /** The state and position after one step of a thread at `pc`. */
  function Move(io: Io, pc: Pc, ch: Choice): (Io, Pc) {
    match pc
    case Idle =>
      (match ch
       case Map => (io, Try(MapBegin, true))
       case StartIo(sync) => (io, Try(Claim, sync))
       case Terminate(callback) => (io, Ladder(callback, 0))
       case Free => (io, if io != IoFree && io != IoInit then Unpinning else Idle)
       case _ => (io, Idle))
    case Try(role, sync) =>
      if io == role.From() then (role.To(), AfterSuccess(role, sync)) else (io, Fallback(role, sync))
    case Fallback(role, sync) =>
      if sync && io == TerminateReq then (Terminated, AfterFailure(role, sync)) else (io, Force(role, sync))
    case Force(role, sync) => (CallbackEnd, AfterFailure(role, sync))
    case Mapping =>
      (match ch
       case Finish => (io, Try(MapEnd, true))
       case Abort => (io, Try(MapAbort, true))
       case Leave => (io, Idle)
       case _ => (io, Mapping))
    case Owning(sync) => if ch == Finish then (io, Try(Release, sync)) else (io, pc)
    case Ladder(callback, rung) => (Rung(io, callback, rung), AfterRung(io, callback, rung))
    case Unpinning => (UnpinInvoked, Idle)
  }

  /** Whether a step stores a state on behalf of a thread that does not own the I/O slot:
      a failed transition of someone else, or the final release. */
  predicate Meddles(io: Io, pc: Pc) {
    || (pc.Fallback? && pc.role != Release && pc.sync && io == TerminateReq)
    || (pc.Force? && pc.role != Release)
    || pc.Unpinning?
  }

  /** What a step does to the mapping: only the exchange from INIT to READY finishes it. */
  function MapAfter(mapping: Mapped, io: Io, pc: Pc, ch: Choice): Mapped {
    Mapped(mapping.finished || (pc.Try? && pc.role == MapEnd && io == IoInit),
           mapping.abandoned || (pc.Mapping? && ch == Leave))
  }

  /** Thread `t` takes one step. */
  ghost function Step(s: State, t: nat, ch: Choice): State {
    if t >= |s.pcs| then s
    else
      var (io, pc) := Move(s.io, s.pcs[t], ch);
      State(io, s.pcs[t := pc], s.clashed || (Owned(s) && Meddles(s.io, s.pcs[t])),
            MapAfter(s.mapping, s.io, s.pcs[t], ch))
  }

  ghost function Run(s: State, sched: seq<(nat, Choice)>): State {
    if |sched| == 0 then s
    else
      var s' := Run(s, sched[..|sched| - 1]);
      Step(s', sched[|sched| - 1].0, sched[|sched| - 1].1)
  }

  /** A freshly mmapped buffer with `n` threads at rest. */
  function Start(n: nat): State {
    State(IoFree, seq(n, _ => Idle), false, Mapped(false, false))
  }

  // ------------------------------------------------- invariant

  ghost predicate Inv(s: State) {
    // at most one owner
    && (forall t, u | 0 <= t < |s.pcs| && 0 <= u < |s.pcs| && Owns(s.pcs[t]) && Owns(s.pcs[u]) :: t == u)
    // no owner before the slot is claimed, one while it is
    && ((s.io == IoFree || s.io == IoInit || s.io == IoReady) ==> !Owned(s))
    && (s.io == InProgress ==> Owned(s))
    // a thread whose claim failed finds the buffer torn down
    && (forall t | 0 <= t < |s.pcs| && s.pcs[t].Try? && s.pcs[t].role == Retreat :: TornDown(s.io))
    // without meddling, an owner keeps teardown waiting
    && (Owned(s) && !s.clashed ==> s.io == InProgress || s.io == TerminateReq || s.io == CallbackReq)
  }

  /** A rung keeps a teardown, starts no I/O and ends none. */
  lemma RungFacts(io: Io, callback: bool, rung: int)
    ensures var io' := Rung(io, callback, rung);
            && (TornDown(io) ==> TornDown(io'))
            && (io == InProgress ==> io' == InProgress || TornDown(io'))
            && (io' == InProgress ==> io == InProgress)
  {
  }

  /** What one thread's step does to the shared state and to its own position. */
  lemma MoveFacts(io: Io, pc: Pc, ch: Choice)
    ensures var (io', pc') := Move(io, pc, ch);
            && (TornDown(io) ==> TornDown(io'))
            && (!Owns(pc) && Owns(pc') ==> io == IoReady && io' == InProgress)
            && (io == InProgress && !Owns(pc) && io' == IoReady ==> pc.Try? && pc.role == Retreat)
            && (Owns(pc) && !Owns(pc') ==> (io == InProgress && io' == IoReady) || TornDown(io'))
            && (Owns(pc) && Owns(pc') ==> io' == io)
            && (io != InProgress && io' == InProgress ==> !Owns(pc) && Owns(pc'))
            && (pc'.Try? && pc'.role == Retreat ==> TornDown(io'))
  {
    match pc
    case Ladder(callback, rung) =>
      RungFacts(io, callback, rung);
      hide Rung;
    case _ =>
  }

  /** Ownership after a step of thread `t` is the others' ownership before, plus its own. */
  lemma OwnedStep(s: State, t: nat, ch: Choice)
    requires t < |s.pcs| && Inv(s)
    ensures Owns(s.pcs[t]) ==> (Owned(Step(s, t, ch)) <==> Owns(Step(s, t, ch).pcs[t]))
    ensures !Owns(s.pcs[t]) ==> (Owned(Step(s, t, ch)) <==> Owned(s) || Owns(Step(s, t, ch).pcs[t]))
  {
    var s' := Step(s, t, ch);
    assert forall u | 0 <= u < |s.pcs| && u != t :: s'.pcs[u] == s.pcs[u];
    if u :| 0 <= u < |s.pcs| && u != t && Owns(s.pcs[u]) {
      assert Owns(s'.pcs[u]);
    }
  }

  lemma InvStep(s: State, t: nat, ch: Choice)
    requires Inv(s)
    ensures Inv(Step(s, t, ch))
  {
    if t < |s.pcs| {
      MoveFacts(s.io, s.pcs[t], ch);
      OwnedStep(s, t, ch);
    }
  }

  /** The invariant holds in every state reached from a fresh buffer, whatever the schedule. */
  lemma {:induction false} Reachable(n: nat, sched: seq<(nat, Choice)>)
    ensures Inv(Run(Start(n), sched))
  {
    if |sched| > 0 {
      Reachable(n, sched[..|sched| - 1]);
      InvStep(Run(Start(n), sched[..|sched| - 1]), sched[|sched| - 1].0, sched[|sched| - 1].1);
    }
  }

  // ------------------------------------------------- theorems

  /** Mutual exclusion, over every run of any number of threads: no two threads own the I/O
      slot, it has an owner while the state is IN_PROGRESS, and none in FREE, INIT and READY. */
  lemma MutualExclusion(n: nat, sched: seq<(nat, Choice)>, t: nat, u: nat)
    requires t < n && u < n
    ensures var s := Run(Start(n), sched);
            && |s.pcs| == n
            && (Owns(s.pcs[t]) && Owns(s.pcs[u]) ==> t == u)
            && (Owns(s.pcs[t]) ==> s.io != IoFree && s.io != IoInit && s.io != IoReady)
            && (s.io == InProgress ==> Owned(s))
  {
    Reachable(n, sched);
    RunKeepsThreads(Start(n), sched);
  }

  lemma {:induction false} RunKeepsThreads(s: State, sched: seq<(nat, Choice)>)
    ensures |Run(s, sched).pcs| == |s.pcs|
  {
    if |sched| > 0 { RunKeepsThreads(s, sched[..|sched| - 1]); }
  }

  /** The IN_PROGRESS to READY attempt of a thread whose claim failed never succeeds. */
  lemma RetreatNeverSucceeds(n: nat, sched: seq<(nat, Choice)>, t: nat, ch: Choice)
    ensures var s := Run(Start(n), sched);
            t < |s.pcs| && s.pcs[t].Try? && s.pcs[t].role == Retreat ==>
              Step(s, t, ch).io == s.io && Step(s, t, ch).pcs[t] == Fallback(Retreat, s.pcs[t].sync)
  {
    Reachable(n, sched);
  }

  /** Teardown is closed: from a torn-down state, reachable or not, no run leads back to FREE,
      INIT, READY or IN_PROGRESS, and no thread that did not own the I/O slot ever gets it. */
  lemma {:induction false} TeardownClosed(s: State, sched: seq<(nat, Choice)>, t: nat)
    requires TornDown(s.io) && t < |s.pcs|
    ensures var s' := Run(s, sched);
            TornDown(s'.io) && |s'.pcs| == |s.pcs| && (Owns(s'.pcs[t]) ==> Owns(s.pcs[t]))
  {
    if |sched| > 0 {
      var s' := Run(s, sched[..|sched| - 1]);
      var (u, ch) := sched[|sched| - 1];
      TeardownClosed(s, sched[..|sched| - 1], t);
      if u < |s'.pcs| { MoveFacts(s'.io, s'.pcs[u], ch); }
    }
  }

  // ------------------------------------------------- mapping

  /** A thread is mapping the buffer: from its successful exchange to INIT to the end of the next. */
  predicate Maps(pc: Pc) {
    pc.Mapping? || (pc.Try? && (pc.role == MapEnd || pc.role == MapAbort))
  }

  ghost predicate BeingMapped(pcs: seq<Pc>) {
    exists t :: 0 <= t < |pcs| && Maps(pcs[t])
  }

  ghost predicate OneMapper(pcs: seq<Pc>) {
    forall t, u | 0 <= t < |pcs| && 0 <= u < |pcs| && Maps(pcs[t]) && Maps(pcs[u]) :: t == u
  }

  /** What the state is as long as there is no teardown. */
  ghost function Untorn(s: State): Io {
    if s.mapping.finished then (if Owned(s) then InProgress else IoReady)
    else if BeingMapped(s.pcs) || s.mapping.abandoned then IoInit
    else IoFree
  }

  ghost predicate MapInv(s: State) {
    && OneMapper(s.pcs)
    && (BeingMapped(s.pcs) ==> !s.mapping.finished && !s.mapping.abandoned)
    && (s.mapping.abandoned ==> !s.mapping.finished)
    && (Owned(s) ==> s.mapping.finished)
    && (!TornDown(s.io) ==> s.io == Untorn(s))
  }

  /** What one thread's step does to the mapping: it begins it from FREE, goes on with it, or ends it
      in READY, in FREE or, giving up, in INIT; a thread that does not map leaves it alone. */
  predicate KeepsMap(io: Io, pc: Pc, mapping: Mapped, io': Io, pc': Pc, mapping': Mapped) {
    && (!Maps(pc) ==> mapping' == mapping)
    && (!Maps(pc) && Maps(pc') ==> io == IoFree && io' == IoInit)
    && (!Maps(pc) && !Maps(pc') && !TornDown(io') && io' != io ==>
          || (io == IoReady && io' == InProgress && !Owns(pc) && Owns(pc'))
          || (io == InProgress && io' == IoReady && (Owns(pc) || (pc.Try? && pc.role == Retreat))))
    && (Maps(pc) ==> !Owns(pc) && !Owns(pc'))
    && (Maps(pc) && Maps(pc') ==> io' == io && mapping' == mapping)
    && (Maps(pc) && !Maps(pc') && !TornDown(io') && io == IoInit ==>
          || (io' == IoReady && mapping' == mapping.(finished := true))
          || (io' == IoFree && mapping' == mapping)
          || (io' == IoInit && mapping' == mapping.(abandoned := true)))
    && (mapping'.finished && !mapping.finished ==> io == IoInit && io' == IoReady)
    && (mapping'.abandoned && !mapping.abandoned ==> io' == io)
  }

  lemma MapFacts(io: Io, pc: Pc, ch: Choice, mapping: Mapped)
    ensures var (io', pc') := Move(io, pc, ch); KeepsMap(io, pc, mapping, io', pc', MapAfter(mapping, io, pc, ch))
  {
    hide Move, KeepsMap, MapAfter;
    match pc
    case Idle => IdleMaps(io, pc, ch, mapping);
    case Mapping => MappingMaps(io, pc, ch, mapping);
    case Try(_, _) => TryMaps(io, pc, ch, mapping);
    case Ladder(_, _) => LadderMaps(io, pc, ch, mapping);
    case _ => OtherMaps(io, pc, ch, mapping);
  }

  lemma IdleMaps(io: Io, pc: Pc, ch: Choice, mapping: Mapped)
    requires pc.Idle?
    ensures var (io', pc') := Move(io, pc, ch); KeepsMap(io, pc, mapping, io', pc', MapAfter(mapping, io, pc, ch))
  {
  }

  lemma MappingMaps(io: Io, pc: Pc, ch: Choice, mapping: Mapped)
    requires pc.Mapping?
    ensures var (io', pc') := Move(io, pc, ch); KeepsMap(io, pc, mapping, io', pc', MapAfter(mapping, io, pc, ch))
  {
  }

  lemma TryMaps(io: Io, pc: Pc, ch: Choice, mapping: Mapped)
    requires pc.Try?
    ensures var (io', pc') := Move(io, pc, ch); KeepsMap(io, pc, mapping, io', pc', MapAfter(mapping, io, pc, ch))
  {
  }

  lemma LadderMaps(io: Io, pc: Pc, ch: Choice, mapping: Mapped)
    requires pc.Ladder?
    ensures var (io', pc') := Move(io, pc, ch); KeepsMap(io, pc, mapping, io', pc', MapAfter(mapping, io, pc, ch))
  {
    RungFacts(io, pc.callback, pc.rung);
    hide Rung;
  }

  lemma OtherMaps(io: Io, pc: Pc, ch: Choice, mapping: Mapped)
    requires pc.Fallback? || pc.Force? || pc.Owning? || pc.Unpinning?
    ensures var (io', pc') := Move(io, pc, ch); KeepsMap(io, pc, mapping, io', pc', MapAfter(mapping, io, pc, ch))
  {
  }

  /** Whether the buffer is being mapped once thread `t` has moved. */
  lemma BeingMappedAfter(pcs: seq<Pc>, t: nat, pc: Pc)
    requires t < |pcs| && OneMapper(pcs)
    ensures Maps(pcs[t]) ==> (BeingMapped(pcs[t := pc]) <==> Maps(pc))
    ensures !Maps(pcs[t]) ==> (BeingMapped(pcs[t := pc]) <==> BeingMapped(pcs) || Maps(pc))
    ensures Maps(pcs[t]) || !Maps(pc) || !BeingMapped(pcs) ==> OneMapper(pcs[t := pc])
  {
    var pcs' := pcs[t := pc];
    assert pcs'[t] == pc;
    if u :| 0 <= u < |pcs| && u != t && Maps(pcs[u]) {
      assert Maps(pcs'[u]);
    }
  }

  lemma MapStep(s: State, t: nat, ch: Choice)
    requires Inv(s) && MapInv(s)
    ensures MapInv(Step(s, t, ch))
  {
    if t < |s.pcs| {
      var s' := Step(s, t, ch);
      MoveFacts(s.io, s.pcs[t], ch);
      MapFacts(s.io, s.pcs[t], ch, s.mapping);
      OwnedStep(s, t, ch);
      InvStep(s, t, ch);
      BeingMappedAfter(s.pcs, t, s'.pcs[t]);
      assert Owns(s.pcs[t]) ==> Owned(s);
      assert Maps(s.pcs[t]) ==> BeingMapped(s.pcs);
      assert s.pcs[t].Try? && s.pcs[t].role == Retreat ==> TornDown(s.io);
      hide Owned, BeingMapped, OneMapper, Move, Inv, Owns, Maps;
    }
  }

  lemma {:induction false} MapReachable(n: nat, sched: seq<(nat, Choice)>)
    ensures MapInv(Run(Start(n), sched))
  {
    if |sched| > 0 {
      var m := |sched| - 1;
      MapReachable(n, sched[..m]);
      Reachable(n, sched[..m]);
      hide MapInv, Inv, Step;
      MapStep(Run(Start(n), sched[..m]), sched[m].0, sched[m].1);
    }
  }

  /** Over every run, and as long as there is no teardown, the state is known: READY or IN_PROGRESS
      once a mapping was finished, according to whether an I/O is in flight; INIT while a thread is
      mapping the buffer, and for good once one gave up on it; and otherwise FREE, also after a
      mapping that was undone. At most one thread maps the buffer, and no I/O is ever in flight on
      a buffer whose mapping was not finished. */
  lemma StateExactly(n: nat, sched: seq<(nat, Choice)>)
    ensures var s := Run(Start(n), sched);
            && (!TornDown(s.io) ==> s.io == Untorn(s))
            && OneMapper(s.pcs) && (BeingMapped(s.pcs) ==> !s.mapping.finished)
            && (Owned(s) ==> s.mapping.finished)
  {
    MapReachable(n, sched);
  }

  // ------------------------------------------------- one call by itself

  /** `n` steps of a thread that no other thread interrupts. */
  function Steps(io: Io, pc: Pc, n: nat): (Io, Pc)
    decreases n
  {
    if n == 0 then (io, pc)
    else
      var (io', pc') := Move(io, pc, Leave);
      Steps(io', pc', n - 1)
  }

  /** A call made in state `io`, and `n` steps more. */
  function Call(io: Io, pc: Pc, ch: Choice, n: nat): (Io, Pc) {
    var (io', pc') := Move(io, pc, ch);
    Steps(io', pc', n)
  }

  /** One step, and the rest. */
  lemma StepsFirst(io: Io, pc: Pc, n: nat, io': Io, pc': Pc)
    requires n > 0 && Move(io, pc, Leave) == (io', pc')
    ensures Steps(io, pc, n) == Steps(io', pc', n - 1)
  {
  }

  lemma StepsNone(io: Io, pc: Pc)
    ensures Steps(io, pc, 0) == (io, pc)
  {
  }

  lemma {:induction false} StepsIdle(io: Io, n: nat)
    ensures Steps(io, Idle, n) == (io, Idle)
  {
    if n > 0 { StepsIdle(io, n - 1); }
  }

  lemma Succeeds(role: Role, sync: bool)
    ensures Steps(role.From(), Try(role, sync), 1) == (role.To(), AfterSuccess(role, sync))
  {
    StepsFirst(role.From(), Try(role, sync), 1, role.To(), AfterSuccess(role, sync));
  }

  /** What a failed transition leaves: a synchronous caller ends a termination that munmap asked for,
      and everything else is left to the callback. */
  function Failed(io: Io, sync: bool): Io {
    if sync && io == TerminateReq then Terminated else CallbackEnd
  }

  lemma Fails(io: Io, role: Role, sync: bool, n: nat)
    requires io != role.From() && n >= 3
    ensures role != Claim ==> Steps(io, Try(role, sync), n) == (Failed(io, sync), Idle)
    ensures role == Claim && !(sync && io == TerminateReq) ==>
              Steps(io, Try(role, sync), n) == Steps(CallbackEnd, Try(Retreat, sync), n - 3)
    ensures role == Claim && sync && io == TerminateReq ==>
              Steps(io, Try(role, sync), n) == Steps(Terminated, Try(Retreat, sync), n - 2)
  {
    var next := AfterFailure(role, sync);
    StepsFirst(io, Try(role, sync), n, io, Fallback(role, sync));
    if sync && io == TerminateReq {
      StepsFirst(io, Fallback(role, sync), n - 1, Terminated, next);
      if role != Claim { StepsIdle(Terminated, n - 2); }
    } else {
      StepsFirst(io, Fallback(role, sync), n - 1, io, Force(role, sync));
      StepsFirst(io, Force(role, sync), n - 2, CallbackEnd, next);
      if role != Claim { StepsIdle(CallbackEnd, n - 3); }
    }
  }

  /** Teardown by itself: a free buffer is TERMINATED, one without I/O is TERMINATED or, for the
      callback, CALLBACK_END, an I/O in flight is asked to end, the callback takes over from
      munmap, and a later state stays. */
  lemma TeardownAlone(io: Io, callback: bool)
    ensures Call(io, Idle, Terminate(callback), 5) ==
            ((match io
              case IoFree => Terminated
              case IoInit => if callback then CallbackEnd else Terminated
              case IoReady => if callback then CallbackEnd else Terminated
              case InProgress => if callback then CallbackReq else TerminateReq
              case TerminateReq => if callback then CallbackReq else TerminateReq
              case _ => io), Idle)
  {
    RungAlone(io, callback, 4);
    RungAlone(io, callback, 3);
    RungAlone(io, callback, 2);
    RungAlone(io, callback, 1);
    RungAlone(io, callback, 0);
    hide Steps;
  }

  lemma RungAlone(io: Io, callback: bool, rung: int)
    requires 0 <= rung <= 4
    ensures Steps(io, Ladder(callback, rung), 5 - rung) ==
            if Rung(io, callback, rung) != io || rung == 4 then (Rung(io, callback, rung), Idle)
            else Steps(io, Ladder(callback, rung + 1), 4 - rung)
  {
    StepsFirst(io, Ladder(callback, rung), 5 - rung, Rung(io, callback, rung), AfterRung(io, callback, rung));
    StepsIdle(Rung(io, callback, rung), 4 - rung);
    hide Steps, Rung;
  }

  /** A mapping by itself begins only on a free buffer; then it is finished, undone or given up. */
  lemma MapAlone(io: Io)
    ensures io == IoFree ==> Call(io, Idle, Map, 1) == (IoInit, Mapping)
    ensures io != IoFree ==> Call(io, Idle, Map, 3) == (Failed(io, true), Idle)
    ensures Call(IoInit, Mapping, Finish, 1) == (IoReady, Idle) && Call(IoInit, Mapping, Abort, 1) == (IoFree, Idle)
    ensures io != IoInit ==>
              && Call(io, Mapping, Finish, 3) == (Failed(io, true), Idle)
              && Call(io, Mapping, Abort, 3) == (Failed(io, true), Idle)
    ensures Call(io, Mapping, Leave, 0) == (io, Idle)
  {
    hide Steps;
    Succeeds(MapBegin, true);
    Succeeds(MapEnd, true);
    Succeeds(MapAbort, true);
    StepsNone(io, Idle);
    if io != IoFree { Fails(io, MapBegin, true, 3); }
    if io != IoInit {
      Fails(io, MapEnd, true, 3);
      Fails(io, MapAbort, true, 3);
    }
  }

  /** An I/O by itself: claimed on a READY buffer only, and released when it is finished. A failed
      claim ends in CALLBACK_END, whatever the state was, and a release on a buffer under teardown
      as every failed transition does. */
  lemma IoAlone(io: Io, sync: bool)
    ensures io == IoReady ==> Call(io, Idle, StartIo(sync), 1) == (InProgress, Owning(sync))
    ensures io != IoReady ==> Call(io, Idle, StartIo(sync), 6) == (CallbackEnd, Idle)
    ensures Call(InProgress, Owning(sync), Finish, 1) == (IoReady, Idle)
    ensures io != InProgress ==> Call(io, Owning(sync), Finish, 3) == (Failed(io, sync), Idle)
    ensures Call(io, Owning(sync), Leave, 0) == (io, Owning(sync))
  {
    hide Steps;
    Succeeds(Claim, sync);
    Succeeds(Release, sync);
    StepsNone(io, Owning(sync));
    if io != IoReady {
      Fails(io, Claim, sync, 6);
      Fails(CallbackEnd, Retreat, sync, 3);
      Fails(Terminated, Retreat, sync, 4);
    }
    if io != InProgress { Fails(io, Release, sync, 3); }
  }

  /** The final release by itself stores UNPIN, except on a buffer that was never mapped. */
  lemma FreeAlone(io: Io)
    ensures Call(io, Idle, Free, 1) == (if io == IoFree || io == IoInit then io else UnpinInvoked, Idle)
  {
  }

  /** No thread releases the buffer. */
  predicate NoFree(sched: seq<(nat, Choice)>) {
    forall k | 0 <= k < |sched| :: sched[k].1 != Free
  }

  /** UNPIN is stored by a release only. */
  lemma {:induction false} UnpinOnlyByFree(n: nat, sched: seq<(nat, Choice)>)
    requires NoFree(sched)
    ensures var s := Run(Start(n), sched);
            s.io != UnpinInvoked && forall t | 0 <= t < |s.pcs| :: s.pcs[t] != Unpinning
  {
    if |sched| > 0 {
      var m := |sched| - 1;
      UnpinOnlyByFree(n, sched[..m]);
      var s, t := Run(Start(n), sched[..m]), sched[m].0;
      if t < |s.pcs| { MoveNoUnpin(s.io, s.pcs[t], sched[m].1); }
      hide Move;
    }
  }

  lemma MoveNoUnpin(io: Io, pc: Pc, ch: Choice)
    requires ch != Free && pc != Unpinning && io != UnpinInvoked
    ensures Move(io, pc, ch).0 != UnpinInvoked && Move(io, pc, ch).1 != Unpinning
  {
  }

  /** Teardown has finished although an I/O is in flight. */
  ghost predicate CutOff(s: State) {
    Owned(s) && (s.io == Terminated || s.io == CallbackEnd || s.io == UnpinInvoked)
  }

  /** The first store by a thread that does not own the slot cuts the owner off, and nothing else
      does. */
  lemma ClashStep(s: State, t: nat, ch: Choice)
    requires Inv(s)
    ensures var s' := Step(s, t, ch);
            && (s.clashed ==> s'.clashed) && (!s.clashed && s'.clashed ==> CutOff(s')) && (CutOff(s') ==> s'.clashed)
  {
    InvStep(s, t, ch);
    if t < |s.pcs| { OwnedStep(s, t, ch); }
  }

  /** A finished teardown means that no I/O is in flight, throughout a run, exactly as long as no
      thread stores a state of its own while another owns the I/O slot. */
  lemma {:induction false} NoIoAfterTeardown(n: nat, sched: seq<(nat, Choice)>)
    ensures (exists k :: 0 <= k <= |sched| && CutOff(Run(Start(n), sched[..k]))) <==> Run(Start(n), sched).clashed
  {
    assert sched[..|sched|] == sched;
    if |sched| == 0 {
      Reachable(n, sched);
    } else {
      hide Step, Inv, CutOff;
      var m := |sched| - 1;
      NoIoAfterTeardown(n, sched[..m]);
      Reachable(n, sched[..m]);
      ClashStep(Run(Start(n), sched[..m]), sched[m].0, sched[m].1);
      assert forall k | 0 <= k <= m :: sched[..m][..k] == sched[..k];
      if k :| 0 <= k <= m && CutOff(Run(Start(n), sched[..m][..k])) {
        assert CutOff(Run(Start(n), sched[..k]));
      } else if Run(Start(n), sched).clashed {
        assert CutOff(Run(Start(n), sched[..|sched|]));
      }
    }
  }

  lemma RunSnoc(s: State, sched: seq<(nat, Choice)>, a: (nat, Choice))
    ensures Run(s, sched + [a]) == Step(Run(s, sched), a.0, a.1)
  {
    assert (sched + [a])[..|sched|] == sched;
  }

  /** Four steps of a run, one by one. */
  lemma FourSteps(s: State, a: (nat, Choice), b: (nat, Choice), c: (nat, Choice), d: (nat, Choice))
    ensures Run(s, [a, b, c, d]) == Step(Step(Step(Step(s, a.0, a.1), b.0, b.1), c.0, c.1), d.0, d.1)
  {
    RunSnoc(s, [], a);
    assert Run(s, []) == s;
    hide Step, Run;
    RunSnoc(s, [a], b);
    RunSnoc(s, [a, b], c);
    RunSnoc(s, [a, b, c], d);
    assert [a, b, c] + [d] == [a, b, c, d] && [a, b] + [c] == [a, b, c] && [a] + [b] == [a, b] && [] + [a] == [a];
  }

  /** The condition is needed: whenever an I/O is in flight, a second I/O call on the same buffer
      runs into CALLBACK_END within four steps of its own, with the first still in flight. */
  lemma SecondClaimEndsFirst(s: State, t: nat, u: nat, sync: bool, ch: Choice)
    requires s.io == InProgress && t < |s.pcs| && u < |s.pcs| && Owns(s.pcs[t]) && s.pcs[u] == Idle
    ensures var s' := Run(s, [(u, StartIo(sync)), (u, ch), (u, ch), (u, ch)]);
            s'.io == CallbackEnd && |s'.pcs| == |s.pcs| && s'.pcs[t] == s.pcs[t] && s'.clashed
  {
    FourSteps(s, (u, StartIo(sync)), (u, ch), (u, ch), (u, ch));
    hide Run;
    var s1 := Step(s, u, StartIo(sync));
    assert s1.io == InProgress && s1.pcs == s.pcs[u := Try(Claim, sync)];
    var s2 := Step(s1, u, ch);
    assert s2.io == InProgress && s2.pcs == s.pcs[u := Fallback(Claim, sync)];
    var s3 := Step(s2, u, ch);
    assert s3.io == InProgress && s3.pcs == s.pcs[u := Force(Claim, sync)];
    assert Owns(s3.pcs[t]);
  }
}
