/**
  The per-buffer cache of DMA mappings, one entry per peer device, filled on demand by any number
  of I/O threads. Each lookup, exchange, insertion and store is a step of its own. A thread first
  looks without the lock, and looks again once it holds the lock.
*/
module MapCache {
  import opened Units

  /** What the cache keeps for a PCI id: the mapping and its number of chunks. */
  datatype Entry = Entry(id: int, mapping: int, chunks: nat)

  /** Where a thread stands in `nvfs_get_p2p_dma_mapping` for the device it was asked for. */
  datatype Pc =
    | Out
    | Looking(id: int)
    | Locking(id: int)
    | Waiting(id: int)
    | Allocating(id: int)
    | Rechecking(id: int)
    | Mapping(id: int)
    | Inserting(id: int, entry: Entry)
    | Leaving(id: int, result: Option<Entry>)

  /** What the caller or the code below decides: the id asked for, or whether an allocation or a
      mapping succeeds and with what. */
  datatype Choice = Ask(id: int) | Fail | Succeed(mapping: int, chunks: nat)

  /** An answer to a caller: the id it asked for, and what it got. */
  datatype Reply = Reply(id: int, result: Option<Entry>)

  /** The hash table, the in-progress flag, every thread's position, every id asked for so far and
      every reply so far. */
  datatype Cache = Cache(table: seq<Entry>, busy: bool, pcs: seq<Pc>, asked: multiset<int>, replies: seq<Reply>)

  /** The first entry with the id. */
  function Find(table: seq<Entry>, id: int): Option<Entry> {
    if |table| == 0 then None
    else if table[0].id == id then Some(table[0])
    else Find(table[1..], id)
  }

  /** Thread `t` moves to `pc`. */
  function Go(s: Cache, t: nat, pc: Pc): Cache
    requires t < |s.pcs|
  {
    s.(pcs := s.pcs[t := pc])
  }

  /** Thread `t`, asked for `id`, returns with `r`. */
  function Return(s: Cache, t: nat, id: int, r: Option<Entry>): Cache
    requires t < |s.pcs|
  {
    Go(s, t, Out).(replies := s.replies + [Reply(id, r)])
  }

  /** Thread `t` takes one step. */
  function Step(s: Cache, t: nat, ch: Choice): Cache {
    if t >= |s.pcs| then s
    else
      match s.pcs[t]
      case Out => if ch.Ask? then Go(s, t, Looking(ch.id)).(asked := s.asked + multiset{ch.id}) else s
      case Looking(id) =>
        var found := Find(s.table, id);
        if found.Some? then Return(s, t, id, found) else Go(s, t, Locking(id))
      case Locking(id) => Go(s, t, if s.busy then Waiting(id) else Allocating(id)).(busy := true)
      case Waiting(id) => if s.busy then s else Go(s, t, Looking(id))
      case Allocating(id) => Go(s, t, if ch.Fail? then Leaving(id, None) else Rechecking(id))
      case Rechecking(id) =>
        var found := Find(s.table, id);
        Go(s, t, if found.Some? then Leaving(id, found) else Mapping(id))
      case Mapping(id) =>
        (match ch
         case Ask(_) => s
         case Fail => Go(s, t, Leaving(id, None))
         case Succeed(mapping, chunks) => Go(s, t, Inserting(id, Entry(id, mapping, chunks))))
      case Inserting(id, e) => Go(s, t, Leaving(id, Some(e))).(table := [e] + s.table)
      case Leaving(id, r) => Return(s, t, id, r).(busy := false)
  }

  function Run(s: Cache, sched: seq<(nat, Choice)>): Cache
    decreases |sched|
  {
    if |sched| == 0 then s else Run(Step(s, sched[0].0, sched[0].1), sched[1..])
  }

  /** An empty cache with `n` threads outside. */
  function Start(n: nat): Cache {
    Cache([], false, seq(n, _ => Out), multiset{}, [])
  }

  // ------------------------------------------------- invariant

  /** Between taking the in-progress flag and clearing it. */
  predicate Inside(pc: Pc) {
    pc.Allocating? || pc.Rechecking? || pc.Mapping? || pc.Inserting? || pc.Leaving?
  }

  ghost predicate Occupied(pcs: seq<Pc>) {
    exists t :: 0 <= t < |pcs| && Inside(pcs[t])
  }

  predicate Unique(table: seq<Entry>) {
    forall i, j | 0 <= i < j < |table| :: table[i].id != table[j].id
  }

  /** An entry for the id asked for, and the one in the table. */
  predicate Serves(table: seq<Entry>, id: int, r: Option<Entry>) {
    r.Some? ==> r.value.id == id && Find(table, id) == r
  }

  /** What a thread inside knows: past its second look the id is absent, and an entry on its way
      out is the one in the table. */
  predicate Knows(table: seq<Entry>, pc: Pc) {
    match pc
    case Mapping(id) => Find(table, id).None?
    case Inserting(id, e) => e.id == id && Find(table, id).None?
    case Leaving(id, r) => Serves(table, id, r)
    case _ => true
  }

  /** At most one thread is inside. */
  ghost predicate Alone(pcs: seq<Pc>) {
    forall t, u | 0 <= t < |pcs| && 0 <= u < |pcs| && Inside(pcs[t]) && Inside(pcs[u]) :: t == u
  }

  ghost predicate Inv(s: Cache) {
    && (s.busy <==> Occupied(s.pcs)) && Alone(s.pcs)
    && (forall t | 0 <= t < |s.pcs| :: Knows(s.table, s.pcs[t]))
    && Unique(s.table)
    && (forall k | 0 <= k < |s.replies| :: Serves(s.table, s.replies[k].id, s.replies[k].result))
  }

  lemma {:induction false} FindAbsent(table: seq<Entry>, id: int)
    ensures Find(table, id).None? <==> forall i | 0 <= i < |table| :: table[i].id != id
    ensures Find(table, id).Some? ==> Find(table, id).value in table && Find(table, id).value.id == id
  {
    if |table| > 0 { FindAbsent(table[1..], id); }
  }

  /** Inserting an absent id changes no other lookup. */
  lemma InsertFind(table: seq<Entry>, e: Entry, id: int)
    ensures Find([e] + table, id) == if id == e.id then Some(e) else Find(table, id)
  {
    assert ([e] + table)[1..] == table;
  }

  /** Whether threads are inside after one of them has moved. */
  lemma OccupiedAfter(pcs: seq<Pc>, t: nat, pc: Pc)
    requires t < |pcs| && Alone(pcs)
    ensures Inside(pc) ==> Occupied(pcs[t := pc])
    ensures !Inside(pc) && Inside(pcs[t]) ==> !Occupied(pcs[t := pc])
    ensures !Inside(pc) && !Inside(pcs[t]) ==> (Occupied(pcs[t := pc]) <==> Occupied(pcs))
    ensures Inside(pcs[t]) || !Inside(pc) || !Occupied(pcs) ==> Alone(pcs[t := pc])
  {
    var pcs' := pcs[t := pc];
    assert pcs'[t] == pc;
    if u :| 0 <= u < |pcs| && u != t && Inside(pcs[u]) {
      assert Inside(pcs'[u]);
    }
  }

  lemma InvStep(s: Cache, t: nat, ch: Choice)
    requires Inv(s)
    ensures Inv(Step(s, t, ch))
  {
    if t < |s.pcs| {
      OccupiedAfter(s.pcs, t, Step(s, t, ch).pcs[t]);
      hide Occupied, Alone;
      match s.pcs[t]
      case Inserting(_, _) => InsertInv(s, t, ch);
      case Looking(id) => LookInv(s, t, ch);
      case Rechecking(id) => LookInv(s, t, ch);
      case Leaving(_, _) => LeaveInv(s, t, ch);
      case _ => MoveInv(s, t, ch);
    }
  }

  lemma MoveInv(s: Cache, t: nat, ch: Choice)
    requires Inv(s) && t < |s.pcs|
    requires s.pcs[t].Out? || s.pcs[t].Locking? || s.pcs[t].Waiting? || s.pcs[t].Allocating? || s.pcs[t].Mapping?
    ensures Inv(Step(s, t, ch))
  {
    OccupiedAfter(s.pcs, t, Step(s, t, ch).pcs[t]);
    assert Inside(s.pcs[t]) ==> s.busy;
    assert Knows(s.table, s.pcs[t]);
    hide Occupied, Alone, Unique, Find;
  }

  lemma LookInv(s: Cache, t: nat, ch: Choice)
    requires Inv(s) && t < |s.pcs| && (s.pcs[t].Looking? || s.pcs[t].Rechecking?)
    ensures Inv(Step(s, t, ch))
  {
    FindAbsent(s.table, s.pcs[t].id);
    OccupiedAfter(s.pcs, t, Step(s, t, ch).pcs[t]);
    assert Inside(s.pcs[t]) ==> s.busy;
    hide Occupied, Alone, Unique, Find;
  }

  lemma LeaveInv(s: Cache, t: nat, ch: Choice)
    requires Inv(s) && t < |s.pcs| && s.pcs[t].Leaving?
    ensures Inv(Step(s, t, ch))
  {
    assert Knows(s.table, s.pcs[t]);
    OccupiedAfter(s.pcs, t, Out);
    hide Occupied, Alone, Unique, Find;
  }

  lemma InsertInv(s: Cache, t: nat, ch: Choice)
    requires Inv(s) && t < |s.pcs| && s.pcs[t].Inserting?
    ensures Inv(Step(s, t, ch))
  {
    var e := s.pcs[t].entry;
    var s' := Step(s, t, ch);
    FindAbsent(s.table, e.id);
    assert Knows(s.table, s.pcs[t]) && s.busy;
    OccupiedAfter(s.pcs, t, s'.pcs[t]);
    forall k | 0 <= k < |s.replies|
      ensures Serves(s'.table, s.replies[k].id, s.replies[k].result)
    {
      InsertFind(s.table, e, s.replies[k].id);
    }
    forall u | 0 <= u < |s.pcs|
      ensures Knows(s'.table, s'.pcs[u])
    {
      if u == t { InsertFind(s.table, e, e.id); }
    }
    hide Occupied, Alone, Find;
  }

  lemma {:induction false} RunInv(s: Cache, sched: seq<(nat, Choice)>)
    requires Inv(s)
    ensures Inv(Run(s, sched))
    decreases |sched|
  {
    hide Inv, Step;
    if |sched| > 0 {
      InvStep(s, sched[0].0, sched[0].1);
      RunInv(Step(s, sched[0].0, sched[0].1), sched[1..]);
    }
  }

  // ------------------------------------------------- every call is answered once

  /** How many replies were for the id, and how many threads are asked for it. */
  function Told(rs: seq<Reply>, id: int): nat {
    if |rs| == 0 then 0 else Told(rs[..|rs| - 1], id) + (if rs[|rs| - 1].id == id then 1 else 0)
  }

  function Owed(pcs: seq<Pc>, id: int): nat {
    if |pcs| == 0 then 0 else Owed(pcs[..|pcs| - 1], id) + Wants(pcs[|pcs| - 1], id)
  }

  function Wants(pc: Pc, id: int): nat {
    if !pc.Out? && pc.id == id then 1 else 0
  }

  lemma {:induction false} OwedAfter(pcs: seq<Pc>, t: nat, pc: Pc, id: int)
    requires t < |pcs|
    ensures Owed(pcs[t := pc], id) == Owed(pcs, id) - Wants(pcs[t], id) + Wants(pc, id)
  {
    var n := |pcs| - 1;
    hide Wants;
    if t < n {
      assert pcs[t := pc][..n] == pcs[..n][t := pc];
      OwedAfter(pcs[..n], t, pc, id);
    } else {
      assert pcs[t := pc][..n] == pcs[..n];
    }
  }

  lemma {:induction false} NoneOwed(pcs: seq<Pc>, id: int)
    requires forall t | 0 <= t < |pcs| :: pcs[t] == Out
    ensures Owed(pcs, id) == 0
  {
    if |pcs| > 0 { NoneOwed(pcs[..|pcs| - 1], id); }
  }

  predicate Answered(s: Cache, id: int) {
    s.asked[id] == Told(s.replies, id) + Owed(s.pcs, id)
  }

  /** A step is a new call, a reply for the id asked for, or a move that keeps that id. */
  ghost predicate Moves(s: Cache, t: nat, s': Cache) {
    && t < |s.pcs| == |s'.pcs| && s'.pcs == s.pcs[t := s'.pcs[t]]
    && (if s.pcs[t].Out? then
          && s'.replies == s.replies
          && (if s'.pcs[t].Out? then s'.asked == s.asked else s'.asked == s.asked + multiset{s'.pcs[t].id})
        else
          && s'.asked == s.asked
          && (if s'.pcs[t].Out? then |s'.replies| == |s.replies| + 1 && s'.replies[..|s.replies|] == s.replies
                && s'.replies[|s.replies|].id == s.pcs[t].id
              else s'.replies == s.replies && s'.pcs[t].id == s.pcs[t].id))
  }

  lemma StepMoves(s: Cache, t: nat, ch: Choice)
    requires t < |s.pcs|
    ensures Moves(s, t, Step(s, t, ch))
  {
    hide Find;
  }

  lemma AnsweredStep(s: Cache, t: nat, ch: Choice, id: int)
    requires Answered(s, id)
    ensures Answered(Step(s, t, ch), id)
  {
    if t < |s.pcs| {
      StepMoves(s, t, ch);
      hide Step, Owed;
      OwedAfter(s.pcs, t, Step(s, t, ch).pcs[t], id);
    }
  }

  lemma {:induction false} RunAnswered(s: Cache, sched: seq<(nat, Choice)>, id: int)
    requires Answered(s, id)
    ensures Answered(Run(s, sched), id)
    decreases |sched|
  {
    hide Answered, Step;
    if |sched| > 0 {
      AnsweredStep(s, sched[0].0, sched[0].1, id);
      RunAnswered(Step(s, sched[0].0, sched[0].1), sched[1..], id);
    }
  }

  /** Over every run each device was asked for as often as it was answered for and is still under
      way: no call is lost, answered twice or answered for another device. */
  lemma CallsConserved(n: nat, sched: seq<(nat, Choice)>, id: int)
    ensures var s := Run(Start(n), sched); s.asked[id] == Told(s.replies, id) + Owed(s.pcs, id)
  {
    NoneOwed(Start(n).pcs, id);
    RunAnswered(Start(n), sched, id);
  }

  // ------------------------------------------------- theorems

  /** For any number of threads and any interleaving: no PCI id is ever inserted twice, one thread
      at most is mapping, and the in-progress flag tells whether one is. Every caller that got a
      mapping got the one in the table for the device it asked for, so all callers for a device
      got the same mapping and chunk count. */
  lemma OneMappingPerDevice(n: nat, sched: seq<(nat, Choice)>)
    ensures var s := Run(Start(n), sched);
            && Unique(s.table) && Alone(s.pcs) && (s.busy <==> Occupied(s.pcs))
            && (forall k | 0 <= k < |s.replies| && s.replies[k].result.Some? ::
                  s.replies[k].result.value.id == s.replies[k].id && s.replies[k].result.value in s.table)
            && (forall k, l | 0 <= k < |s.replies| && 0 <= l < |s.replies|
                  && s.replies[k].id == s.replies[l].id && s.replies[k].result.Some? && s.replies[l].result.Some? ::
                  s.replies[k] == s.replies[l])
  {
    RunInv(Start(n), sched);
    var s := Run(Start(n), sched);
    forall k | 0 <= k < |s.replies|
      ensures s.replies[k].result.Some? ==> s.replies[k].result.value in s.table
    {
      FindAbsent(s.table, s.replies[k].id);
    }
  }

  /** Whenever a thread looks, it finds the device if and only if the device is in the table; a
      first look then answers at once, and a second look leaves with it. */
  lemma LooksExactly(s: Cache, t: nat, ch: Choice)
    requires t < |s.pcs| && (s.pcs[t].Looking? || s.pcs[t].Rechecking?)
    ensures var id, pc := s.pcs[t].id, Step(s, t, ch).pcs[t];
            (pc == Out || pc.Leaving?) <==> exists i :: 0 <= i < |s.table| && s.table[i].id == id
  {
    FindAbsent(s.table, s.pcs[t].id);
  }

  /** Allocations and mappings succeed. */
  predicate NoFailure(sched: seq<(nat, Choice)>) {
    forall k | 0 <= k < |sched| :: sched[k].1 != Fail
  }

  /** Nobody has failed or is about to. */
  predicate AllServed(s: Cache) {
    && (forall k | 0 <= k < |s.replies| :: s.replies[k].result.Some?)
    && (forall t | 0 <= t < |s.pcs| && s.pcs[t].Leaving? :: s.pcs[t].result.Some?)
  }

  lemma {:induction false} ServedRun(s: Cache, sched: seq<(nat, Choice)>)
    requires AllServed(s) && NoFailure(sched)
    ensures AllServed(Run(s, sched))
    decreases |sched|
  {
    if |sched| > 0 {
      ServedStep(s, sched[0].0, sched[0].1);
      hide AllServed, Step;
      ServedRun(Step(s, sched[0].0, sched[0].1), sched[1..]);
    }
  }

  lemma ServedStep(s: Cache, t: nat, ch: Choice)
    requires AllServed(s) && ch != Fail
    ensures AllServed(Step(s, t, ch))
  {
    hide Find;
    if t < |s.pcs| {
      match s.pcs[t]
      case Looking(_) =>
      case Leaving(_, _) =>
      case _ =>
    }
  }

  /** Unless an allocation or a mapping fails, every caller gets a mapping. */
  lemma FailsOnlyBelow(n: nat, sched: seq<(nat, Choice)>)
    requires NoFailure(sched)
    ensures forall k | 0 <= k < |Run(Start(n), sched).replies| :: Run(Start(n), sched).replies[k].result.Some?
  {
    ServedRun(Start(n), sched);
  }

  // ------------------------------------------------- one call by itself

  lemma RunFirst(s: Cache, t: nat, ch: Choice, rest: seq<(nat, Choice)>)
    ensures Run(s, [(t, ch)] + rest) == Run(Step(s, t, ch), rest)
  {
    assert ([(t, ch)] + rest)[1..] == rest;
  }

  /** `k` steps of thread `t`. */
  function Repeat(t: nat, ch: Choice, k: nat): seq<(nat, Choice)> {
    if k == 0 then [] else [(t, ch)] + Repeat(t, ch, k - 1)
  }

  lemma RepeatFirst(s: Cache, t: nat, ch: Choice, k: nat)
    requires k > 0
    ensures Run(s, Repeat(t, ch, k)) == Run(Step(s, t, ch), Repeat(t, ch, k - 1))
  {
    RunFirst(s, t, ch, Repeat(t, ch, k - 1));
  }

  lemma {:induction false} RestsOutside(s: Cache, t: nat, ch: Choice, k: nat)
    requires t < |s.pcs| && s.pcs[t] == Out && !ch.Ask?
    ensures Run(s, Repeat(t, ch, k)) == s
  {
    if k > 0 {
      RepeatFirst(s, t, ch, k);
      RestsOutside(s, t, ch, k - 1);
    }
  }

  /** What a call for `id` comes to when no other thread is inside: the mapping in the table, or a
      new one, which is inserted. */
  function Answer(s: Cache, t: nat, id: int, e: Entry): Cache
    requires t < |s.pcs|
  {
    var found := Find(s.table, id);
    if found.Some? then Return(s, t, id, found)
    else Return(s, t, id, Some(e)).(table := [e] + s.table)
  }

  /** The steps of a thread inside, up to its insertion and its way out. */
  lemma InsideSteps(s: Cache, t: nat, id: int, ch: Choice, e: Entry)
    requires t < |s.pcs| && ch == Succeed(e.mapping, e.chunks) && e.id == id && Find(s.table, id).None?
    ensures Step(Go(s, t, Allocating(id)), t, ch) == Go(s, t, Rechecking(id))
    ensures Step(Go(s, t, Rechecking(id)), t, ch) == Go(s, t, Mapping(id))
    ensures Step(Go(s, t, Mapping(id)), t, ch) == Go(s, t, Inserting(id, e))
    ensures Step(Go(s, t, Inserting(id, e)), t, ch) == Go(s.(table := [e] + s.table), t, Leaving(id, Some(e)))
  {
    GoTwice(s, t, Allocating(id), Rechecking(id));
    GoTwice(s, t, Rechecking(id), Mapping(id));
    GoTwice(s, t, Mapping(id), Inserting(id, e));
    GoTwice(s, t, Inserting(id, e), Leaving(id, Some(e)));
  }

  lemma GoTwice(s: Cache, t: nat, pc: Pc, pc': Pc)
    requires t < |s.pcs|
    ensures Go(Go(s, t, pc), t, pc') == Go(s, t, pc')
  {
    assert s.pcs[t := pc][t := pc'] == s.pcs[t := pc'];
  }

  /** The steps into the lock and out of it. */
  lemma LockSteps(s: Cache, t: nat, id: int, ch: Choice, r: Option<Entry>)
    requires t < |s.pcs|
    ensures !s.busy ==> Step(Go(s, t, Locking(id)), t, ch) == Go(s.(busy := true), t, Allocating(id))
    ensures Step(Go(s, t, Leaving(id, r)), t, ch) == Return(s, t, id, r).(busy := false)
  {
    GoTwice(s, t, Locking(id), Allocating(id));
    GoTwice(s, t, Leaving(id, r), Out);
  }

  /** A call by itself is answered in seven steps of its own, with a mapping. */
  lemma CallAlone(s: Cache, t: nat, id: int, mapping: int, chunks: nat)
    requires t < |s.pcs| && s.pcs[t] == Looking(id) && !s.busy
    ensures Run(s, Repeat(t, Succeed(mapping, chunks), 7)) == Answer(s, t, id, Entry(id, mapping, chunks))
  {
    var ch, e := Succeed(mapping, chunks), Entry(id, mapping, chunks);
    RepeatFirst(s, t, ch, 7);
    if Find(s.table, id).Some? {
      RestsOutside(Step(s, t, ch), t, ch, 6);
    } else {
      var b := s.(busy := true);
      var f := b.(table := [e] + s.table);
      assert Step(s, t, ch) == Go(s, t, Locking(id));
      assert Answer(s, t, id, e) == Return(f, t, id, Some(e)).(busy := false);
      hide Run, Repeat, Step, Go, Return, Answer, Find;
      LockSteps(s, t, id, ch, None);
      RepeatFirst(Go(s, t, Locking(id)), t, ch, 6);
      InsideSteps(b, t, id, ch, e);
      RepeatFirst(Go(b, t, Allocating(id)), t, ch, 5);
      RepeatFirst(Go(b, t, Rechecking(id)), t, ch, 4);
      RepeatFirst(Go(b, t, Mapping(id)), t, ch, 3);
      RepeatFirst(Go(b, t, Inserting(id, e)), t, ch, 2);
      LockSteps(f, t, id, ch, Some(e));
      RepeatFirst(Go(f, t, Leaving(id, Some(e))), t, ch, 1);
      RunNone(Answer(s, t, id, e), t, ch);
    }
  }

  lemma RunNone(s: Cache, t: nat, ch: Choice)
    ensures Run(s, Repeat(t, ch, 0)) == s
  {
  }

  /** A thread that waits for one that is mapping gets that thread's mapping, and not before it is
      in the table. */
  lemma WaiterServed(s: Cache, t: nat, u: nat, e: Entry, ch: Choice)
    requires t < |s.pcs| && u < |s.pcs| && t != u && s.busy
    requires s.pcs[t] == Waiting(e.id) && s.pcs[u] == Inserting(e.id, e)
    ensures Step(s, t, ch) == s
    ensures Run(s, [(u, ch), (u, ch), (t, ch), (t, ch)]) ==
            s.(table := [e] + s.table, busy := false, pcs := s.pcs[u := Out][t := Out],
               replies := s.replies + [Reply(e.id, Some(e)), Reply(e.id, Some(e))])
  {
    var f := s.(table := [e] + s.table);
    var s1 := Go(f, u, Leaving(e.id, Some(e)));
    var s2 := Return(f, u, e.id, Some(e)).(busy := false);
    assert Step(s, u, ch) == s1;
    LockSteps(f, u, e.id, ch, Some(e));
    InsertFind(s.table, e, e.id);
    WaiterLooks(s2, t, e, ch);
    assert s2.replies + [Reply(e.id, Some(e))] == s.replies + [Reply(e.id, Some(e)), Reply(e.id, Some(e))];
    hide Step;
    var s3 := Go(s2, t, Looking(e.id));
    RunFirst(s, u, ch, [(u, ch), (t, ch), (t, ch)]);
    RunFirst(s1, u, ch, [(t, ch), (t, ch)]);
    RunFirst(s2, t, ch, [(t, ch)]);
    RunFirst(s3, t, ch, []);
    assert [(u, ch)] + [(u, ch), (t, ch), (t, ch)] == [(u, ch), (u, ch), (t, ch), (t, ch)];
    assert [(u, ch)] + [(t, ch), (t, ch)] == [(u, ch), (t, ch), (t, ch)];
    assert [(t, ch)] + [(t, ch)] == [(t, ch), (t, ch)] && [(t, ch)] + [] == [(t, ch)];
  }

  lemma WaiterLooks(s: Cache, t: nat, e: Entry, ch: Choice)
    requires t < |s.pcs| && s.pcs[t] == Waiting(e.id) && !s.busy && Find(s.table, e.id) == Some(e)
    ensures Step(s, t, ch) == Go(s, t, Looking(e.id))
    ensures Step(Go(s, t, Looking(e.id)), t, ch) == Return(s, t, e.id, Some(e))
  {
    GoTwice(s, t, Looking(e.id), Out);
  }

  /** A failure below is answered with nothing, and clears the in-progress flag. */
  lemma FailureAnswered(s: Cache, t: nat, id: int, ch: Choice)
    requires t < |s.pcs| && (s.pcs[t] == Allocating(id) || s.pcs[t] == Mapping(id))
    ensures Step(Step(s, t, Fail), t, ch) == Return(s, t, id, None).(busy := false)
  {
    assert s.pcs[t := Leaving(id, None)][t := Out] == s.pcs[t := Out];
  }

  /** A thread outside takes the next call. */
  lemma AskTaken(s: Cache, t: nat, id: int)
    requires t < |s.pcs| && s.pcs[t] == Out
    ensures Step(s, t, Ask(id)).pcs == s.pcs[t := Looking(id)] && Step(s, t, Ask(id)).asked == s.asked + multiset{id}
  {
  }
}
