/** The table of per-timeline lanes in front of the allocator (src/timeline_proxy.rs).

    Request threads share a concurrent map of lanes, a slot counter, a queue of idle keys
    and, per lane, a reference count, a lifecycle lock and the serializing mutex.  Each
    access of shared state is one step; `Advance` is the code between two accesses. */
module Lanes {
  import opened Common

  type Thread = nat
  type LaneId = nat

  /** One `Arc<TimelineSerializer>`; `key` is where it was inserted. */
  datatype Lane = Lane(key: string, references: int, lifecycle: Option<Thread>, serialize: Option<Thread>)

  /** The four places `lease_existing_serializer` is called from. */
  datatype Site = First | BeforePrune | AfterPrune | AfterOccupied

  /** Where a request stands: the next shared access it will make. */
  datatype Pc =
    // lease_existing_serializer
    | LeaseGet(site: Site)
    | LeaseLock(site: Site, lane: LaneId)
    | LeaseCheck(site: Site, lane: LaneId)
    | LeaseGiveUp(site: Site, lane: LaneId)
    | LeaseAdd(lane: LaneId)
    | LeaseUnlock(lane: LaneId)
    // serializer_for
    | LoadSlots
    | Reserve(current: int)
    | Insert
    | ReleaseReserved
    | Recheck
    // try_prune_idle_candidates
    | PruneCount
    | PrunePop(left: nat)  // `left` attempts remain after this one
    | PruneGet(left: nat, candidate: string)
    | PruneLoad(left: nat, candidate: string, lane: LaneId)
    | PruneLock(left: nat, candidate: string, lane: LaneId)
    | PruneReload(left: nat, candidate: string, lane: LaneId)
    | PruneRemove(left: nat, candidate: string, lane: LaneId)
    | PruneRelease(lane: LaneId)
    | PruneUnlock(left: nat, lane: LaneId, pruned: bool)
    // holding a lease
    | Leased(lane: LaneId)
    | InFlight(lane: LaneId)
    | DropLease(lane: LaneId)
    | PushIdle

  datatype Request = Request(key: string, pc: Pc)

  datatype State = State(
    table: map<string, LaneId>,
    lanes: seq<Lane>,
    idle: seq<string>,
    slots: int,
    maxLanes: nat,
    threads: map<Thread, Request>)

  datatype Step =
    | Begin(thread: Thread, key: string)
    | Advance(thread: Thread)
    | Abandon(thread: Thread)

  function Initial(maxLanes: nat): State {
    State(map[], [], [], 0, maxLanes, map[])
  }

  function Goto(s: State, t: Thread, pc: Pc): State
    requires t in s.threads
  {
    s.(threads := s.threads[t := s.threads[t].(pc := pc)])
  }

  function Finish(s: State, t: Thread): State {
    s.(threads := s.threads - {t})
  }

  /** After a failed lease attempt. */
  function Resume(site: Site): Pc {
    match site
    case First => LoadSlots
    case BeforePrune => PruneCount
    case AfterPrune => Recheck
    case AfterOccupied => LoadSlots
  }

  function PruneNext(left: nat): Pc {
    if left == 0 then LeaseGet(AfterPrune) else PrunePop(left - 1)
  }

  /** The one shared access a thread makes, and where it goes next. */
  datatype Effect =
    | Wait
    | Move(pc: Pc)
    | SetLifecycle(lane: LaneId, holder: Option<Thread>, pc: Pc)
    | SetSerialize(lane: LaneId, holder: Option<Thread>, pc: Pc)
    | AddReference(lane: LaneId, pc: Pc)
    | SubReference(lane: LaneId, last: bool)
    | SetSlots(slots: int, pc: Pc)
    | InsertLane
    | RemoveLane(candidate: string, pc: Pc)
    | PopIdle(pc: Pc)
    | AppendIdle
    | Fail

  /** The code up to thread `t`'s next shared access; a thread waiting for a lock stays put. */
  function Act(s: State, t: Thread): Effect
    requires t in s.threads && ThreadOk(s, t)
  {
    var key, pc := s.threads[t].key, s.threads[t].pc;
    match pc
    case LeaseGet(site) =>
      Move(if key in s.table then LeaseLock(site, s.table[key]) else Resume(site))
    case LeaseLock(site, lane) =>
      if s.lanes[lane].lifecycle.Some? then Wait else SetLifecycle(lane, Some(t), LeaseCheck(site, lane))
    case LeaseCheck(site, lane) =>
      Move(if key in s.table && s.table[key] == lane then LeaseAdd(lane) else LeaseGiveUp(site, lane))
    case LeaseGiveUp(site, lane) => SetLifecycle(lane, None, Resume(site))
    case LeaseAdd(lane) => AddReference(lane, LeaseUnlock(lane))
    case LeaseUnlock(lane) => SetLifecycle(lane, None, Leased(lane))
    case LoadSlots =>
      Move(if s.slots >= s.maxLanes then LeaseGet(BeforePrune) else Reserve(s.slots))
    case Reserve(current) =>
      if s.slots == current then SetSlots(current + 1, Insert) else Move(LoadSlots)
    case Insert =>
      if key in s.table then Move(ReleaseReserved) else InsertLane
    case ReleaseReserved => SetSlots(s.slots - 1, LeaseGet(AfterOccupied))
    case Recheck =>
      if s.slots >= s.maxLanes then Fail else Move(LoadSlots)
    case PruneCount => Move(PrunePop(Max(|s.table|, 1) - 1))
    case PrunePop(left) =>
      if s.idle == [] then Move(LeaseGet(AfterPrune)) else PopIdle(PruneGet(left, s.idle[0]))
    case PruneGet(left, candidate) =>
      Move(if candidate in s.table then PruneLoad(left, candidate, s.table[candidate]) else PruneNext(left))
    case PruneLoad(left, candidate, lane) =>
      Move(if s.lanes[lane].references != 0 then PruneNext(left) else PruneLock(left, candidate, lane))
    case PruneLock(left, candidate, lane) =>
      if s.lanes[lane].lifecycle.Some? then Wait else SetLifecycle(lane, Some(t), PruneReload(left, candidate, lane))
    case PruneReload(left, candidate, lane) =>
      Move(if s.lanes[lane].references != 0 then PruneUnlock(left, lane, false)
           else PruneRemove(left, candidate, lane))
    case PruneRemove(left, candidate, lane) =>
      if candidate in s.table && s.table[candidate] == lane then RemoveLane(candidate, PruneRelease(lane))
      else Move(PruneUnlock(left, lane, false))
    case PruneRelease(lane) => SetSlots(s.slots - 1, PruneUnlock(0, lane, true))
    case PruneUnlock(left, lane, pruned) =>
      SetLifecycle(lane, None, if pruned then LeaseGet(AfterPrune) else PruneNext(left))
    case Leased(lane) =>
      if s.lanes[lane].serialize.Some? then Wait else SetSerialize(lane, Some(t), InFlight(lane))
    case InFlight(lane) => SetSerialize(lane, None, DropLease(lane))
    case DropLease(lane) => SubReference(lane, s.lanes[lane].references == 1)
    case PushIdle => AppendIdle
  }

  /** The access itself. */
  function Apply(s: State, t: Thread, e: Effect): State
    requires t in s.threads
    requires (e.SetLifecycle? || e.SetSerialize? || e.AddReference? || e.SubReference?) ==> e.lane < |s.lanes|
    requires e.PopIdle? ==> s.idle != []
  {
    match e
    case Wait => s
    case Move(pc) => Goto(s, t, pc)
    case SetLifecycle(lane, holder, pc) =>
      Goto(s.(lanes := s.lanes[lane := s.lanes[lane].(lifecycle := holder)]), t, pc)
    case SetSerialize(lane, holder, pc) =>
      Goto(s.(lanes := s.lanes[lane := s.lanes[lane].(serialize := holder)]), t, pc)
    case AddReference(lane, pc) =>
      Goto(s.(lanes := s.lanes[lane := s.lanes[lane].(references := s.lanes[lane].references + 1)]), t, pc)
    case SubReference(lane, last) =>
      var s' := s.(lanes := s.lanes[lane := s.lanes[lane].(references := s.lanes[lane].references - 1)]);
      if last then Goto(s', t, PushIdle) else Finish(s', t)
    case SetSlots(slots, pc) => Goto(s.(slots := slots), t, pc)
    case InsertLane =>
      var key := s.threads[t].key;
      Goto(s.(table := s.table[key := |s.lanes|], lanes := s.lanes + [Lane(key, 1, None, None)]), t, Leased(|s.lanes|))
    case RemoveLane(candidate, pc) => Goto(s.(table := s.table - {candidate}), t, pc)
    case PopIdle(pc) => Goto(s.(idle := s.idle[1..]), t, pc)
    case AppendIdle => Finish(s.(idle := s.idle + [s.threads[t].key]), t)
    case Fail => Finish(s, t)
  }

  /** One step of thread `t`. */
  function StepThread(s: State, t: Thread): State
    requires t in s.threads && ThreadOk(s, t)
  {
    Apply(s, t, Act(s, t))
  }

  function Next(s: State, step: Step): State
    requires forall t :: t in s.threads ==> ThreadOk(s, t)
  {
    match step
    case Begin(t, key) =>
      if t in s.threads then s else s.(threads := s.threads[t := Request(key, LeaseGet(First))])
    case Advance(t) =>
      if t in s.threads then StepThread(s, t) else s
    case Abandon(t) =>
      if t in s.threads && s.threads[t].pc.Leased? then Goto(s, t, DropLease(s.threads[t].pc.lane)) else s
  }

  // ------------------------------------------------------------- invariant

  /** The lane a thread is working on, if any. */
  function LaneOf(pc: Pc): Option<LaneId> {
    match pc
    case LeaseLock(_, lane) => Some(lane)
    case LeaseCheck(_, lane) => Some(lane)
    case LeaseGiveUp(_, lane) => Some(lane)
    case LeaseAdd(lane) => Some(lane)
    case LeaseUnlock(lane) => Some(lane)
    case PruneLoad(_, _, lane) => Some(lane)
    case PruneLock(_, _, lane) => Some(lane)
    case PruneReload(_, _, lane) => Some(lane)
    case PruneRemove(_, _, lane) => Some(lane)
    case PruneRelease(lane) => Some(lane)
    case PruneUnlock(_, lane, _) => Some(lane)
    case Leased(lane) => Some(lane)
    case InFlight(lane) => Some(lane)
    case DropLease(lane) => Some(lane)
    case _ => None
  }

  predicate HoldsLifecycle(pc: Pc) {
    pc.LeaseCheck? || pc.LeaseGiveUp? || pc.LeaseAdd? || pc.LeaseUnlock?
    || pc.PruneReload? || pc.PruneRemove? || pc.PruneRelease? || pc.PruneUnlock?
  }

  /** The thread counts as one of the lane's active references. */
  predicate HoldsReference(pc: Pc, lane: LaneId) {
    (pc.LeaseUnlock? || pc.Leased? || pc.InFlight? || pc.DropLease?) && pc.lane == lane
  }

  /** Between reserving or removing and inserting or releasing. */
  predicate InTransit(pc: Pc) {
    pc.Insert? || pc.ReleaseReserved? || pc.PruneRelease?
  }

  predicate Mapped(s: State, lane: LaneId)
    requires lane < |s.lanes|
  {
    s.lanes[lane].key in s.table && s.table[s.lanes[lane].key] == lane
  }

  /** What a thread may rely on: its lane exists and carries the key it thinks, the locks it
      is inside are its own, a lane it is about to reference is the mapped one, and a lane
      it is about to remove has no reference. */
  predicate ThreadOk(s: State, t: Thread)
    requires t in s.threads
  {
    var key, pc := s.threads[t].key, s.threads[t].pc;
    && (pc.Reserve? ==> pc.current < s.maxLanes)
    && (LaneOf(pc).Some? ==>
          var lane := LaneOf(pc).value;
          lane < |s.lanes|
          && (HoldsLifecycle(pc) ==> s.lanes[lane].lifecycle == Some(t))
          && (pc.InFlight? ==> s.lanes[lane].serialize == Some(t))
          && (pc.LeaseAdd? ==> Mapped(s, lane))
          && (pc.PruneRemove? ==> s.lanes[lane].references == 0)
          && (if pc.PruneLoad? || pc.PruneLock? || pc.PruneReload? || pc.PruneRemove?
              then s.lanes[lane].key == pc.candidate
              else pc.PruneRelease? || pc.PruneUnlock? || s.lanes[lane].key == key))
  }

  ghost predicate Shape(s: State) {
    && (forall k :: k in s.table ==> s.table[k] < |s.lanes| && s.lanes[s.table[k]].key == k)
    && (forall t :: t in s.threads ==> ThreadOk(s, t))
  }

  ghost function References(threads: map<Thread, Request>, lane: LaneId): set<Thread> {
    set t | t in threads && HoldsReference(threads[t].pc, lane)
  }

  ghost function Transit(threads: map<Thread, Request>): set<Thread> {
    set t | t in threads && InTransit(threads[t].pc)
  }

  /** Each lane's counter is the number of threads holding a reference to it. */
  ghost predicate Counted(s: State) {
    forall lane :: 0 <= lane < |s.lanes| ==> s.lanes[lane].references == |References(s.threads, lane)|
  }

  /** A referenced lane is the one in the table. */
  ghost predicate Current(s: State) {
    forall lane :: 0 <= lane < |s.lanes| && s.lanes[lane].references > 0 ==> Mapped(s, lane)
  }

  ghost predicate Slots(s: State) {
    s.slots == |s.table| + |Transit(s.threads)| && s.slots <= s.maxLanes
  }

  /** A thread that still has to decide about, or announce, the idle lane of `key`. */
  predicate Promises(r: Request, key: string, lane: LaneId) {
    || (r.pc.PushIdle? && r.key == key)
    || (r.pc.PruneGet? && r.pc.candidate == key)
    || ((r.pc.PruneLoad? || r.pc.PruneLock? || r.pc.PruneReload? || r.pc.PruneRemove?)
        && r.pc.candidate == key && r.pc.lane == lane)
  }

  ghost predicate Announced(s: State, key: string, lane: LaneId) {
    key in s.idle || exists t :: t in s.threads && Promises(s.threads[t], key, lane)
  }

  /** No idle lane is lost. */
  ghost predicate IdleKnown(s: State)
    requires Shape(s)
  {
    forall k :: k in s.table && s.lanes[s.table[k]].references == 0 ==> Announced(s, k, s.table[k])
  }

  ghost predicate Inv(s: State) {
    Shape(s) && Counted(s) && Current(s) && Slots(s) && IdleKnown(s)
  }

  // ------------------------------------------------- counting threads

  lemma ReferencesAfter(threads: map<Thread, Request>, t: Thread, r: Request, lane: LaneId)
    requires t in threads
    ensures var before, after := References(threads, lane), References(threads[t := r], lane);
            after - {t} == before - {t}
            && (t in before <==> HoldsReference(threads[t].pc, lane))
            && (t in after <==> HoldsReference(r.pc, lane))
            && |after| - |before| == (if t in after then 1 else 0) - (if t in before then 1 else 0)
  {
    var before, after := References(threads, lane), References(threads[t := r], lane);
    assert after - {t} == before - {t};
    assert |before - {t}| == |before| - if t in before then 1 else 0;
    assert |after - {t}| == |after| - if t in after then 1 else 0;
  }

  lemma ReferencesWithout(threads: map<Thread, Request>, t: Thread, lane: LaneId)
    requires t in threads
    ensures var before, after := References(threads, lane), References(threads - {t}, lane);
            |after| == |before| - if HoldsReference(threads[t].pc, lane) then 1 else 0
  {
    var before, after := References(threads, lane), References(threads - {t}, lane);
    assert after == before - {t};
  }

  lemma TransitAfter(threads: map<Thread, Request>, t: Thread, r: Request)
    requires t in threads
    ensures |Transit(threads[t := r])| - |Transit(threads)|
         == (if InTransit(r.pc) then 1 else 0) - (if InTransit(threads[t].pc) then 1 else 0)
  {
    var before, after := Transit(threads), Transit(threads[t := r]);
    assert after - {t} == before - {t};
    assert |before - {t}| == |before| - if t in before then 1 else 0;
    assert |after - {t}| == |after| - if t in after then 1 else 0;
  }

  lemma TransitWithout(threads: map<Thread, Request>, t: Thread)
    requires t in threads
    ensures |Transit(threads - {t})| == |Transit(threads)| - if InTransit(threads[t].pc) then 1 else 0
  {
    assert Transit(threads - {t}) == Transit(threads) - {t};
  }

  // --------------------------------------------------------- preservation

  /** Every idle lane the thread answered for, it still answers for. */
  ghost predicate Handed(s: State, s': State, t: Thread)
    requires t in s.threads && t in s'.threads
  {
    forall k ::
      (k in s'.table && s'.table[k] < |s'.lanes| && s'.lanes[s'.table[k]].references == 0
       && Promises(s.threads[t], k, s'.table[k])) ==>
      Promises(s'.threads[t], k, s'.table[k])
  }

  ghost predicate SameRole(pc: Pc, pc': Pc) {
    InTransit(pc') == InTransit(pc) && forall lane :: HoldsReference(pc', lane) == HoldsReference(pc, lane)
  }

  predicate Leasing(pc: Pc) {
    pc.LeaseGet? || pc.LeaseLock? || pc.LeaseCheck? || pc.LeaseGiveUp? || pc.LeaseAdd? || pc.LeaseUnlock?
  }

  predicate Pruning(pc: Pc) {
    pc.PruneGet? || pc.PruneLoad? || pc.PruneLock? || pc.PruneReload?
    || pc.PruneRemove? || pc.PruneRelease? || pc.PruneUnlock?
  }

  lemma MoveLeasing(s: State, t: Thread)
    requires Shape(s) && t in s.threads && Act(s, t).Move? && Leasing(s.threads[t].pc)
    ensures var s' := StepThread(s, t);
            ThreadOk(s', t) && SameRole(s.threads[t].pc, s'.threads[t].pc) && Handed(s, s', t)
  {}

  lemma MovePruning(s: State, t: Thread)
    requires Shape(s) && t in s.threads && Act(s, t).Move? && Pruning(s.threads[t].pc)
    ensures var s' := StepThread(s, t);
            ThreadOk(s', t) && SameRole(s.threads[t].pc, s'.threads[t].pc) && Handed(s, s', t)
  {}

  lemma MoveOther(s: State, t: Thread)
    requires Shape(s) && t in s.threads && Act(s, t).Move?
    requires !Leasing(s.threads[t].pc) && !Pruning(s.threads[t].pc)
    ensures var s' := StepThread(s, t);
            ThreadOk(s', t) && SameRole(s.threads[t].pc, s'.threads[t].pc) && Handed(s, s', t)
  {}

  /** An announced idle lane stays announced when the only thread that changes hands it on. */
  lemma AnnouncedStays(s: State, s': State, t: Thread, k: string)
    requires t in s.threads && k in s.table && Announced(s, k, s.table[k])
    requires t in s'.threads && s'.threads == s.threads[t := s'.threads[t]]
    requires k in s'.table && s'.table[k] == s.table[k] < |s'.lanes| && s'.lanes[s.table[k]].references == 0
    requires k in s.idle ==> k in s'.idle || Promises(s'.threads[t], k, s'.table[k])
    requires Handed(s, s', t)
    ensures Announced(s', k, s'.table[k])
  {
    hide Promises;
    if k !in s'.idle && k !in s.idle {
      var u :| u in s.threads && Promises(s.threads[u], k, s.table[k]);
      assert Promises(s'.threads[u], k, s'.table[k]);
    }
  }

  /** Only thread `t` and lock fields differ, and `t` keeps its role. */
  ghost predicate Quiet(s: State, s': State, t: Thread) {
    && t in s.threads && t in s'.threads && s'.threads == s.threads[t := s'.threads[t]]
    && s'.table == s.table && s'.idle == s.idle && s'.slots == s.slots && s'.maxLanes == s.maxLanes
    && |s'.lanes| == |s.lanes|
    && (forall lane :: 0 <= lane < |s.lanes| ==>
          s'.lanes[lane].key == s.lanes[lane].key && s'.lanes[lane].references == s.lanes[lane].references)
    && SameRole(s.threads[t].pc, s'.threads[t].pc) && Handed(s, s', t)
  }

  lemma QuietKeepsInv(s: State, s': State, t: Thread)
    requires Inv(s) && Quiet(s, s', t)
    requires forall u :: u in s'.threads ==> ThreadOk(s', u)
    ensures Inv(s')
  {
    hide ThreadOk, Promises, HoldsReference, InTransit;
    assert Transit(s'.threads) == Transit(s.threads);
    forall lane | 0 <= lane < |s'.lanes| ensures References(s'.threads, lane) == References(s.threads, lane) {}
    forall k | k in s'.table && s'.lanes[s'.table[k]].references == 0 ensures Announced(s', k, s'.table[k]) {
      AnnouncedStays(s, s', t, k);
    }
    forall lane | 0 <= lane < |s'.lanes| && s'.lanes[lane].references > 0 ensures Mapped(s', lane) {
      assert Mapped(s, lane);
    }
  }

  lemma MoveKeepsInv(s: State, t: Thread)
    requires Inv(s) && t in s.threads && Act(s, t).Move?
    ensures Inv(StepThread(s, t))
  {
    var s' := StepThread(s, t);
    assert ThreadOk(s', t) && SameRole(s.threads[t].pc, s'.threads[t].pc) && Handed(s, s', t) by {
      if Leasing(s.threads[t].pc) {
        MoveLeasing(s, t);
      } else if Pruning(s.threads[t].pc) {
        MovePruning(s, t);
      } else {
        MoveOther(s, t);
      }
    }
    hide Act;
    forall u | u in s'.threads ensures ThreadOk(s', u) {
      assert u in s.threads && ThreadOk(s, u);
    }
    QuietKeepsInv(s, s', t);
  }

  // Locks.

  /** The state after thread `t` changed the locks of one lane. */
  function Locked(s: State, t: Thread, lane: LaneId, after: Lane, pc: Pc): State
    requires t in s.threads && lane < |s.lanes|
  {
    Goto(s.(lanes := s.lanes[lane := after]), t, pc)
  }

  /** A lock's new value, seen by the others: it was free or `t`'s own, so nobody loses one. */
  ghost predicate OnlyOwn(before: Option<Thread>, after: Option<Thread>, t: Thread) {
    before == after || before.None? || before == Some(t)
  }

  ghost predicate LockChange(s: State, t: Thread, lane: LaneId, after: Lane, pc: Pc) {
    t in s.threads && lane < |s.lanes|
    && after.key == s.lanes[lane].key && after.references == s.lanes[lane].references
    && OnlyOwn(s.lanes[lane].lifecycle, after.lifecycle, t) && OnlyOwn(s.lanes[lane].serialize, after.serialize, t)
    && SameRole(s.threads[t].pc, pc)
    && ThreadOk(Locked(s, t, lane, after, pc), t) && Handed(s, Locked(s, t, lane, after, pc), t)
  }

  /** Another thread inside the same lock is impossible, and nothing else changes. */
  lemma OtherThroughLock(s: State, t: Thread, lane: LaneId, after: Lane, pc: Pc, u: Thread)
    requires t in s.threads && lane < |s.lanes| && u in s.threads && u != t && ThreadOk(s, u)
    requires after.key == s.lanes[lane].key && after.references == s.lanes[lane].references
    requires OnlyOwn(s.lanes[lane].lifecycle, after.lifecycle, t)
    requires OnlyOwn(s.lanes[lane].serialize, after.serialize, t)
    ensures ThreadOk(Locked(s, t, lane, after, pc), u)
  {}

  lemma LockKeepsInv(s: State, t: Thread, lane: LaneId, after: Lane, pc: Pc)
    requires Inv(s) && LockChange(s, t, lane, after, pc)
    ensures Inv(Locked(s, t, lane, after, pc))
  {
    hide ThreadOk, Counted, Current, Slots, IdleKnown, Handed, SameRole, OnlyOwn;
    var s' := Locked(s, t, lane, after, pc);
    forall u | u in s'.threads ensures ThreadOk(s', u) {
      if u != t {
        OtherThroughLock(s, t, lane, after, pc, u);
      }
    }
    QuietKeepsInv(s, s', t);
  }

  lemma LifecycleFacts(s: State, t: Thread)
    requires Shape(s) && t in s.threads && Act(s, t).SetLifecycle? && Leasing(s.threads[t].pc)
    ensures var e := Act(s, t);
            e.lane < |s.lanes| && LockChange(s, t, e.lane, s.lanes[e.lane].(lifecycle := e.holder), e.pc)
  {}

  lemma LifecycleFactsPruning(s: State, t: Thread)
    requires Shape(s) && t in s.threads && Act(s, t).SetLifecycle? && Pruning(s.threads[t].pc)
    ensures var e := Act(s, t);
            e.lane < |s.lanes| && LockChange(s, t, e.lane, s.lanes[e.lane].(lifecycle := e.holder), e.pc)
  {}

  lemma LifecycleKeepsInv(s: State, t: Thread)
    requires Inv(s) && t in s.threads && Act(s, t).SetLifecycle?
    ensures Inv(StepThread(s, t))
  {
    assert Leasing(s.threads[t].pc) || Pruning(s.threads[t].pc);
    hide Act, Inv, ThreadOk, LockChange;
    var e := Act(s, t);
    if Leasing(s.threads[t].pc) {
      LifecycleFacts(s, t);
    } else {
      LifecycleFactsPruning(s, t);
    }
    LockKeepsInv(s, t, e.lane, s.lanes[e.lane].(lifecycle := e.holder), e.pc);
  }

  lemma SerializeFacts(s: State, t: Thread)
    requires Shape(s) && t in s.threads && Act(s, t).SetSerialize?
    ensures var e := Act(s, t);
            e.lane < |s.lanes| && LockChange(s, t, e.lane, s.lanes[e.lane].(serialize := e.holder), e.pc)
  {}

  lemma SerializeKeepsInv(s: State, t: Thread)
    requires Inv(s) && t in s.threads && Act(s, t).SetSerialize?
    ensures Inv(StepThread(s, t))
  {
    SerializeFacts(s, t);
    hide Act, Inv, ThreadOk, LockChange;
    var e := Act(s, t);
    LockKeepsInv(s, t, e.lane, s.lanes[e.lane].(serialize := e.holder), e.pc);
  }

  // Slots and the idle queue.

  /** A thread's lane, locks and mapping are untouched by slots, queue and other threads. */
  lemma OtherUntouched(s: State, s': State, u: Thread)
    requires u in s.threads && ThreadOk(s, u) && u in s'.threads && s'.threads[u] == s.threads[u]
    requires s'.table == s.table && s'.lanes == s.lanes && s'.maxLanes == s.maxLanes
    ensures ThreadOk(s', u)
  {}

  /** Lanes and table are as before, and so is every thread but `t`. */
  ghost predicate SameLanes(s: State, s': State, t: Thread) {
    && s'.table == s.table && s'.lanes == s.lanes && s'.maxLanes == s.maxLanes
    && (s'.threads == s.threads - {t} || (t in s'.threads && s'.threads == s.threads[t := s'.threads[t]]))
  }

  lemma SameLanesKeepShape(s: State, s': State, t: Thread)
    requires Shape(s) && Current(s) && SameLanes(s, s', t) && (t in s'.threads ==> ThreadOk(s', t))
    ensures Shape(s') && Current(s')
  {
    hide ThreadOk;
    forall u | u in s'.threads ensures ThreadOk(s', u) {
      if u != t {
        OtherUntouched(s, s', u);
      }
    }
    forall lane | 0 <= lane < |s'.lanes| && s'.lanes[lane].references > 0 ensures Mapped(s', lane) {
      assert Mapped(s, lane);
    }
  }

  /** A thread without a reference before and after changes no count. */
  lemma SameLanesKeepCounted(s: State, s': State, t: Thread)
    requires Counted(s) && SameLanes(s, s', t)
    requires forall lane :: t in s.threads ==> !HoldsReference(s.threads[t].pc, lane)
    requires forall lane :: t in s'.threads ==> !HoldsReference(s'.threads[t].pc, lane)
    ensures Counted(s')
  {
    hide HoldsReference;
    forall lane | 0 <= lane < |s'.lanes| ensures s'.lanes[lane].references == |References(s'.threads, lane)| {
      assert References(s'.threads, lane) == References(s.threads, lane);
    }
  }

  lemma SameLanesKeepIdle(s: State, s': State, t: Thread)
    requires Shape(s) && IdleKnown(s) && Shape(s') && SameLanes(s, s', t) && t in s.threads && t in s'.threads
    requires Handed(s, s', t)
    requires forall k, lane :: 0 <= lane && k in s.idle ==> k in s'.idle || Promises(s'.threads[t], k, lane)
    ensures IdleKnown(s')
  {
    hide ThreadOk, Promises, Handed;
    forall k | k in s'.table && s'.lanes[s'.table[k]].references == 0 ensures Announced(s', k, s'.table[k]) {
      AnnouncedStays(s, s', t, k);
    }
  }

  ghost predicate NoReference(pc: Pc) {
    forall lane :: !HoldsReference(pc, lane)
  }

  lemma SlotsFacts(s: State, t: Thread)
    requires Shape(s) && t in s.threads && Act(s, t).SetSlots?
    ensures var e, pc := Act(s, t), s.threads[t].pc;
            e.slots - s.slots == (if InTransit(e.pc) then 1 else 0) - (if InTransit(pc) then 1 else 0)
            && (e.slots <= s.maxLanes || e.slots <= s.slots)
            && NoReference(pc) && NoReference(e.pc)
    ensures ThreadOk(StepThread(s, t), t) && Handed(s, StepThread(s, t), t)
  {}

  lemma SlotsKeepsInv(s: State, t: Thread)
    requires Inv(s) && t in s.threads && Act(s, t).SetSlots?
    ensures Inv(StepThread(s, t))
  {
    hide Act, HoldsReference, InTransit, Promises, ThreadOk, Counted, Current, IdleKnown, Handed;
    var s' := StepThread(s, t);
    SlotsFacts(s, t);
    TransitAfter(s.threads, t, s'.threads[t]);
    SameLanesKeepShape(s, s', t);
    SameLanesKeepCounted(s, s', t);
    SameLanesKeepIdle(s, s', t);
  }

  lemma PopFacts(s: State, t: Thread)
    requires Shape(s) && t in s.threads && Act(s, t).PopIdle?
    ensures var s' := StepThread(s, t);
            s.idle != [] && NoReference(s.threads[t].pc) && NoReference(s'.threads[t].pc)
            && !InTransit(s.threads[t].pc) && !InTransit(s'.threads[t].pc)
            && Handed(s, s', t) && ThreadOk(s', t)
            && (forall k, lane :: 0 <= lane && k in s.idle ==> k in s'.idle || Promises(s'.threads[t], k, lane))
  {}

  lemma PopKeepsInv(s: State, t: Thread)
    requires Inv(s) && t in s.threads && Act(s, t).PopIdle?
    ensures Inv(StepThread(s, t))
  {
    hide Act, HoldsReference, InTransit, Promises, ThreadOk, Counted, Current, IdleKnown, Handed;
    PopFacts(s, t);
    var s' := StepThread(s, t);
    TransitAfter(s.threads, t, s'.threads[t]);
    SameLanesKeepShape(s, s', t);
    SameLanesKeepCounted(s, s', t);
    SameLanesKeepIdle(s, s', t);
  }

  /** Only announcing and giving up end a thread outside a lease. */
  lemma EndPc(s: State, t: Thread)
    requires t in s.threads && ThreadOk(s, t) && (Act(s, t).AppendIdle? || Act(s, t).Fail?)
    ensures if Act(s, t).AppendIdle? then s.threads[t].pc.PushIdle? else s.threads[t].pc.Recheck?
  {}

  lemma EndFacts(s: State, t: Thread)
    requires t in s.threads && ThreadOk(s, t) && (Act(s, t).AppendIdle? || Act(s, t).Fail?)
    ensures var r, s' := s.threads[t], StepThread(s, t);
            !InTransit(r.pc) && NoReference(r.pc) && SameLanes(s, s', t) && s'.slots == s.slots
            && s'.threads == s.threads - {t} && s.idle <= s'.idle
            && (forall k, lane :: 0 <= lane && Promises(r, k, lane) ==> k in s'.idle)
  {
    EndPc(s, t);
    hide Act, ThreadOk;
  }

  /** A thread that ends, possibly after announcing its key, takes no promise with it. */
  lemma EndKeepsInv(s: State, t: Thread)
    requires Inv(s) && t in s.threads && (Act(s, t).AppendIdle? || Act(s, t).Fail?)
    ensures Inv(StepThread(s, t))
  {
    hide Act, Apply, StepThread, HoldsReference, InTransit, Promises, ThreadOk, Counted, Current;
    EndFacts(s, t);
    var s' := StepThread(s, t);
    TransitWithout(s.threads, t);
    SameLanesKeepShape(s, s', t);
    SameLanesKeepCounted(s, s', t);
    forall k | k in s'.table && s'.lanes[s'.table[k]].references == 0 ensures Announced(s', k, s'.table[k]) {
      assert Announced(s, k, s.table[k]);
      if k !in s'.idle {
        var u :| u in s.threads && Promises(s.threads[u], k, s.table[k]);
        assert u in s'.threads && Promises(s'.threads[u], k, s'.table[k]);
      }
    }
  }

  // Reference counts.

  /** Another thread stays sound when a count changes that it does not rely on. */
  lemma OtherThroughCount(s: State, s': State, u: Thread, lane: LaneId, references: int)
    requires u in s.threads && ThreadOk(s, u) && lane < |s.lanes|
    requires u in s'.threads && s'.threads[u] == s.threads[u]
    requires s'.table == s.table && s'.maxLanes == s.maxLanes
    requires s'.lanes == s.lanes[lane := s.lanes[lane].(references := references)]
    requires s.lanes[lane].references > 0 || (s.lanes[lane].lifecycle.Some? && s.lanes[lane].lifecycle != Some(u))
    ensures ThreadOk(s', u)
  {}

  function WithReferences(s: State, lane: LaneId, references: int): State
    requires lane < |s.lanes|
  {
    s.(lanes := s.lanes[lane := s.lanes[lane].(references := references)])
  }

  /** Changing one lane's count keeps the rest of the shape, if no other thread relies on it. */
  lemma CountKeepsShape(s: State, s': State, t: Thread, lane: LaneId)
    requires Shape(s) && Current(s) && t in s.threads && lane < |s.lanes|
    requires |s'.lanes| == |s.lanes| && s'.lanes == WithReferences(s, lane, s'.lanes[lane].references).lanes
    requires s'.table == s.table && s'.maxLanes == s.maxLanes
    requires s'.threads == s.threads - {t}
             || (t in s'.threads && s'.threads == s.threads[t := s'.threads[t]] && ThreadOk(s', t))
    requires s.lanes[lane].references > 0 || s.lanes[lane].lifecycle == Some(t)
    requires Mapped(s, lane)
    ensures Shape(s') && Current(s')
  {
    hide ThreadOk;
    forall u | u in s'.threads ensures ThreadOk(s', u) {
      if u != t {
        assert ThreadOk(s, u);
        OtherThroughCount(s, s', u, lane, s'.lanes[lane].references);
      }
    }
    forall l | 0 <= l < |s'.lanes| && s'.lanes[l].references > 0 ensures Mapped(s', l) {
      assert l != lane ==> Mapped(s, l);
    }
  }

  lemma AddFacts(s: State, t: Thread)
    requires Shape(s) && t in s.threads && Act(s, t).AddReference?
    ensures var lane, s' := Act(s, t).lane, StepThread(s, t);
            lane < |s.lanes| && s.lanes[lane].lifecycle == Some(t) && Mapped(s, lane)
            && s.threads[t].pc == LeaseAdd(lane)
            && s' == Goto(WithReferences(s, lane, s.lanes[lane].references + 1), t, LeaseUnlock(lane))
            && ThreadOk(s', t) && Handed(s, s', t)
  {}

  lemma AddKeepsCounts(s: State, s': State, t: Thread, lane: LaneId)
    requires t in s.threads && Counted(s) && Slots(s) && lane < |s.lanes| && s.threads[t].pc == LeaseAdd(lane)
    requires s' == Goto(WithReferences(s, lane, s.lanes[lane].references + 1), t, LeaseUnlock(lane))
    ensures Counted(s') && Slots(s') && s.lanes[lane].references >= 0
  {
    TransitAfter(s.threads, t, s'.threads[t]);
    assert s.lanes[lane].references == |References(s.threads, lane)|;
    forall l | 0 <= l < |s'.lanes| ensures s'.lanes[l].references == |References(s'.threads, l)| {
      ReferencesAfter(s.threads, t, s'.threads[t], l);
    }
  }

  lemma AddKeepsInv(s: State, t: Thread)
    requires Inv(s) && t in s.threads && Act(s, t).AddReference?
    ensures Inv(StepThread(s, t))
  {
    AddFacts(s, t);
    var s', lane := StepThread(s, t), Act(s, t).lane;
    hide Act, Apply, StepThread, Promises, ThreadOk, Counted, Current, Slots, HoldsReference, InTransit;
    AddKeepsCounts(s, s', t, lane);
    CountKeepsShape(s, s', t, lane);
    forall k | k in s'.table && s'.lanes[s'.table[k]].references == 0 ensures Announced(s', k, s'.table[k]) {
      AnnouncedStays(s, s', t, k);
    }
  }

  lemma SubFacts(s: State, t: Thread)
    requires Shape(s) && t in s.threads && Act(s, t).SubReference?
    ensures var lane, s' := Act(s, t).lane, StepThread(s, t);
            s.threads[t].pc == DropLease(lane) && lane < |s.lanes| && s.lanes[lane].key == s.threads[t].key
            && s' == Dropped(s, t, lane)
            && (t in s'.threads ==> ThreadOk(s', t))
            && (forall k, l :: 0 <= l ==> !Promises(s.threads[t], k, l))
  {
    SubPc(s, t);
    hide Act;
  }

  lemma SubPc(s: State, t: Thread)
    requires t in s.threads && ThreadOk(s, t) && Act(s, t).SubReference?
    ensures var lane := Act(s, t).lane;
            lane < |s.lanes| && s.threads[t].pc == DropLease(lane)
            && Act(s, t).last == (s.lanes[lane].references == 1)
  {}

  function Dropped(s: State, t: Thread, lane: LaneId): State
    requires t in s.threads && lane < |s.lanes|
  {
    var less := WithReferences(s, lane, s.lanes[lane].references - 1);
    if s.lanes[lane].references == 1 then Goto(less, t, PushIdle) else Finish(less, t)
  }

  /** The dropped lane had a reference, and announces itself when it was the last one. */
  lemma SubKeepsInv(s: State, t: Thread)
    requires Inv(s) && t in s.threads && Act(s, t).SubReference?
    ensures Inv(StepThread(s, t))
  {
    SubFacts(s, t);
    var s', lane := StepThread(s, t), Act(s, t).lane;
    SubKeepsCounts(s, s', t, lane);
    assert Mapped(s, lane);
    hide Act, Apply, StepThread, ThreadOk, Counted, Current, Slots, HoldsReference, InTransit;
    CountKeepsShape(s, s', t, lane);
    SubKeepsIdle(s, s', t, lane);
  }

  lemma SubKeepsIdle(s: State, s': State, t: Thread, lane: LaneId)
    requires Shape(s) && IdleKnown(s) && t in s.threads && lane < |s.lanes| && s.lanes[lane].references >= 1
    requires s.lanes[lane].key == s.threads[t].key && s' == Dropped(s, t, lane) && Shape(s')
    requires forall k, l :: 0 <= l ==> !Promises(s.threads[t], k, l)
    ensures IdleKnown(s')
  {
    hide ThreadOk, Promises;
    forall k | k in s'.table && s'.lanes[s'.table[k]].references == 0 ensures Announced(s', k, s'.table[k]) {
      if s.table[k] == lane {
        PushIdlePromises(s'.threads[t], lane);
      } else {
        assert Announced(s, k, s.table[k]);
        if k !in s.idle {
          var u :| u in s.threads && Promises(s.threads[u], k, s.table[k]);
          assert u in s'.threads && Promises(s'.threads[u], k, s'.table[k]);
        }
      }
    }
  }

  lemma PushIdlePromises(r: Request, lane: LaneId)
    requires r.pc == PushIdle
    ensures Promises(r, r.key, lane)
  {}

  lemma SubKeepsCounts(s: State, s': State, t: Thread, lane: LaneId)
    requires t in s.threads && Counted(s) && Slots(s) && lane < |s.lanes| && s.threads[t].pc == DropLease(lane)
    requires s' == Dropped(s, t, lane)
    ensures Counted(s') && Slots(s') && s.lanes[lane].references >= 1
  {
    assert t in References(s.threads, lane);
    assert s.lanes[lane].references == |References(s.threads, lane)|;
    if s.lanes[lane].references == 1 {
      TransitAfter(s.threads, t, s'.threads[t]);
    } else {
      TransitWithout(s.threads, t);
    }
    forall l | 0 <= l < |s'.lanes| ensures s'.lanes[l].references == |References(s'.threads, l)| {
      if s.lanes[lane].references == 1 {
        ReferencesAfter(s.threads, t, s'.threads[t], l);
      } else {
        ReferencesWithout(s.threads, t, l);
      }
    }
  }

  // The table.

  lemma InsertFacts(s: State, t: Thread)
    requires Shape(s) && t in s.threads && Act(s, t).InsertLane?
    ensures s.threads[t].key !in s.table && s.threads[t].pc == Insert
    ensures forall k, l :: 0 <= l ==> !Promises(s.threads[t], k, l)
  {}

  /** A new lane disturbs no thread and is known only to its creator. */
  lemma InsertKeepsShape(s: State, s': State, t: Thread)
    requires Shape(s) && Current(s) && t in s.threads && s.threads[t].key !in s.table
    requires s' == Apply(s, t, InsertLane)
    ensures Shape(s') && Current(s')
  {
    forall u | u in s'.threads ensures ThreadOk(s', u) {
      assert ThreadOk(s, u);
    }
    hide ThreadOk;
    forall l | 0 <= l < |s'.lanes| && s'.lanes[l].references > 0 ensures Mapped(s', l) {
      assert l < |s.lanes| ==> Mapped(s, l);
    }
  }

  lemma NewestUnreferenced(s: State)
    requires Shape(s)
    ensures References(s.threads, |s.lanes|) == {}
  {
    forall u | u in s.threads ensures !HoldsReference(s.threads[u].pc, |s.lanes|) {
      assert ThreadOk(s, u);
    }
  }

  lemma InsertKeepsCounts(s: State, s': State, t: Thread)
    requires Shape(s) && Counted(s) && Slots(s) && t in s.threads && s.threads[t].key !in s.table
    requires s.threads[t].pc == Insert && s' == Apply(s, t, InsertLane)
    ensures Counted(s') && Slots(s')
  {
    hide ThreadOk;
    TransitAfter(s.threads, t, s'.threads[t]);
    assert |s'.table| == |s.table| + 1;
    NewestUnreferenced(s);
    forall l | 0 <= l < |s'.lanes| ensures s'.lanes[l].references == |References(s'.threads, l)| {
      ReferencesAfter(s.threads, t, s'.threads[t], l);
    }
  }

  lemma InsertKeepsInv(s: State, t: Thread)
    requires Inv(s) && t in s.threads && Act(s, t).InsertLane?
    ensures Inv(StepThread(s, t))
  {
    hide Act, Apply, ThreadOk, Counted, Current, Slots, IdleKnown;
    InsertFacts(s, t);
    var s' := Apply(s, t, InsertLane);
    InsertKeepsShape(s, s', t);
    InsertKeepsCounts(s, s', t);
    InsertKeepsIdle(s, s', t);
  }

  lemma InsertKeepsIdle(s: State, s': State, t: Thread)
    requires Shape(s) && IdleKnown(s) && Shape(s') && t in s.threads && s.threads[t].key !in s.table
    requires forall k, l :: 0 <= l ==> !Promises(s.threads[t], k, l)
    requires s' == Apply(s, t, InsertLane)
    ensures IdleKnown(s')
  {
    hide ThreadOk, Promises;
    var key := s.threads[t].key;
    forall k | k in s'.table && s'.lanes[s'.table[k]].references == 0 ensures Announced(s', k, s'.table[k]) {
      assert k != key && k in s.table && s'.table[k] == s.table[k] < |s.lanes|;
      AnnouncedStays(s, s', t, k);
    }
  }

  lemma RemoveFacts(s: State, t: Thread)
    requires Shape(s) && t in s.threads && Act(s, t).RemoveLane?
    ensures var e, pc := Act(s, t), s.threads[t].pc;
            pc.PruneRemove? && e.candidate == pc.candidate && e.candidate in s.table && s.table[e.candidate] == pc.lane
            && pc.lane < |s.lanes| && s.lanes[pc.lane].references == 0 && s.lanes[pc.lane].lifecycle == Some(t)
            && s.lanes[pc.lane].key == e.candidate && e.pc == PruneRelease(pc.lane)
            && Handed(s, StepThread(s, t), t)
  {}

  /** Nobody else can be about to reference the lane: that takes its lifecycle lock. */
  lemma RemoveKeepsShape(s: State, s': State, t: Thread, candidate: string, lane: LaneId)
    requires Shape(s) && Current(s) && t in s.threads && candidate in s.table && s.table[candidate] == lane
    requires lane < |s.lanes| && s.lanes[lane].references == 0 && s.lanes[lane].lifecycle == Some(t)
    requires s' == Apply(s, t, RemoveLane(candidate, PruneRelease(lane)))
    ensures Shape(s') && Current(s')
  {
    forall u | u in s'.threads ensures ThreadOk(s', u) {
      assert ThreadOk(s, u);
    }
    hide ThreadOk;
    forall l | 0 <= l < |s'.lanes| && s'.lanes[l].references > 0 ensures Mapped(s', l) {
      assert Mapped(s, l);
    }
  }

  lemma RemoveKeepsCounts(s: State, s': State, t: Thread, candidate: string, lane: LaneId)
    requires Counted(s) && Slots(s) && t in s.threads && candidate in s.table && s.threads[t].pc.PruneRemove?
    requires s' == Apply(s, t, RemoveLane(candidate, PruneRelease(lane)))
    ensures Counted(s') && Slots(s')
  {
    TransitAfter(s.threads, t, s'.threads[t]);
    assert s.table.Keys == s'.table.Keys + {candidate};
    assert |s'.table| == |s.table| - 1;
    forall l | 0 <= l < |s'.lanes| ensures s'.lanes[l].references == |References(s'.threads, l)| {
      ReferencesAfter(s.threads, t, s'.threads[t], l);
    }
  }

  lemma RemoveKeepsIdle(s: State, s': State, t: Thread, candidate: string, lane: LaneId)
    requires Shape(s) && IdleKnown(s) && Shape(s') && t in s.threads && candidate in s.table
    requires s' == Apply(s, t, RemoveLane(candidate, PruneRelease(lane))) && Handed(s, s', t)
    ensures IdleKnown(s')
  {
    hide ThreadOk, Promises, Handed;
    forall k | k in s'.table && s'.lanes[s'.table[k]].references == 0 ensures Announced(s', k, s'.table[k]) {
      AnnouncedStays(s, s', t, k);
    }
  }

  lemma RemoveKeepsInv(s: State, t: Thread)
    requires Inv(s) && t in s.threads && Act(s, t).RemoveLane?
    ensures Inv(StepThread(s, t))
  {
    hide Act, Apply, ThreadOk, Counted, Current, Slots, IdleKnown, Handed;
    RemoveFacts(s, t);
    var s', e, lane := StepThread(s, t), Act(s, t), s.threads[t].pc.lane;
    assert s' == Apply(s, t, RemoveLane(e.candidate, PruneRelease(lane)));
    RemoveKeepsShape(s, s', t, e.candidate, lane);
    RemoveKeepsCounts(s, s', t, e.candidate, lane);
    RemoveKeepsIdle(s, s', t, e.candidate, lane);
  }

  // Beginning and abandoning a request.

  lemma BeginKeepsInv(s: State, t: Thread, key: string)
    requires Inv(s) && t !in s.threads
    ensures Inv(s.(threads := s.threads[t := Request(key, LeaseGet(First))]))
  {
    hide Promises, ThreadOk, Counted, Current;
    var s' := s.(threads := s.threads[t := Request(key, LeaseGet(First))]);
    FirstIsSound(s', t);
    assert Transit(s'.threads) == Transit(s.threads);
    SameLanesKeepShape(s, s', t);
    SameLanesKeepCounted(s, s', t);
    forall k | k in s'.table && s'.lanes[s'.table[k]].references == 0 ensures Announced(s', k, s'.table[k]) {
      assert Announced(s, k, s.table[k]);
      if k !in s.idle {
        var u :| u in s.threads && Promises(s.threads[u], k, s.table[k]);
        assert u in s'.threads && Promises(s'.threads[u], k, s'.table[k]);
      }
    }
  }

  lemma FirstIsSound(s: State, t: Thread)
    requires t in s.threads && s.threads[t].pc == LeaseGet(First)
    ensures ThreadOk(s, t)
  {}

  lemma AbandonFacts(s: State, t: Thread)
    requires Shape(s) && t in s.threads && s.threads[t].pc.Leased?
    ensures var lane := s.threads[t].pc.lane;
            lane < |s.lanes| && LockChange(s, t, lane, s.lanes[lane], DropLease(lane))
  {
    assert ThreadOk(s, t);
    var lane := s.threads[t].pc.lane;
    assert s.lanes == s.lanes[lane := s.lanes[lane]];
  }

  lemma AbandonKeepsInv(s: State, t: Thread)
    requires Inv(s) && t in s.threads && s.threads[t].pc.Leased?
    ensures Inv(Goto(s, t, DropLease(s.threads[t].pc.lane)))
  {
    AbandonFacts(s, t);
    hide Inv, ThreadOk, LockChange;
    var lane := s.threads[t].pc.lane;
    LockKeepsInv(s, t, lane, s.lanes[lane], DropLease(lane));
    assert s.lanes == s.lanes[lane := s.lanes[lane]];
  }

  // ------------------------------------------------------------ every run

  lemma NextKeepsInv(s: State, step: Step)
    requires Inv(s)
    ensures Inv(Next(s, step)) && Next(s, step).maxLanes == s.maxLanes
  {
    hide Act, ThreadOk, Counted, Current, Slots, IdleKnown;
    if step.Begin? {
      if step.thread !in s.threads {
        BeginKeepsInv(s, step.thread, step.key);
      }
    } else if step.Abandon? {
      if step.thread in s.threads && s.threads[step.thread].pc.Leased? {
        AbandonKeepsInv(s, step.thread);
      }
    } else if step.thread in s.threads {
      StepKeepsInv(s, step.thread);
    }
  }

  lemma StepKeepsInv(s: State, t: Thread)
    requires Inv(s) && t in s.threads
    ensures Inv(StepThread(s, t))
  {
    hide Act, ThreadOk, Counted, Current, Slots;
    match Act(s, t)
    case Wait =>
    case Move(_) => MoveKeepsInv(s, t);
    case SetLifecycle(_, _, _) => LifecycleKeepsInv(s, t);
    case SetSerialize(_, _, _) => SerializeKeepsInv(s, t);
    case AddReference(_, _) => AddKeepsInv(s, t);
    case SubReference(_, _) => SubKeepsInv(s, t);
    case SetSlots(_, _) => SlotsKeepsInv(s, t);
    case InsertLane => InsertKeepsInv(s, t);
    case RemoveLane(_, _) => RemoveKeepsInv(s, t);
    case PopIdle(_) => PopKeepsInv(s, t);
    case AppendIdle => EndKeepsInv(s, t);
    case Fail => EndKeepsInv(s, t);
  }

  /** Any interleaving of any number of requests is some list of steps. */
  ghost function Run(s: State, steps: seq<Step>): (r: State)
    requires Inv(s)
    ensures Inv(r) && r.maxLanes == s.maxLanes
    decreases |steps|
  {
    if steps == [] then s else
      NextKeepsInv(s, steps[0]);
      Run(Next(s, steps[0]), steps[1..])
  }

  ghost function Reached(maxLanes: nat, steps: seq<Step>): (r: State)
    ensures Inv(r) && r.maxLanes == maxLanes
  {
    assert Transit(Initial(maxLanes).threads) == {};
    Run(Initial(maxLanes), steps)
  }

  /** In every reachable state a lane with references is the one its key maps to, so two
      requests leasing one timeline hold the same serializer. */
  lemma LeasesShareOneLane(maxLanes: nat, steps: seq<Step>, t: Thread, u: Thread)
    requires var s := Reached(maxLanes, steps);
             t in s.threads && u in s.threads && s.threads[t].key == s.threads[u].key
             && LaneOf(s.threads[t].pc).Some? && HoldsReference(s.threads[t].pc, LaneOf(s.threads[t].pc).value)
             && LaneOf(s.threads[u].pc).Some? && HoldsReference(s.threads[u].pc, LaneOf(s.threads[u].pc).value)
    ensures var s := Reached(maxLanes, steps);
            LaneOf(s.threads[t].pc) == LaneOf(s.threads[u].pc)
            && s.threads[t].key in s.table && Some(s.table[s.threads[t].key]) == LaneOf(s.threads[t].pc)
  {
    hide Reached;
    var s := Reached(maxLanes, steps);
    HolderIsMapped(s, t);
    HolderIsMapped(s, u);
  }

  lemma HolderIsMapped(s: State, t: Thread)
    requires Inv(s) && t in s.threads && LaneOf(s.threads[t].pc).Some?
    requires HoldsReference(s.threads[t].pc, LaneOf(s.threads[t].pc).value)
    ensures s.threads[t].key in s.table && Some(s.table[s.threads[t].key]) == LaneOf(s.threads[t].pc)
  {
    var lane := LaneOf(s.threads[t].pc).value;
    assert ThreadOk(s, t);
    assert t in References(s.threads, lane);
    assert s.lanes[lane].references == |References(s.threads, lane)|;
    assert Mapped(s, lane);
  }

  /** Hence at most one allocation per timeline is in flight at any time. */
  lemma OneInFlightPerTimeline(maxLanes: nat, steps: seq<Step>, t: Thread, u: Thread)
    requires var s := Reached(maxLanes, steps);
             t in s.threads && u in s.threads && s.threads[t].key == s.threads[u].key
             && s.threads[t].pc.InFlight? && s.threads[u].pc.InFlight?
    ensures t == u
  {
    LeasesShareOneLane(maxLanes, steps, t, u);
    hide Reached;
    var s := Reached(maxLanes, steps);
    assert ThreadOk(s, t) && ThreadOk(s, u);
  }

  /** Accounting in every reachable state: lanes never exceed slots, slots never exceed the
      limit, and the difference is exactly the requests between a reservation or removal and
      its insertion or release. */
  lemma SlotsAccounted(maxLanes: nat, steps: seq<Step>)
    ensures var s := Reached(maxLanes, steps);
            |s.table| <= s.slots <= maxLanes && s.slots - |s.table| == |Transit(s.threads)|
  {
    hide Reached;
    var s := Reached(maxLanes, steps);
    assert Slots(s);
  }

  /** No idle lane is lost: the key of every mapped lane without references is queued, or
      some request is about to queue it or has popped it and not yet decided. */
  lemma NoIdleLaneLost(maxLanes: nat, steps: seq<Step>, key: string)
    requires var s := Reached(maxLanes, steps); key in s.table && References(s.threads, s.table[key]) == {}
    ensures var s := Reached(maxLanes, steps); Announced(s, key, s.table[key])
  {
    hide Reached;
    var s := Reached(maxLanes, steps);
    assert s.lanes[s.table[key]].references == |References(s.threads, s.table[key])|;
  }
}
