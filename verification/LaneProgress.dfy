/** What becomes of a request for a lane when nobody interferes (src/timeline_proxy.rs:199-313). */
module LaneProgress {
  import opened Common
  import opened Lanes

  // ------------------------------------------------ who is inside a lock

  /** A lifecycle lock is held by a thread that is inside it. */
  ghost predicate LockOwners(s: State) {
    forall lane :: 0 <= lane < |s.lanes| && s.lanes[lane].lifecycle.Some? ==>
      Inside(s, s.lanes[lane].lifecycle.value, lane)
  }

  predicate Inside(s: State, u: Thread, lane: LaneId) {
    u in s.threads && HoldsLifecycle(s.threads[u].pc) && LaneOf(s.threads[u].pc) == Some(lane)
  }

  /** A thread takes a lifecycle lock only to step inside it. */
  lemma ActLocks(s: State, t: Thread)
    requires t in s.threads && ThreadOk(s, t) && Act(s, t).SetLifecycle?
    ensures var e := Act(s, t);
            e.holder.None? || (e.holder == Some(t) && HoldsLifecycle(e.pc) && LaneOf(e.pc) == Some(e.lane))
  {
    hide Mapped;
  }

  lemma ActInRange(s: State, t: Thread)
    requires t in s.threads && ThreadOk(s, t)
    ensures var e := Act(s, t);
            && ((e.SetLifecycle? || e.SetSerialize? || e.AddReference? || e.SubReference?) ==> e.lane < |s.lanes|)
            && (e.PopIdle? ==> s.idle != [])
  {
    hide Mapped;
  }

  /** A lifecycle lock changes only by being taken free or given back. */
  lemma StepLocks(s: State, t: Thread, lane: LaneId)
    requires t in s.threads && ThreadOk(s, t) && lane < |StepThread(s, t).lanes|
    ensures var s' := StepThread(s, t);
            || s'.lanes[lane].lifecycle.None?
            || (lane < |s.lanes| && s'.lanes[lane].lifecycle == s.lanes[lane].lifecycle)
            || (s'.lanes[lane].lifecycle == Some(t) && Inside(s', t, lane))
  {
    hide Act, ThreadOk, LaneOf, HoldsLifecycle;
    ActInRange(s, t);
    if Act(s, t).SetLifecycle? {
      ActLocks(s, t);
    }
  }

  lemma StepOthers(s: State, t: Thread, u: Thread)
    requires Inv(s) && t in s.threads && u != t
    ensures u in StepThread(s, t).threads <==> u in s.threads
    ensures u in s.threads ==> StepThread(s, t).threads[u] == s.threads[u]
  {
    hide Counted, Current, Slots, IdleKnown, LaneOf;
    InvThreadOk(s, t);
  }

  lemma StepOwners(s: State, t: Thread)
    requires Inv(s) && LockOwners(s) && t in s.threads
    ensures LockOwners(StepThread(s, t))
  {
    hide Inv, Act, Apply, StepThread, ThreadOk;
    InvThreadOk(s, t);
    var s' := StepThread(s, t);
    forall lane | 0 <= lane < |s'.lanes| && s'.lanes[lane].lifecycle.Some?
      ensures Inside(s', s'.lanes[lane].lifecycle.value, lane)
    {
      StepLocks(s, t, lane);
      if lane < |s.lanes| && s'.lanes[lane].lifecycle == s.lanes[lane].lifecycle {
        var u := s.lanes[lane].lifecycle.value;
        assert Inside(s, u, lane);
        if u == t { OwnerStays(s, t, lane); } else { StepOthers(s, t, u); }
      }
    }
  }

  /** A thread inside a lock leaves it only by releasing it. */
  lemma OwnerStays(s: State, t: Thread, lane: LaneId)
    requires Inv(s) && t in s.threads && Inside(s, t, lane)
    ensures var s' := StepThread(s, t);
            Inside(s', t, lane) || (lane < |s'.lanes| && s'.lanes[lane].lifecycle.None?)
  {
    hide Counted, Current, Slots, IdleKnown;
    assert ThreadOk(s, t);
  }

  lemma NextOwners(s: State, step: Step)
    requires Inv(s) && LockOwners(s)
    ensures LockOwners(Next(s, step))
  {
    hide Act, Apply, StepThread, ThreadOk, Counted, Current, Slots, IdleKnown;
    var s' := Next(s, step);
    if step.Advance? && step.thread in s.threads {
      StepOwners(s, step.thread);
    } else {
      forall lane | 0 <= lane < |s'.lanes| && s'.lanes[lane].lifecycle.Some?
        ensures Inside(s', s'.lanes[lane].lifecycle.value, lane)
      {
        assert Inside(s, s.lanes[lane].lifecycle.value, lane);
      }
    }
  }

  lemma {:induction false} RunOwners(s: State, steps: seq<Step>)
    requires Inv(s) && LockOwners(s)
    ensures LockOwners(Run(s, steps))
    decreases |steps|
  {
    hide Counted, Current, Slots, IdleKnown, ThreadOk, Next, LockOwners;
    if steps != [] {
      NextKeepsInv(s, steps[0]);
      NextOwners(s, steps[0]);
      RunOwners(Next(s, steps[0]), steps[1..]);
    }
  }

  // ------------------------------------------------ one thread by itself

  /** No other thread is inside a lifecycle lock. */
  ghost predicate Undisturbed(s: State, t: Thread) {
    && Inv(s) && LockOwners(s) && t in s.threads
    && forall u :: u in s.threads && u != t ==> !HoldsLifecycle(s.threads[u].pc)
  }

  lemma StaysUndisturbed(s: State, t: Thread)
    requires Undisturbed(s, t) && t in StepThread(s, t).threads
    ensures Undisturbed(StepThread(s, t), t)
  {
    hide Inv, LockOwners, ThreadOk;
    InvThreadOk(s, t);
    StepKeepsInv(s, t);
    StepOwners(s, t);
  }

  lemma InvThreadOk(s: State, t: Thread)
    requires Inv(s) && t in s.threads
    ensures ThreadOk(s, t)
  {
    hide ThreadOk, Counted, Current, Slots, IdleKnown;
  }

  lemma LockFree(s: State, t: Thread, lane: LaneId)
    requires Undisturbed(s, t) && lane < |s.lanes| && !HoldsLifecycle(s.threads[t].pc)
    ensures s.lanes[lane].lifecycle.None?
  {
    hide Inv;
  }

  /**
   * Stepping only `t`, at most `n` times, it gets a lease of the lane its key maps
   * to (`leased`), or is told that the table is saturated.
   */
  ghost predicate Settles(s: State, t: Thread, n: nat, leased: bool)
    requires Inv(s) && t in s.threads
    decreases n
  {
    InvThreadOk(s, t);
    if s.threads[t].pc.Leased? then
      leased && s.threads[t].key in s.table && s.table[s.threads[t].key] == s.threads[t].pc.lane
    else if Act(s, t).Fail? then !leased
    else
      && n > 0 && t in StepThread(s, t).threads
      && (StepKeepsInv(s, t); Settles(StepThread(s, t), t, n - 1, leased))
  }

  ghost predicate Ends(s: State, t: Thread, leased: bool)
    requires Inv(s) && t in s.threads
  {
    exists n: nat :: Settles(s, t, n, leased)
  }

  /** The two outcomes exclude each other. */
  lemma {:induction false} OneOutcome(s: State, t: Thread, n: nat, m: nat)
    requires Inv(s) && t in s.threads && Settles(s, t, n, true)
    ensures !Settles(s, t, m, false)
    decreases n
  {
    hide Inv, Act, StepThread, ThreadOk;
    InvThreadOk(s, t);
    if Settles(s, t, m, false) && !s.threads[t].pc.Leased? && !Act(s, t).Fail? {
      StepKeepsInv(s, t);
      OneOutcome(StepThread(s, t), t, n - 1, m - 1);
    }
  }

  /** One step towards an outcome. */
  lemma StepEnds(s: State, t: Thread, leased: bool)
    requires Undisturbed(s, t) && ThreadOk(s, t) && !s.threads[t].pc.Leased? && !Act(s, t).Fail?
    requires t in StepThread(s, t).threads && Undisturbed(StepThread(s, t), t) && Ends(StepThread(s, t), t, leased)
    ensures Ends(s, t, leased)
  {
    hide Inv, Act, StepThread, ThreadOk;
    var n: nat :| Settles(StepThread(s, t), t, n, leased);
    assert Settles(s, t, n + 1, leased);
  }

  // The states after each access of an undisturbed thread, one lemma per stretch of code.

  lemma UnlockLeases(s: State, t: Thread)
    requires Undisturbed(s, t) && (s.threads[t].pc.LeaseUnlock? || s.threads[t].pc.Leased?)
    ensures Ends(s, t, true)
  {
    hide Counted, Slots, IdleKnown, LockOwners;
    HolderIsMapped(s, t);
    if s.threads[t].pc.Leased? {
      assert Settles(s, t, 0, true);
    } else {
      StaysUndisturbed(s, t);
      var s' := StepThread(s, t);
      HolderIsMapped(s', t);
      assert Settles(s', t, 0, true);
      StepEnds(s, t, true);
    }
  }

  lemma AddLeases(s: State, t: Thread)
    requires Undisturbed(s, t) && s.threads[t].pc.LeaseAdd?
    ensures Ends(s, t, true)
  {
    hide Counted, Current, Slots, IdleKnown, LockOwners, Settles;
    StaysUndisturbed(s, t);
    UnlockLeases(StepThread(s, t), t);
    StepEnds(s, t, true);
  }

  /** Holding the lifecycle lock of the lane its key maps to, or able to take it. */
  lemma CurrentLaneLeases(s: State, t: Thread)
    requires Undisturbed(s, t) && (s.threads[t].pc.LeaseCheck? || s.threads[t].pc.LeaseLock?)
    requires s.threads[t].key in s.table && s.table[s.threads[t].key] == s.threads[t].pc.lane
    ensures Ends(s, t, true)
    decreases s.threads[t].pc.LeaseLock?
  {
    hide Counted, Current, Slots, IdleKnown, LockOwners, Settles, Ends;
    if s.threads[t].pc.LeaseLock? {
      LockFree(s, t, s.threads[t].pc.lane);
      StaysUndisturbed(s, t);
      CurrentLaneLeases(StepThread(s, t), t);
    } else {
      StaysUndisturbed(s, t);
      AddLeases(StepThread(s, t), t);
    }
    StepEnds(s, t, true);
  }

  /** A request whose key is mapped gets that lane. */
  lemma MappedLeases(s: State, t: Thread)
    requires Undisturbed(s, t) && s.threads[t].pc.LeaseGet? && s.threads[t].key in s.table
    ensures Ends(s, t, true)
  {
    hide Counted, Current, Slots, IdleKnown, LockOwners, Settles, Ends;
    StaysUndisturbed(s, t);
    CurrentLaneLeases(StepThread(s, t), t);
    StepEnds(s, t, true);
  }

  /** A reserved slot becomes a lane, or goes back because the key got one meanwhile. */
  lemma ReservedLeases(s: State, t: Thread)
    requires Undisturbed(s, t)
    requires s.threads[t].pc.Insert? || (s.threads[t].pc.ReleaseReserved? && s.threads[t].key in s.table)
    ensures Ends(s, t, true)
    decreases s.threads[t].pc.Insert?
  {
    hide Counted, Current, Slots, IdleKnown, LockOwners, Settles, Ends;
    StaysUndisturbed(s, t);
    var s' := StepThread(s, t);
    if s.threads[t].pc.ReleaseReserved? {
      MappedLeases(s', t);
    } else if s.threads[t].key in s.table {
      ReservedLeases(s', t);
    } else {
      UnlockLeases(s', t);
    }
    StepEnds(s, t, true);
  }

  /** With a slot free, a request at the head of the loop gets a lease. */
  lemma FreeSlotLeases(s: State, t: Thread)
    requires Undisturbed(s, t) && s.slots < s.maxLanes
    requires s.threads[t].pc.LoadSlots? || s.threads[t].pc.Reserve? || s.threads[t].pc.Recheck?
    ensures Ends(s, t, true)
    decreases if s.threads[t].pc.Recheck? then 3
              else if s.threads[t].pc.Reserve? && s.threads[t].pc.current != s.slots then 2
              else if s.threads[t].pc.LoadSlots? then 1 else 0
  {
    hide Counted, Current, Slots, IdleKnown, LockOwners, Settles, Ends;
    StaysUndisturbed(s, t);
    var s' := StepThread(s, t);
    if s.threads[t].pc.Reserve? && s.threads[t].pc.current == s.slots {
      ReservedLeases(s', t);
    } else {
      FreeSlotLeases(s', t);
    }
    StepEnds(s, t, true);
  }

  // ------------------------------------------------ pruning

  /** A mapped lane that nobody references. */
  predicate IdleLane(s: State, key: string)
    requires Shape(s)
  {
    key in s.table && s.lanes[s.table[key]].references == 0
  }

  /** Where a thread stands once its pruning is over and its key is still unmapped. */
  lemma AfterPruning(s: State, t: Thread)
    requires Undisturbed(s, t) && s.threads[t].pc == LeaseGet(AfterPrune) && s.threads[t].key !in s.table
    ensures Ends(s, t, s.slots < s.maxLanes)
  {
    hide Counted, Current, Slots, IdleKnown, LockOwners, Ends;
    StaysUndisturbed(s, t);
    var s' := StepThread(s, t);
    if s.slots < s.maxLanes {
      FreeSlotLeases(s', t);
    } else {
      SaturatedEnds(s', t);
    }
    StepEnds(s, t, s.slots < s.maxLanes);
  }

  lemma SaturatedEnds(s: State, t: Thread)
    requires Undisturbed(s, t) && s.threads[t].pc.Recheck? && s.slots >= s.maxLanes
    ensures Ends(s, t, false)
  {
    hide Counted, Current, Slots, IdleKnown, LockOwners;
    assert Settles(s, t, 0, false);
  }

  /** The attempts left to a pruning thread, and how far it is from using the present one up. */
  function AttemptsLeft(pc: Pc): nat {
    match pc
    case PrunePop(left) => left
    case PruneGet(left, _) => left
    case PruneLoad(left, _, _) => left
    case PruneLock(left, _, _) => left
    case PruneReload(left, _, _) => left
    case PruneRemove(left, _, _) => left
    case PruneUnlock(left, _, _) => left
    case _ => 0
  }

  function Distance(pc: Pc): nat {
    match pc
    case PrunePop(_) => 7
    case PruneGet(_, _) => 6
    case PruneLoad(_, _, _) => 5
    case PruneLock(_, _, _) => 4
    case PruneReload(_, _, _) => 3
    case PruneRemove(_, _, _) => 2
    case PruneRelease(_) => 1
    case _ => 0
  }

  predicate InPrune(pc: Pc) {
    pc.PrunePop? || Pruning(pc)
  }

  /** A step of the pruning loop stays in it with less left to do, or is back at the table. */
  ghost predicate PrunesOn(s: State, t: Thread)
    requires t in s.threads && ThreadOk(s, t)
  {
    && !Act(s, t).Fail? && t in StepThread(s, t).threads
    && var s', pc := StepThread(s, t), s.threads[t].pc;
    && s'.threads[t].key == s.threads[t].key && s'.slots <= s.slots && s'.maxLanes == s.maxLanes
    && (|| s'.threads[t].pc == LeaseGet(AfterPrune)
        || (&& InPrune(s'.threads[t].pc)
            && (|| AttemptsLeft(s'.threads[t].pc) < AttemptsLeft(pc)
                || (AttemptsLeft(s'.threads[t].pc) == AttemptsLeft(pc) && Distance(s'.threads[t].pc) < Distance(pc)))))
  }

  lemma PruneStepOutside(s: State, t: Thread)
    requires t in s.threads && ThreadOk(s, t)
    requires var pc := s.threads[t].pc;
             pc.PrunePop? || pc.PruneGet? || pc.PruneLoad? || (pc.PruneLock? && s.lanes[pc.lane].lifecycle.None?)
    ensures PrunesOn(s, t)
  {
    hide Mapped;
  }

  lemma PruneStepInside(s: State, t: Thread)
    requires t in s.threads && ThreadOk(s, t)
    requires var pc := s.threads[t].pc; pc.PruneReload? || pc.PruneRemove? || pc.PruneRelease? || pc.PruneUnlock?
    ensures PrunesOn(s, t)
  {
    hide Mapped;
  }

  lemma PruneStep(s: State, t: Thread)
    requires Undisturbed(s, t) && InPrune(s.threads[t].pc)
    ensures ThreadOk(s, t) && PrunesOn(s, t)
  {
    hide Inv, Act, StepThread, ThreadOk, PrunesOn;
    InvThreadOk(s, t);
    if s.threads[t].pc.PruneLock? {
      LaneExists(s, t);
      LockFree(s, t, s.threads[t].pc.lane);
    }
    if HoldsLifecycle(s.threads[t].pc) { PruneStepInside(s, t); } else { PruneStepOutside(s, t); }
  }

  /** With a slot free, a pruning request still gets its lease. */
  lemma {:induction false} PruningLeases(s: State, t: Thread)
    requires Undisturbed(s, t) && InPrune(s.threads[t].pc) && s.slots < s.maxLanes
    ensures Ends(s, t, true)
    decreases AttemptsLeft(s.threads[t].pc), Distance(s.threads[t].pc)
  {
    hide Inv, Act, StepThread, ThreadOk, LockOwners, Ends, AttemptsLeft, Distance;
    PruneStep(s, t);
    StaysUndisturbed(s, t);
    var s' := StepThread(s, t);
    if InPrune(s'.threads[t].pc) {
      PruningLeases(s', t);
    } else if s'.threads[t].key in s'.table {
      MappedLeases(s', t);
    } else {
      AfterPruning(s', t);
    }
    StepEnds(s, t, true);
  }

  /** At a lane that its candidate maps to and nobody references, or already past its removal. */
  predicate Removing(s: State, t: Thread)
    requires t in s.threads && ThreadOk(s, t)
  {
    var pc := s.threads[t].pc;
    || pc.PruneRelease?
    || ((pc.PruneLoad? || pc.PruneLock? || pc.PruneReload? || pc.PruneRemove?)
        && pc.candidate in s.table && s.table[pc.candidate] == pc.lane && s.lanes[pc.lane].references == 0)
  }

  lemma RemovalStep(s: State, t: Thread)
    requires t in s.threads && ThreadOk(s, t) && Removing(s, t)
    requires s.threads[t].pc.PruneLock? ==> s.lanes[s.threads[t].pc.lane].lifecycle.None?
    ensures t in StepThread(s, t).threads
    ensures var s' := StepThread(s, t);
            if s.threads[t].pc.PruneRelease? then s'.threads[t].pc.PruneUnlock? && s'.slots == s.slots - 1
            else && Distance(s'.threads[t].pc) < Distance(s.threads[t].pc)
                 && (ThreadOk(s', t) ==> Removing(s', t))
  {
    hide Mapped;
  }

  /** About to remove an idle lane: a slot becomes free, and the request gets a lease. */
  lemma {:induction false} RemovalLeases(s: State, t: Thread)
    requires Undisturbed(s, t) && ThreadOk(s, t) && Removing(s, t)
    ensures Ends(s, t, true)
    decreases Distance(s.threads[t].pc)
  {
    hide Inv, Act, StepThread, ThreadOk, LockOwners, Ends, Distance, PrunesOn;
    if s.threads[t].pc.PruneLock? {
      LaneExists(s, t);
      LockFree(s, t, s.threads[t].pc.lane);
    }
    PruneStep(s, t);
    RemovalStep(s, t);
    PrunesOnFacts(s, t);
    StaysUndisturbed(s, t);
    var s' := StepThread(s, t);
    InvThreadOk(s', t);
    if s.threads[t].pc.PruneRelease? {
      SlotsWithin(s);
      PruningLeases(s', t);
    } else {
      RemovalLeases(s', t);
    }
    StepEnds(s, t, true);
  }

  lemma PrunesOnFacts(s: State, t: Thread)
    requires t in s.threads && ThreadOk(s, t) && PrunesOn(s, t)
    ensures !Act(s, t).Fail? && t in StepThread(s, t).threads && StepThread(s, t).maxLanes == s.maxLanes
  {
    hide Act, StepThread, ThreadOk;
  }

  lemma SlotsWithin(s: State)
    requires Inv(s)
    ensures s.slots <= s.maxLanes
  {
    hide Shape, Counted, Current, IdleKnown;
  }

  /** One of the first `n` queued keys still names an idle lane. */
  ghost predicate IdleWithin(s: State, n: nat)
    requires Shape(s)
  {
    exists i :: 0 <= i < n && i < |s.idle| && IdleLane(s, s.idle[i])
  }

  lemma IdleWithinNext(s: State, s': State, n: nat)
    requires Shape(s) && Shape(s') && s'.table == s.table && s'.lanes == s.lanes
    requires s.idle != [] && s'.idle == s.idle[1..]
    ensures n > 0 ==> (IdleWithin(s, n) <==> IdleLane(s, s.idle[0]) || IdleWithin(s', n - 1))
  {
    hide ThreadOk;
    if n > 0 && IdleWithin(s, n) && !IdleLane(s, s.idle[0]) {
      var i :| 0 <= i < n && i < |s.idle| && IdleLane(s, s.idle[i]);
      assert s'.idle[i - 1] == s.idle[i];
    }
    if n > 0 && IdleWithin(s', n - 1) {
      var i :| 0 <= i < n - 1 && i < |s'.idle| && IdleLane(s', s'.idle[i]);
      assert s'.idle[i] == s.idle[i + 1];
    }
  }

  /** Where an attempt goes that found nothing to remove. */
  lemma FruitlessAttempt(s: State, t: Thread)
    requires Undisturbed(s, t) && (s.threads[t].pc.PruneGet? || s.threads[t].pc.PruneLoad?)
    requires s.threads[t].pc.PruneGet? ==> s.threads[t].pc.candidate !in s.table
    requires s.threads[t].pc.PruneLoad? ==> s.lanes[s.threads[t].pc.lane].references != 0
    ensures ThreadOk(s, t) && !Act(s, t).Fail?
    ensures StepThread(s, t) == Goto(s, t, PruneNext(s.threads[t].pc.left))
  {
    hide Counted, Current, Slots, IdleKnown, LockOwners, Mapped;
    InvThreadOk(s, t);
  }

  lemma PopStep(s: State, t: Thread)
    requires Undisturbed(s, t) && s.threads[t].pc.PrunePop?
    ensures ThreadOk(s, t)
    ensures s.idle == [] ==> StepThread(s, t) == Goto(s, t, LeaseGet(AfterPrune))
    ensures s.idle != [] ==>
              StepThread(s, t) == Goto(s.(idle := s.idle[1..]), t, PruneGet(s.threads[t].pc.left, s.idle[0]))
  {
    hide Counted, Current, Slots, IdleKnown, LockOwners, Mapped;
    InvThreadOk(s, t);
  }

  lemma GetStep(s: State, t: Thread)
    requires Undisturbed(s, t) && s.threads[t].pc.PruneGet? && s.threads[t].pc.candidate in s.table
    ensures ThreadOk(s, t)
    ensures var pc := s.threads[t].pc;
            StepThread(s, t) == Goto(s, t, PruneLoad(pc.left, pc.candidate, s.table[pc.candidate]))
  {
    hide Counted, Current, Slots, IdleKnown, LockOwners, Mapped;
    InvThreadOk(s, t);
  }

  /** A full table: pruning ends with a lease exactly when an idle lane is among the keys it may pop. */
  lemma {:induction false} PruningDecides(s: State, t: Thread)
    requires Undisturbed(s, t) && s.threads[t].pc.PrunePop? && s.threads[t].key !in s.table && s.slots >= s.maxLanes
    ensures Ends(s, t, IdleWithin(s, s.threads[t].pc.left + 1))
    decreases s.threads[t].pc.left, 2
  {
    hide Counted, Current, Slots, IdleKnown, LockOwners, Ends, ThreadOk, Act, StepThread, Settles;
    var found := IdleWithin(s, s.threads[t].pc.left + 1);
    PruneStep(s, t);
    PopStep(s, t);
    StaysUndisturbed(s, t);
    var s' := StepThread(s, t);
    if s.idle == [] {
      AfterPruning(s', t);
    } else {
      IdleWithinNext(s, s', s.threads[t].pc.left + 1);
      CandidateDecides(s', t);
    }
    StepEnds(s, t, found);
  }

  lemma {:induction false} CandidateDecides(s: State, t: Thread)
    requires Undisturbed(s, t) && s.threads[t].pc.PruneGet? && s.threads[t].key !in s.table && s.slots >= s.maxLanes
    ensures Ends(s, t, IdleLane(s, s.threads[t].pc.candidate) || IdleWithin(s, s.threads[t].pc.left))
    decreases s.threads[t].pc.left, 1
  {
    hide Counted, Current, Slots, IdleKnown, LockOwners, Ends, ThreadOk, Act, StepThread, Settles;
    var pc := s.threads[t].pc;
    var found := IdleLane(s, pc.candidate) || IdleWithin(s, pc.left);
    PruneStep(s, t);
    StaysUndisturbed(s, t);
    var s' := StepThread(s, t);
    if pc.candidate !in s.table {
      FruitlessAttempt(s, t);
      NextAttemptDecides(s', t, pc.left);
      SameIdle(s, s', pc.left);
    } else {
      GetStep(s, t);
      SameIdle(s, s', pc.left);
      if IdleLane(s, pc.candidate) {
        RemovalLeases(s', t);
      } else {
        PruneStep(s', t);
        FruitlessAttempt(s', t);
        StaysUndisturbed(s', t);
        var s'' := StepThread(s', t);
        NextAttemptDecides(s'', t, pc.left);
        SameIdle(s', s'', pc.left);
        StepEnds(s', t, found);
      }
    }
    StepEnds(s, t, found);
  }

  lemma SameIdle(s: State, s': State, n: nat)
    requires Shape(s) && Shape(s') && s'.table == s.table && s'.lanes == s.lanes && s'.idle == s.idle
    ensures IdleWithin(s, n) <==> IdleWithin(s', n)
  {
    hide ThreadOk;
  }

  lemma {:induction false} NextAttemptDecides(s: State, t: Thread, left: nat)
    requires Undisturbed(s, t) && s.threads[t].pc == PruneNext(left)
    requires s.threads[t].key !in s.table && s.slots >= s.maxLanes
    ensures Ends(s, t, IdleWithin(s, left))
    decreases left, 0
  {
    hide Counted, Current, Slots, IdleKnown, LockOwners, Ends, ThreadOk, Act, StepThread, Settles;
    if left == 0 {
      AfterPruning(s, t);
    } else {
      PruningDecides(s, t);
    }
  }

  // ------------------------------------------------ the outcome, exactly

  /** What a lone request needs: its key mapped, a slot free, or an idle lane among the keys it may pop. */
  ghost predicate CanLease(s: State, key: string)
    requires Shape(s)
  {
    key in s.table || s.slots < s.maxLanes || IdleWithin(s, Max(|s.table|, 1))
  }

  /** From the lookup of an unmapped key to the next access. */
  lemma LookupMisses(s: State, t: Thread)
    requires Undisturbed(s, t) && s.threads[t].pc.LeaseGet? && s.threads[t].key !in s.table
    ensures ThreadOk(s, t) && !Act(s, t).Fail? && StepThread(s, t) == Goto(s, t, Resume(s.threads[t].pc.site))
  {
    hide Counted, Current, Slots, IdleKnown, LockOwners;
    InvThreadOk(s, t);
  }

  lemma FullLoad(s: State, t: Thread)
    requires Undisturbed(s, t) && s.threads[t].pc.LoadSlots? && s.slots >= s.maxLanes
    ensures ThreadOk(s, t) && !Act(s, t).Fail? && StepThread(s, t) == Goto(s, t, LeaseGet(BeforePrune))
  {
    hide Counted, Current, Slots, IdleKnown, LockOwners;
    InvThreadOk(s, t);
  }

  lemma CountStep(s: State, t: Thread)
    requires Undisturbed(s, t) && s.threads[t].pc.PruneCount?
    ensures ThreadOk(s, t) && !Act(s, t).Fail?
    ensures StepThread(s, t) == Goto(s, t, PrunePop(Max(|s.table|, 1) - 1))
  {
    hide Counted, Current, Slots, IdleKnown, LockOwners;
    InvThreadOk(s, t);
  }

  /** The full and unmapped case, from the start to the pruning loop. */
  lemma FullTableDecides(s: State, t: Thread)
    requires Undisturbed(s, t) && s.threads[t].pc == LeaseGet(First)
    requires s.threads[t].key !in s.table && s.slots >= s.maxLanes
    ensures Ends(s, t, IdleWithin(s, Max(|s.table|, 1)))
  {
    hide Counted, Current, Slots, IdleKnown, LockOwners, Ends, Settles, IdleWithin, Act, StepThread, ThreadOk;
    var found, n := IdleWithin(s, Max(|s.table|, 1)), Max(|s.table|, 1);
    LookupMisses(s, t);
    StaysUndisturbed(s, t);
    var s1 := StepThread(s, t);
    FullLoad(s1, t);
    StaysUndisturbed(s1, t);
    var s2 := StepThread(s1, t);
    LookupMisses(s2, t);
    StaysUndisturbed(s2, t);
    var s3 := StepThread(s2, t);
    CountStep(s3, t);
    StaysUndisturbed(s3, t);
    var s4 := StepThread(s3, t);
    SameIdle(s, s4, n);
    PruningDecides(s4, t);
    StepEnds(s3, t, found);
    StepEnds(s2, t, found);
    StepEnds(s1, t, found);
    StepEnds(s, t, found);
  }

  /** A lone request is leased a lane if and only if it can be; otherwise it is told that the table is saturated. */
  lemma LoneRequestDecided(s: State, t: Thread)
    requires Undisturbed(s, t) && s.threads[t].pc == LeaseGet(First)
    ensures Ends(s, t, true) <==> CanLease(s, s.threads[t].key)
    ensures Ends(s, t, false) <==> !CanLease(s, s.threads[t].key)
  {
    hide Counted, Current, Slots, IdleKnown, LockOwners, Settles, ThreadOk, Act, StepThread, IdleWithin;
    if s.threads[t].key in s.table {
      MappedLeases(s, t);
    } else if s.slots < s.maxLanes {
      AnyPointLeases(s, t);
    } else {
      FullTableDecides(s, t);
    }
    forall n: nat, m: nat | Settles(s, t, n, true) ensures !Settles(s, t, m, false) {
      OneOutcome(s, t, n, m);
    }
  }

  /** Still on its way to a lease. */
  predicate Acquiring(pc: Pc) {
    || Leasing(pc) || pc.LeaseUnlock? || pc.LoadSlots? || pc.Reserve? || pc.Insert? || pc.Recheck? || pc.PruneCount?
    || InPrune(pc)
  }

  /** With a slot free, a request gets its lease from wherever it stands. */
  lemma {:induction false} AnyPointLeases(s: State, t: Thread)
    requires Undisturbed(s, t) && s.slots < s.maxLanes && Acquiring(s.threads[t].pc)
    ensures Ends(s, t, true)
    decreases Rank(s.threads[t].pc)
  {
    hide Counted, Current, Slots, IdleKnown, LockOwners, Ends, Settles, ThreadOk;
    InvThreadOk(s, t);
    var pc := s.threads[t].pc;
    if pc.LeaseUnlock? {
      UnlockLeases(s, t);
    } else if pc.LeaseAdd? {
      AddLeases(s, t);
    } else if pc.Insert? {
      ReservedLeases(s, t);
    } else if pc.LoadSlots? || pc.Reserve? || pc.Recheck? {
      FreeSlotLeases(s, t);
    } else if InPrune(pc) {
      PruningLeases(s, t);
    } else if pc.LeaseGet? && s.threads[t].key in s.table {
      MappedLeases(s, t);
    } else {
      if pc.LeaseLock? {
        LaneExists(s, t);
        LockFree(s, t, pc.lane);
      }
      RankFalls(s, t);
      StaysUndisturbed(s, t);
      AnyPointLeases(StepThread(s, t), t);
      StepEnds(s, t, true);
    }
  }

  lemma LaneExists(s: State, t: Thread)
    requires t in s.threads && ThreadOk(s, t) && LaneOf(s.threads[t].pc).Some?
    ensures LaneOf(s.threads[t].pc).value < |s.lanes|
  {}

  function Rank(pc: Pc): nat {
    match pc
    case LeaseLock(site, _) => 13 + SiteRank(site)
    case LeaseCheck(site, _) => 12 + SiteRank(site)
    case LeaseGiveUp(site, _) => 11 + SiteRank(site)
    case LeaseGet(site) => 10 + SiteRank(site)
    case PruneCount => 9
    case _ => 0
  }

  function SiteRank(site: Site): nat {
    if site == BeforePrune then 1 else 0
  }

  lemma RankFalls(s: State, t: Thread)
    requires Undisturbed(s, t) && ThreadOk(s, t)
    requires var pc := s.threads[t].pc;
             || pc.PruneCount? || (pc.LeaseGet? && s.threads[t].key !in s.table) || pc.LeaseGiveUp? || pc.LeaseCheck?
             || (pc.LeaseLock? && s.lanes[pc.lane].lifecycle.None?)
    ensures !Act(s, t).Fail? && t in StepThread(s, t).threads
    ensures var s' := StepThread(s, t);
            && Acquiring(s'.threads[t].pc) && Rank(s'.threads[t].pc) < Rank(s.threads[t].pc)
            && s'.slots == s.slots && s'.maxLanes == s.maxLanes
  {
    hide Counted, Current, Slots, IdleKnown, LockOwners, Mapped;
  }

  /**
   * What a lease comes to: with its lane's mutex free the request is in flight next,
   * then gives the mutex and its reference back, and queues its key as idle exactly
   * when that was the last reference.
   */
  lemma LeaseRunsOut(s: State, t: Thread)
    requires Inv(s) && t in s.threads && s.threads[t].pc.Leased?
    ensures ThreadOk(s, t)
    ensures var lane := s.threads[t].pc.lane;
            s.lanes[lane].serialize.None? ==>
              StepThread(s, t) ==
                Goto(s.(lanes := s.lanes[lane := s.lanes[lane].(serialize := Some(t))]), t, InFlight(lane))
  {
    hide Counted, Current, Slots, IdleKnown;
    InvThreadOk(s, t);
  }

  lemma FlightEnds(s: State, t: Thread)
    requires Inv(s) && t in s.threads && s.threads[t].pc.InFlight?
    ensures ThreadOk(s, t)
    ensures var lane := s.threads[t].pc.lane;
            StepThread(s, t) ==
              Goto(s.(lanes := s.lanes[lane := s.lanes[lane].(serialize := None)]), t, DropLease(lane))
  {
    hide Counted, Current, Slots, IdleKnown;
    InvThreadOk(s, t);
  }

  lemma DropQueues(s: State, t: Thread)
    requires Inv(s) && t in s.threads && (s.threads[t].pc.DropLease? || s.threads[t].pc.PushIdle?)
    ensures ThreadOk(s, t)
    ensures var s', pc := StepThread(s, t), s.threads[t].pc;
            if pc.PushIdle? then s' == Finish(s.(idle := s.idle + [s.threads[t].key]), t)
            else && s'.lanes == s.lanes[pc.lane := s.lanes[pc.lane].(references := s.lanes[pc.lane].references - 1)]
                 && s'.idle == s.idle && s'.table == s.table && s'.slots == s.slots
                 && (if s'.lanes[pc.lane].references == 0
                     then s'.threads == s.threads[t := Request(s.threads[t].key, PushIdle)]
                     else s'.threads == s.threads - {t})
  {
    hide Counted, Current, Slots, IdleKnown;
    InvThreadOk(s, t);
  }

  /** From the decision to make room to the last look at the queue. */
  predicate MakingRoom(pc: Pc) {
    || ((pc.LeaseGet? || pc.LeaseLock? || pc.LeaseCheck? || pc.LeaseGiveUp?) && pc.site.BeforePrune?)
    || pc.PruneCount? || InPrune(pc)
  }

  /** No request goes for an idle lane while a slot is free: pruning is entered only with every slot taken. */
  lemma PrunesOnlyWhenFull(s: State, t: Thread)
    requires t in s.threads && ThreadOk(s, t) && !MakingRoom(s.threads[t].pc)
    ensures t in StepThread(s, t).threads && MakingRoom(StepThread(s, t).threads[t].pc) ==> s.slots >= s.maxLanes
  {}

  /** A leased request that is cancelled while waiting for the mutex goes straight to dropping its lease. */
  lemma AbandonDrops(s: State, t: Thread)
    requires Inv(s) && t in s.threads && s.threads[t].pc.Leased?
    ensures Next(s, Abandon(t)) ==
            s.(threads := s.threads[t := Request(s.threads[t].key, DropLease(s.threads[t].pc.lane))])
  {
    hide Counted, Current, Slots, IdleKnown;
  }

  /** A request is refused only when every slot is taken. */
  lemma RefusedOnlyWhenFull(s: State, t: Thread)
    requires t in s.threads && ThreadOk(s, t) && Act(s, t).Fail?
    ensures s.slots >= s.maxLanes && s.threads[t].pc.Recheck?
  {}

  /**
   * In every reachable state in which no other thread is inside a lifecycle lock, a
   * request that starts and is left alone is leased its key's lane if and only if the
   * key is mapped, a slot is free, or an idle lane is among the keys it may pop; and
   * with a slot free a request at any point of its way is.
   */
  lemma ReachableRequestDecided(maxLanes: nat, steps: seq<Step>, t: Thread)
    requires var s := Reached(maxLanes, steps);
             t in s.threads && forall u :: u in s.threads && u != t ==> !HoldsLifecycle(s.threads[u].pc)
    ensures var s := Reached(maxLanes, steps);
            && (s.threads[t].pc == LeaseGet(First) ==> (Ends(s, t, true) <==> CanLease(s, s.threads[t].key))
                                                       && (Ends(s, t, false) <==> !CanLease(s, s.threads[t].key)))
            && (Acquiring(s.threads[t].pc) && s.slots < maxLanes ==> Ends(s, t, true))
  {
    hide Ends, CanLease, Acquiring;
    var s := Reached(maxLanes, steps);
    assert Undisturbed(s, t) by {
      assert Transit(Initial(maxLanes).threads) == {};
      RunOwners(Initial(maxLanes), steps);
    }
    hide Reached;
    if s.threads[t].pc == LeaseGet(First) { LoneRequestDecided(s, t); }
    if Acquiring(s.threads[t].pc) && s.slots < maxLanes { AnyPointLeases(s, t); }
  }
}
