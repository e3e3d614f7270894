/** Handing a timeline from one generator to another: a cap on the old one and a recovery
    floor for the new one keep everything in order (src/runtime/generator_lease.rs:40-53,
    145-155; src/planning.rs:105-115). */
module Handoff {
  import opened Common
  import opened Radix
  import opened Timestamps
  import opened Generators
  import opened Allocation

  /** The part of a persisted generator record that bounds what was issued. */
  datatype GeneratorRecord = GeneratorRecord(lastIssuedTso: Option<u64>, issuedUpperBound: Option<u64>)

  function RecoveryFloor(record: GeneratorRecord): (r: Option<u64>)
    ensures r.None? <==> record.lastIssuedTso.None? && record.issuedUpperBound.None?
    ensures record.issuedUpperBound.Some? ==> record.issuedUpperBound.value <= r.value
    ensures record.lastIssuedTso.Some? ==> record.lastIssuedTso.value <= r.value
    ensures r == record.lastIssuedTso || r == record.issuedUpperBound
  {
    MergeMax(record.lastIssuedTso, record.issuedUpperBound)
  }

  ghost predicate CappedBy(request: Request, cap: nat) {
    request.issuedUpperBound.Some? && request.issuedUpperBound.value <= cap
  }

  /** Everybody under way, and every commit from the `n`-th on, is under the cap. */
  ghost predicate AllCapped(m: Machine, n: nat, cap: nat) {
    && (forall a :: a in m.actors ==> CappedBy(m.actors[a].request, cap))
    && (forall i :: n <= i < |m.commits| ==> CappedBy(m.commits[i].request, cap))
  }

  ghost predicate StepsCapped(steps: seq<Step>, cap: nat) {
    forall i :: 0 <= i < |steps| && steps[i].Begin? ==> CappedBy(steps[i].request, cap)
  }

  lemma {:induction false} RunCapped(who: Identity, m: Machine, n: nat, steps: seq<Step>, cap: nat)
    requires who.Valid() && Inv(who, m) && StepsOk(steps)
    requires AllCapped(m, n, cap) && StepsCapped(steps, cap)
    ensures AllCapped(Run(who, m, steps), n, cap)
    decreases |steps|
  {
    hide Attempt, FloorIndex, InitIndex, Encodable;
    if steps != [] {
      NextKeepsInv(who, m, steps[0]);
      RunCapped(who, Next(who, m, steps[0]), n, steps[1..], cap);
    }
  }

  /** The index, and every commit from the `n`-th on, is at or past `low`. */
  ghost predicate AllAbove(m: Machine, n: nat, low: nat) {
    m.nextIndex >= low && forall i :: n <= i < |m.commits| ==> m.commits[i].plan.start >= low
  }

  lemma {:induction false} RunAbove(who: Identity, m: Machine, n: nat, steps: seq<Step>, low: nat)
    requires who.Valid() && Inv(who, m) && StepsOk(steps) && AllAbove(m, n, low)
    ensures AllAbove(Run(who, m, steps), n, low)
    decreases |steps|
  {
    hide Attempt, FloorIndex, InitIndex, Encodable;
    if steps != [] {
      var step := steps[0];
      NextKeepsInv(who, m, step);
      if step.Exchange? && step.actor in m.actors && m.actors[step.actor].Exchanging? {
        var pc := m.actors[step.actor];
        AttemptShape(who, pc.oldIndex, pc.floorIndex, pc.request);
      }
      RunAbove(who, Next(who, m, step), n, steps[1..], low);
    }
  }

  /** Every issued timestamp belongs to some commit's interval. */
  lemma {:induction false} IssuedFromCommit(who: Identity, commits: seq<Commit>, t: nat) returns (i: nat)
    requires t in Issued(who, commits)
    ensures i < |commits| && t in PlanTsos(who, commits[i].plan)
  {
    if t in PlanTsos(who, commits[|commits| - 1].plan) {
      i := |commits| - 1;
    } else {
      i := IssuedFromCommit(who, commits[..|commits| - 1], t);
    }
  }

  /** What a generator issues in a run, beyond what it had issued before. */
  ghost function IssuedSince(who: Identity, m: Machine, steps: seq<Step>): seq<nat>
    requires who.Valid() && Inv(who, m) && StepsOk(steps)
  {
    Issued(who, Run(who, m, steps).commits[|m.commits|..])
  }

  /** A generator whose requests, those under way included, carry a cap of at most `cap` issues nothing past it. */
  lemma CappedIssue(who: Identity, m: Machine, steps: seq<Step>, cap: nat, t: nat)
    requires who.Valid() && Inv(who, m) && AllCapped(m, |m.commits|, cap)
    requires StepsOk(steps) && StepsCapped(steps, cap)
    requires t in IssuedSince(who, m, steps)
    ensures t <= cap
  {
    hide Attempt, FloorIndex, TsoAt, Identity.Tsos, Encodable, Run;
    RunCapped(who, m, |m.commits|, steps, cap);
    var r := Run(who, m, steps);
    var i := IssuedFromCommit(who, r.commits[|m.commits|..], t);
    var c := r.commits[|m.commits| + i];
    var floorIndex := FloorIndex(who, c.request.floor).value;
    AttemptShape(who, c.oldIndex, floorIndex, c.request);
    AttemptCapped(who, c.oldIndex, floorIndex, c.request);
    LastOfTsos(who, c.plan);
  }

  /** A generator, new or already in use, right after `init_after_floor`. */
  ghost function StartedAfter(who: Identity, m: Machine, floor: u64): (r: Machine)
    requires who.Valid() && Inv(who, m)
    ensures Inv(who, r)
  {
    NextKeepsInv(who, m, InitAfterFloor(floor));
    Next(who, m, InitAfterFloor(floor))
  }

  /** From then on it commits only positions at or past the floor's index, even for callers already under way. */
  lemma CommitsPastFloor(who: Identity, m: Machine, floor: u64, steps: seq<Step>, i: nat)
    requires who.Valid() && Inv(who, m) && StepsOk(steps) && InitIndex(who, floor).Ok?
    requires |m.commits| <= i < |Run(who, StartedAfter(who, m, floor), steps).commits|
    ensures InitIndex(who, floor).value <= Run(who, StartedAfter(who, m, floor), steps).commits[i].plan.start
  {
    hide Attempt, FloorIndex, InitIndex, Encodable, Run;
    RunAbove(who, StartedAfter(who, m, floor), |m.commits|, steps, InitIndex(who, floor).value);
  }

  lemma SameCommits(who: Identity, m: Machine, floor: u64)
    requires who.Valid() && Inv(who, m)
    ensures StartedAfter(who, m, floor).commits == m.commits
  {
    hide InitIndex;
  }

  lemma IssuedFrom(who: Identity, m: Machine, floor: u64, steps: seq<Step>, y: nat)
    requires who.Valid() && Inv(who, m) && StepsOk(steps) && InitIndex(who, floor).Ok?
    requires y in IssuedSince(who, StartedAfter(who, m, floor), steps)
    ensures who.Tso(InitIndex(who, floor).value) <= y
  {
    hide Attempt, FloorIndex, InitIndex, TsoAt, Identity.Tsos, Encodable, Run, StartedAfter;
    SameCommits(who, m, floor);
    var n, k := |m.commits|, InitIndex(who, floor).value;
    var r := Run(who, StartedAfter(who, m, floor), steps);
    var i := IssuedFromCommit(who, r.commits[n..], y);
    var c := r.commits[n + i];
    CommitsPastFloor(who, m, floor, steps, n + i);
    AttemptShape(who, c.oldIndex, FloorIndex(who, c.request.floor).value, c.request);
    TsosIncrease(who, c.plan.start, c.plan.last - c.plan.start + 1);
    TsoAtOrder(who.layout, who.id, c.plan.start, k);
  }

  /** A generator initialised past a floor issues only past it, whatever it did before or does later. */
  lemma FlooredIssue(who: Identity, m: Machine, floor: u64, steps: seq<Step>, t: nat)
    requires who.Valid() && Inv(who, m) && StepsOk(steps) && InitIndex(who, floor).Ok?
    requires t in IssuedSince(who, StartedAfter(who, m, floor), steps)
    ensures t > floor
  {
    hide Attempt, FloorIndex, InitIndex, TsoAt, Issued, Run, StartedAfter;
    IssuedFrom(who, m, floor, steps, t);
    InitPassesFloor(who, floor, InitIndex(who, floor).value);
  }

  /** Handoff: A only issues under `cap`, B starts past the recovery floor of a record whose
      upper bound is at least `cap`.  Everything B issues from then on exceeds everything A
      ever issues, however long A keeps running, whatever B did before and whichever ids the
      two carry. */
  lemma HandoffOrders(a: Identity, aSteps: seq<Step>, cap: nat,
                      record: GeneratorRecord, b: Identity, used: Machine, bSteps: seq<Step>, x: nat, y: nat)
    requires a.Valid() && b.Valid() && StepsOk(aSteps) && StepsOk(bSteps) && Inv(b, used)
    requires StepsCapped(aSteps, cap)
    requires record.issuedUpperBound.Some? && cap <= record.issuedUpperBound.value
    requires InitIndex(b, RecoveryFloor(record).value).Ok?
    requires x in IssuedSince(a, INITIAL, aSteps)
    requires y in IssuedSince(b, StartedAfter(b, used, RecoveryFloor(record).value), bSteps)
    ensures x < y
  {
    hide Attempt, FloorIndex, InitIndex, Issued, Run, StartedAfter, RecoveryFloor;
    CappedIssue(a, INITIAL, aSteps, cap, x);
    FlooredIssue(b, used, RecoveryFloor(record).value, bSteps, y);
  }

  /** One tenure in a chain of handoffs: a generator, possibly in use before, past a floor and under a cap. */
  datatype Tenure = Tenure(who: Identity, used: Machine, floor: u64, cap: nat, steps: seq<Step>)
  {
    ghost predicate Ok() {
      && who.Valid() && Inv(who, used) && AllCapped(used, |used.commits|, cap)
      && StepsOk(steps) && StepsCapped(steps, cap) && InitIndex(who, floor).Ok?
    }

    ghost function Tsos(): seq<nat>
      requires Ok()
    {
      IssuedSince(who, StartedAfter(who, used, floor), steps)
    }
  }

  /** Each floor covers the previous tenure's cap, and floors never decrease. */
  ghost predicate Handovers(tenures: seq<Tenure>) {
    && (forall i :: 0 <= i < |tenures| ==> tenures[i].Ok())
    && (forall i, j :: 0 <= i < j < |tenures| ==> tenures[i].floor <= tenures[j].floor)
    && (forall i, j :: 0 <= i && j == i + 1 && j < |tenures| ==> tenures[i].cap <= tenures[j].floor)
  }

  /** In a chain of any length, every later tenure issues past every earlier one. */
  lemma ChainOrders(tenures: seq<Tenure>, i: nat, j: nat, x: nat, y: nat)
    requires Handovers(tenures) && i < j < |tenures|
    requires x in tenures[i].Tsos() && y in tenures[j].Tsos()
    ensures x < y
  {
    hide Attempt, FloorIndex, InitIndex, Issued, Run, StartedAfter;
    var a, b := tenures[i], tenures[j];
    FlooredIssue(b.who, b.used, b.floor, b.steps, y);
    CappedTenure(a, x);
    assert tenures[i].cap <= tenures[i + 1].floor;
  }

  lemma CappedTenure(tenure: Tenure, t: nat)
    requires tenure.Ok() && t in tenure.Tsos()
    ensures t <= tenure.cap
  {
    hide Attempt, FloorIndex, InitIndex, Encodable, Run;
    CappedIssue(tenure.who, StartedAfter(tenure.who, tenure.used, tenure.floor), tenure.steps, tenure.cap, t);
  }

  // ------------------------------------------------ exactly which caps do

  /** A request under `bound` that takes position `k` or one past it. */
  ghost predicate Overtakes(who: Identity, bound: Option<u64>, k: nat, loaded: u64, request: Request)
    requires who.Valid()
  {
    && request.count >= 1 && request.issuedUpperBound == bound && FloorIndex(who, request.floor).Ok?
    && Attempt(who, loaded, FloorIndex(who, request.floor).value, request).Ok?
    && Attempt(who, loaded, FloorIndex(who, request.floor).value, request).value.last >= k
  }

  /** The successor's first position is out of the predecessor's reach exactly under a bound below it. */
  lemma CapExact(who: Identity, bound: Option<u64>, k: u64)
    requires who.Valid() && k < U64_MAX && Encodable(who, k)
    ensures (exists loaded: u64, request: Request :: Overtakes(who, bound, k, loaded, request))
            <==> bound.None? || who.Tso(k) <= bound.value
  {
    hide Attempt, TsoAt, RequestUpTo;
    if bound.None? || who.Tso(k) <= bound.value {
      ReachesUpTo(who, 0, k, bound);
      assert Overtakes(who, bound, k, 0, RequestUpTo(who, 0, k, bound));
    }
    forall loaded: u64, request: Request | Overtakes(who, bound, k, loaded, request)
      ensures bound.None? || who.Tso(k) <= bound.value
    {
      if bound.Some? {
        var floorIndex := FloorIndex(who, request.floor).value;
        AttemptCapped(who, loaded, floorIndex, request);
        TsoAtOrder(who.layout, who.id, Attempt(who, loaded, floorIndex, request).value.last, k);
      }
    }
  }

  /** Every request of a run carries exactly this bound. */
  ghost predicate StepsCarry(steps: seq<Step>, bound: Option<u64>) {
    forall i :: 0 <= i < |steps| && steps[i].Begin? ==> steps[i].request.issuedUpperBound == bound
  }

  /** One caller alone: begin, load, exchange. */
  ghost function Alone(request: Request): seq<Step> {
    [Begin(0, request), Load(0), Exchange(0)]
  }

  lemma AloneCommits(who: Identity, m: Machine, request: Request, plan: Plan)
    requires who.Valid() && Inv(who, m) && m.actors == map[] && request.count >= 1 && request.floor.None?
    requires Attempt(who, m.nextIndex, 0, request) == Ok(plan)
    ensures StepsOk(Alone(request))
    ensures Run(who, m, Alone(request)).commits
            == m.commits + [Commit(request, m.nextIndex, plan, Encodable(who, plan.last))]
  {
    hide Attempt, Encodable, InitIndex, Run;
    var steps := Alone(request);
    var m1 := Next(who, m, steps[0]);
    NextKeepsInv(who, m, steps[0]);
    var m2 := Next(who, m1, steps[1]);
    NextKeepsInv(who, m1, steps[1]);
    var m3 := Next(who, m2, steps[2]);
    NextKeepsInv(who, m2, steps[2]);
    RunOne(who, m, steps);
    RunOne(who, m1, steps[1..]);
    RunOne(who, m2, steps[1..][1..]);
    RunNone(who, m3, steps[1..][1..][1..]);
  }

  lemma RunOne(who: Identity, m: Machine, steps: seq<Step>)
    requires who.Valid() && Inv(who, m) && StepsOk(steps) && steps != []
    ensures Inv(who, Next(who, m, steps[0]))
    ensures Run(who, m, steps) == Run(who, Next(who, m, steps[0]), steps[1..])
  {
    hide Next, Inv;
    NextKeepsInv(who, m, steps[0]);
  }

  lemma RunNone(who: Identity, m: Machine, steps: seq<Step>)
    requires who.Valid() && Inv(who, m) && steps == []
    ensures Run(who, m, steps) == m
  {
    hide Inv;
  }

  /** The timestamp is in an interval whose ranges a run of the generator returned. */
  ghost predicate ReturnedBy(who: Identity, m: Machine, steps: seq<Step>, t: nat)
    requires who.Valid() && Inv(who, m) && StepsOk(steps)
  {
    exists i :: ReturnedAt(who, m, steps, t, i)
  }

  ghost predicate ReturnedAt(who: Identity, m: Machine, steps: seq<Step>, t: nat, i: int)
    requires who.Valid() && Inv(who, m) && StepsOk(steps)
  {
    && |m.commits| <= i < |Run(who, m, steps).commits|
    && Run(who, m, steps).commits[i].returned && t in PlanTsos(who, Run(who, m, steps).commits[i].plan)
  }

  /** A lone caller can make a generator at or before `k` return position `k`, if the bound allows it. */
  lemma AloneReturns(who: Identity, m: Machine, k: u64, bound: Option<u64>) returns (steps: seq<Step>)
    requires who.Valid() && Inv(who, m) && m.actors == map[] && m.nextIndex <= k < U64_MAX && Encodable(who, k)
    requires bound.Some? ==> who.Tso(k) <= bound.value
    ensures StepsOk(steps) && StepsCarry(steps, bound)
    ensures ReturnedBy(who, m, steps, who.Tso(k))
  {
    hide Attempt, Encodable, InitIndex, Inv, Run, TsoAt, RequestUpTo, Next;
    var request := RequestUpTo(who, m.nextIndex, k, bound);
    ReachesUpTo(who, m.nextIndex, k, bound);
    var plan := Attempt(who, m.nextIndex, 0, request).value;
    steps := Alone(request);
    AloneCommits(who, m, request, plan);
    AttemptShape(who, m.nextIndex, 0, request);
    assert PlanTsos(who, plan)[plan.last - plan.start] == who.Tso(k);
    assert ReturnedAt(who, m, steps, who.Tso(k), |m.commits|);
  }

  /** A returned timestamp is that of an encodable position inside some accepted attempt. */
  lemma ReturnedPosition(who: Identity, m: Machine, steps: seq<Step>, t: nat, i: int) returns (j: u64)
    requires who.Valid() && Inv(who, m) && StepsOk(steps) && ReturnedAt(who, m, steps, t, i)
    ensures var c := Run(who, m, steps).commits[i];
            && c.plan.start <= j <= c.plan.last < U64_MAX && t == who.Tso(j) && Encodable(who, j)
            && (c.request.issuedUpperBound.Some? ==> t <= c.request.issuedUpperBound.value)
  {
    hide Attempt, FloorIndex, TsoAt, Run, Div;
    var c := Run(who, m, steps).commits[i];
    var floorIndex := FloorIndex(who, c.request.floor).value;
    AttemptShape(who, c.oldIndex, floorIndex, c.request);
    var n :| 0 <= n < |PlanTsos(who, c.plan)| && PlanTsos(who, c.plan)[n] == t;
    j := c.plan.start + n;
    DivMonotone(j, c.plan.last, who.Cap());
    if c.request.issuedUpperBound.Some? {
      AttemptCapped(who, c.oldIndex, floorIndex, c.request);
      TsoAtOrder(who.layout, who.id, c.plan.last, j);
    }
  }

  /** Every commit of a run from the start carries the bound its steps carry. */
  lemma {:induction false} RunCarries(who: Identity, m: Machine, steps: seq<Step>, bound: Option<u64>)
    requires who.Valid() && Inv(who, m) && StepsOk(steps) && StepsCarry(steps, bound) && AllCarry(m, bound)
    ensures AllCarry(Run(who, m, steps), bound)
    decreases |steps|
  {
    hide Attempt, FloorIndex, InitIndex, Encodable;
    if steps != [] {
      NextKeepsInv(who, m, steps[0]);
      RunCarries(who, Next(who, m, steps[0]), steps[1..], bound);
    }
  }

  ghost predicate AllCarry(m: Machine, bound: Option<u64>) {
    && (forall a :: a in m.actors ==> m.actors[a].request.issuedUpperBound == bound)
    && (forall i :: 0 <= i < |m.commits| ==> m.commits[i].request.issuedUpperBound == bound)
  }

  /** Whatever the two runs do and wherever the successor was before, its timestamps exceed the predecessor's. */
  ghost predicate HandoffHolds(a: Identity, bound: Option<u64>, b: Identity, floor: u64)
    requires a.Valid() && b.Valid()
  {
    forall aSteps: seq<Step>, used: Machine, bSteps: seq<Step>, x: nat, y: nat ::
      && StepsOk(aSteps) && StepsCarry(aSteps, bound) && Inv(b, used) && StepsOk(bSteps)
      && ReturnedBy(a, INITIAL, aSteps, x) && ReturnedBy(b, StartedAfter(b, used, floor), bSteps, y)
      ==> x < y
  }

  /** A position of the predecessor, allowed by its bound, whose timestamp is not below the successor's first. */
  ghost predicate Overlap(a: Identity, bound: Option<u64>, b: Identity, k: u64, j: u64) {
    && k < U64_MAX && Encodable(b, k) && j < U64_MAX && Encodable(a, j)
    && (bound.Some? ==> a.Tso(j) <= bound.value) && b.Tso(k) <= a.Tso(j)
  }

  /**
   * The handoff law over all runs of two generators, with equal or different ids,
   * holds exactly when no position the predecessor's bound allows reaches the
   * successor's first one.
   */
  lemma HandoffOrdersIff(a: Identity, bound: Option<u64>, b: Identity, floor: u64)
    requires a.Valid() && b.Valid() && InitIndex(b, floor).Ok?
    ensures HandoffHolds(a, bound, b, floor)
            <==> !exists j: u64 :: Overlap(a, bound, b, InitIndex(b, floor).value, j)
  {
    hide Attempt, Encodable, InitIndex, TsoAt, Run, ReturnedBy, Overlap;
    var k := InitIndex(b, floor).value;
    if j: u64 :| Overlap(a, bound, b, k, j) {
      OverlapBreaks(a, bound, b, floor, j);
    } else {
      forall aSteps: seq<Step>, used: Machine, bSteps: seq<Step>, x: nat, y: nat
        | && StepsOk(aSteps) && StepsCarry(aSteps, bound) && Inv(b, used) && StepsOk(bSteps)
          && ReturnedBy(a, INITIAL, aSteps, x) && ReturnedBy(b, StartedAfter(b, used, floor), bSteps, y)
        ensures x < y
      {
        var j := ReturnedUnder(a, aSteps, bound, x);
        ReturnedFrom(b, used, floor, bSteps, y);
        assert !Overlap(a, bound, b, k, j);
        NoOverlap(a, bound, b, k, j);
      }
    }
  }

  lemma NoOverlap(a: Identity, bound: Option<u64>, b: Identity, k: u64, j: u64)
    requires !Overlap(a, bound, b, k, j) && k < U64_MAX && Encodable(b, k) && j < U64_MAX && Encodable(a, j)
    requires bound.Some? ==> a.Tso(j) <= bound.value
    ensures a.Tso(j) < b.Tso(k)
  {
    hide TsoAt, Encodable;
  }

  lemma ReturnedUnder(a: Identity, steps: seq<Step>, bound: Option<u64>, x: nat) returns (j: u64)
    requires a.Valid() && StepsOk(steps) && StepsCarry(steps, bound) && ReturnedBy(a, INITIAL, steps, x)
    ensures x == a.Tso(j) && j < U64_MAX && Encodable(a, j) && (bound.Some? ==> x <= bound.value)
  {
    hide Run, TsoAt, Encodable;
    var i :| ReturnedAt(a, INITIAL, steps, x, i);
    j := ReturnedPosition(a, INITIAL, steps, x, i);
    RunCarries(a, INITIAL, steps, bound);
  }

  lemma ReturnedFrom(b: Identity, used: Machine, floor: u64, steps: seq<Step>, y: nat)
    requires b.Valid() && Inv(b, used) && StepsOk(steps) && InitIndex(b, floor).Ok?
    requires ReturnedBy(b, StartedAfter(b, used, floor), steps, y)
    ensures var k := InitIndex(b, floor).value; b.Tso(k) <= y && k < U64_MAX && Encodable(b, k)
  {
    hide Run, TsoAt, Inv, StartedAfter, InitIndex, Div;
    SameCommits(b, used, floor);
    var i :| ReturnedAt(b, StartedAfter(b, used, floor), steps, y, i);
    var k := InitIndex(b, floor).value;
    var j := ReturnedPosition(b, StartedAfter(b, used, floor), steps, y, i);
    CommitsPastFloor(b, used, floor, steps, i);
    DivMonotone(k, j, b.Cap());
    TsoAtOrder(b.layout, b.id, j, k);
  }

  lemma OverlapBreaks(a: Identity, bound: Option<u64>, b: Identity, floor: u64, j: u64)
    requires a.Valid() && b.Valid() && InitIndex(b, floor).Ok?
    requires Overlap(a, bound, b, InitIndex(b, floor).value, j)
    ensures !HandoffHolds(a, bound, b, floor)
  {
    hide Attempt, Encodable, InitIndex, TsoAt, Run, ReturnedBy;
    var k := InitIndex(b, floor).value;
    var aSteps := AloneReturns(a, INITIAL, j, bound);
    var bSteps := AloneReturns(b, StartedAfter(b, INITIAL, floor), k, None);
    assert ReturnedBy(a, INITIAL, aSteps, a.Tso(j)) && Inv(b, INITIAL);
    assert ReturnedBy(b, StartedAfter(b, INITIAL, floor), bSteps, b.Tso(k));
  }

  /** With one id the condition is a bound below the successor's first position. */
  lemma SameIdOverlapIff(who: Identity, bound: Option<u64>, k: u64)
    requires who.Valid() && k < U64_MAX && Encodable(who, k)
    ensures (exists j: u64 :: Overlap(who, bound, who, k, j)) <==> bound.None? || who.Tso(k) <= bound.value
  {
    hide Encodable, TsoAt;
    if bound.None? || who.Tso(k) <= bound.value {
      assert Overlap(who, bound, who, k, k);
    }
  }
}
