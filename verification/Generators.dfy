/** Timestamp allocation on a lock-free index (src/runtime/generator_lease.rs:1-207).

    `Attempt` is one pass of the allocation loop up to its compare-exchange.  `Machine`
    runs any number of allocators over one shared index, with the load, the exchange and
    the recovery-floor initialisation as separate steps. */
module Generators {
  import opened Common
  import opened Radix
  import opened Timestamps

  const MAX_GENERATOR_CONTENTION_RETRIES: nat := 32

  datatype Identity = Identity(layout: TimestampLayout, id: nat)
  {
    predicate Valid() {
      layout.Valid() && id < layout.MaxGenerators()
    }

    function Cap(): (r: nat)
      ensures r >= 1
    {
      layout.SequenceCapacity()
    }

    /** The physical part of a position. */
    function Millisecond(index: nat): nat {
      Div(index, Cap())
    }

    function Tso(index: nat): nat {
      TsoAt(layout, id, index)
    }

    /** Every timestamp of the positions `start .. start + count`. */
    function Tsos(start: nat, count: nat): (s: seq<nat>)
      ensures |s| == count && forall i :: 0 <= i < count ==> s[i] == Tso(start + i)
    {
      seq<nat>(count, (i: nat) => Tso(start + i))
    }
  }

  datatype Request = Request(
    count: nat,
    floor: Option<u64>,
    nowMs: u64,
    maxFutureBorrowMs: u64,
    maxClockRewindMs: u64,
    issuedUpperBound: Option<u64>)

  /** The positions `start ..= last` an attempt asks the exchange for. */
  datatype Plan = Plan(start: nat, last: nat)

  /** The sequence capacity as a word: 1 << sequence_bits with at most 31 bits. */
  lemma CapFits(who: Identity)
    requires who.Valid()
    ensures who.Cap() <= 0x8000_0000
  {
    Pow2Monotone(who.layout.sequenceBits, 31);
    Pow2At16();
    Pow2Add(16, 15);
  }

  /** The index of the first position past a floor, without word overflow. */
  function CursorWord(who: Identity, floor: u64): Result<Option<u64>>
    requires who.Valid()
  {
    var cursor := NextCursorAfter(who.layout, floor, who.id);
    if cursor.Err? then Err(cursor.error) else
      CapFits(who);
      var physicalMs: int := cursor.value.physicalMs;
      if physicalMs > U64_MAX then Ok(None) else
        var scaled := CheckedMul(physicalMs, who.Cap());
        Ok(if scaled.None? || cursor.value.sequence > U64_MAX then None
           else CheckedAdd(scaled.value, cursor.value.sequence))
  }

  /** `init_after_floor`'s index; overflow is an error. */
  function InitIndex(who: Identity, floor: u64): Result<u64>
    requires who.Valid()
  {
    var word := CursorWord(who, floor);
    if word.Err? then Err(word.error)
    else if word.value.None? then Err(TsoOverflow)
    else Ok(word.value.value)
  }

  /** `allocate_after`'s floor index; overflow saturates. */
  function FloorIndex(who: Identity, floor: Option<u64>): Result<u64>
    requires who.Valid()
  {
    match floor
    case None => Ok(0)
    case Some(value) =>
      var word := CursorWord(who, value);
      if word.Err? then Err(word.error)
      else if word.value.None? then Ok(U64_MAX)
      else Ok(word.value.value)
  }

  /** One pass of the allocation loop, from the loaded index to the exchange it will try. */
  function Attempt(who: Identity, oldIndex: u64, floorIndex: u64, request: Request): Result<Plan>
    requires who.Valid() && request.count >= 1
  {
    CapFits(who);
    var cap := who.Cap();
    var currentPhysicalMs := Div(oldIndex, cap);
    if request.nowMs < currentPhysicalMs && currentPhysicalMs - request.nowMs > request.maxClockRewindMs then
      Err(ClockBackwards(currentPhysicalMs - request.nowMs))
    else
      DivAtMost(oldIndex, cap);
      var effectiveNowMs := Max(request.nowMs, currentPhysicalMs);
      var allowedPhysicalMs := Max(currentPhysicalMs, SaturatingAdd(request.nowMs, request.maxFutureBorrowMs));
      var baseIndex := Max(oldIndex, SaturatingMul(effectiveNowMs, cap));
      var startIndex := Max(baseIndex, floorIndex);
      if Div(startIndex, cap) > allowedPhysicalMs then
        Err(FutureBorrowExceeded(Div(startIndex, cap), allowedPhysicalMs))
      else if startIndex + request.count > U64_MAX then
        Err(TsoOverflow)
      else
        var lastIndex := startIndex + request.count - 1;
        var lastPhysicalMs := Div(lastIndex, cap);
        if lastPhysicalMs > allowedPhysicalMs then
          Err(FutureBorrowExceeded(lastPhysicalMs, allowedPhysicalMs))
        else if request.issuedUpperBound.None? then
          Ok(Plan(startIndex, lastIndex))
        else
          var requestedEndTso := who.layout.Encode(lastPhysicalMs, who.id, Mod(lastIndex, cap));
          if requestedEndTso.Err? then Err(requestedEndTso.error)
          else if requestedEndTso.value > request.issuedUpperBound.value then
            Err(IssuedUpperBoundExceeded(requestedEndTso.value, request.issuedUpperBound.value))
          else
            Ok(Plan(startIndex, lastIndex))
  }

  lemma DivAtMost(x: nat, d: nat)
    requires d >= 1
    ensures Div(x, d) <= x
  {
    MulMonotone(1, d, Div(x, d));
  }

  // ------------------------------------------------------------ one attempt

  /** What every accepted attempt guarantees, from the words alone. */
  lemma AttemptShape(who: Identity, loaded: u64, floorIndex: u64, request: Request)
    requires who.Valid() && request.count >= 1
    requires Attempt(who, loaded, floorIndex, request).Ok?
    ensures var p := Attempt(who, loaded, floorIndex, request).value;
            loaded <= p.start && floorIndex <= p.start
            && p.last == p.start + request.count - 1 && p.last < U64_MAX
  {
    hide Div, Mod, TimestampLayout.Compose, SaturatingMul, SaturatingAdd;
  }

  /** The first position past the loaded index, the clock reading and the floor, without word limits. */
  function StartOf(who: Identity, loaded: nat, floorIndex: nat, nowMs: nat): nat {
    Max(Max(loaded, nowMs * who.Cap()), floorIndex)
  }

  /** What the source promises of a request it serves: clock, word, borrowing allowance and bound all agree. */
  predicate Admissible(who: Identity, loaded: nat, floorIndex: nat, request: Request)
    requires request.count >= 1
  {
    var last := StartOf(who, loaded, floorIndex, request.nowMs) + request.count - 1;
    && who.Millisecond(loaded) <= request.nowMs + request.maxClockRewindMs
    && last < U64_MAX
    && who.Millisecond(last) <= Max(who.Millisecond(loaded), request.nowMs + request.maxFutureBorrowMs)
    && (request.issuedUpperBound.Some? ==> Encodable(who, last) && who.Tso(last) <= request.issuedUpperBound.value)
  }

  lemma EffectiveStart(who: Identity, loaded: u64, floorIndex: u64, nowMs: u64)
    requires who.Valid()
    ensures who.Cap() <= U64_MAX && who.Millisecond(loaded) <= U64_MAX
    ensures var effective := Max(nowMs, who.Millisecond(loaded));
            var start := Max(Max(loaded, SaturatingMul(effective, who.Cap())), floorIndex);
            if StartOf(who, loaded, floorIndex, nowMs) <= U64_MAX then start == StartOf(who, loaded, floorIndex, nowMs)
            else start == U64_MAX
  {
    hide Div, SaturatingMul, Pow2;
    var cap, ms := who.Cap(), who.Millisecond(loaded);
    CapFits(who);
    DivAtMost(loaded, cap);
    var effective := Max(nowMs, ms);
    SaturatedMul(effective, cap);
  }

  lemma SaturatedMul(a: u64, b: u64)
    ensures SaturatingMul(a, b) == if a * b <= U64_MAX then a * b else U64_MAX
  {}

  /** Exactly the admissible requests are served, from the first position there is. */
  lemma AttemptExact(who: Identity, loaded: u64, floorIndex: u64, request: Request)
    requires who.Valid() && request.count >= 1
    ensures Attempt(who, loaded, floorIndex, request).Ok? <==> Admissible(who, loaded, floorIndex, request)
    ensures Attempt(who, loaded, floorIndex, request).Ok? ==>
              var start := StartOf(who, loaded, floorIndex, request.nowMs);
              Attempt(who, loaded, floorIndex, request).value == Plan(start, start + request.count - 1)
  {
    hide Div, Mod, Pow2, TimestampLayout.Compose, SaturatingMul, StartOf;
    CapFits(who);
    DivAtMost(loaded, who.Cap());
    EffectiveStart(who, loaded, floorIndex, request.nowMs);
    var start := StartOf(who, loaded, floorIndex, request.nowMs);
    if start + request.count <= U64_MAX {
      DivMonotone(start, start + request.count - 1, who.Cap());
      DivAtMost(start + request.count - 1, who.Cap());
    }
  }

  /** What a refusal tells the caller. */
  ghost predicate ErrorExplains(who: Identity, loaded: u64, start: nat, request: Request, error: TsoError)
    requires request.count >= 1
  {
    var last := start + request.count - 1;
    match error
    case ClockBackwards(delta) => who.Millisecond(loaded) == request.nowMs + delta && delta > request.maxClockRewindMs
    case FutureBorrowExceeded(requested, allowed) =>
      && allowed == Max(who.Millisecond(loaded), Min(request.nowMs + request.maxFutureBorrowMs, U64_MAX)) < requested
      && (start <= U64_MAX ==> requested == who.Millisecond(start) || requested == who.Millisecond(last))
    case IssuedUpperBoundExceeded(end, bound) =>
      request.issuedUpperBound == Some(bound) && end == who.Tso(last) && bound < end
    case TsoOverflow =>
      last >= U64_MAX || (request.issuedUpperBound.Some? && !Encodable(who, last))
    case _ => false
  }

  /** Every refusal names its cause and the values that show it. */
  lemma AttemptErrors(who: Identity, loaded: u64, floorIndex: u64, request: Request)
    requires who.Valid() && request.count >= 1 && Attempt(who, loaded, floorIndex, request).Err?
    ensures ErrorExplains(who, loaded, StartOf(who, loaded, floorIndex, request.nowMs), request,
                          Attempt(who, loaded, floorIndex, request).error)
  {
    hide Div, Mod, Pow2, TimestampLayout.Compose, SaturatingMul, StartOf;
    CapFits(who);
    DivAtMost(loaded, who.Cap());
    EffectiveStart(who, loaded, floorIndex, request.nowMs);
  }

  /** Clock window of an accepted attempt: its first position is not before the clock
      reading and its last one is at most the larger allowance past it. */
  lemma AttemptWindow(who: Identity, loaded: u64, floorIndex: u64, request: Request)
    requires who.Valid() && request.count >= 1
    requires Attempt(who, loaded, floorIndex, request).Ok?
    ensures var p := Attempt(who, loaded, floorIndex, request).value;
            request.nowMs * who.Cap() <= p.start
            && who.Millisecond(p.last)
               <= request.nowMs + Max(request.maxFutureBorrowMs, request.maxClockRewindMs)
  {
    hide Div, Mod, TimestampLayout.Compose, SaturatingMul;
    AttemptShape(who, loaded, floorIndex, request);
    CapFits(who);
    DivAtMost(loaded, who.Cap());
    var p := Attempt(who, loaded, floorIndex, request).value;
    var effective := Max(request.nowMs, Div(loaded, who.Cap()));
    SaturatedUnlessExact(effective, who.Cap());
    MulMonotone(request.nowMs, effective, who.Cap());
  }

  lemma SaturatedUnlessExact(a: u64, b: u64)
    ensures SaturatingMul(a, b) == U64_MAX || SaturatingMul(a, b) == a * b
  {}

  /** An accepted capped attempt stays at or below its cap. */
  lemma AttemptCapped(who: Identity, loaded: u64, floorIndex: u64, request: Request)
    requires who.Valid() && request.count >= 1
    requires Attempt(who, loaded, floorIndex, request).Ok?
    requires request.issuedUpperBound.Some?
    ensures who.Tso(Attempt(who, loaded, floorIndex, request).value.last) <= request.issuedUpperBound.value
  {
    hide Div, Mod, TimestampLayout.Compose, SaturatingMul, SaturatingAdd;
  }

  /** Under a bound the end of an accepted attempt was encoded, so the range loop cannot fail. */
  lemma AttemptEncodable(who: Identity, loaded: u64, floorIndex: u64, request: Request)
    requires who.Valid() && request.count >= 1
    requires Attempt(who, loaded, floorIndex, request).Ok?
    requires request.issuedUpperBound.Some?
    ensures Encodable(who, Attempt(who, loaded, floorIndex, request).value.last)
  {
    hide Div, Mod, TimestampLayout.Compose, SaturatingMul, SaturatingAdd;
  }

  /** A start index at or past a floor's index lies past the floor. */
  lemma PastFloor(who: Identity, floor: u64, index: nat)
    requires who.Valid()
    requires FloorIndex(who, Some(floor)).Ok? && FloorIndex(who, Some(floor)).value <= index < U64_MAX
    ensures who.Tso(index) > floor
  {
    CursorWordExact(who, floor);
    NextCursorIsLeast(who.layout, floor, who.id, index);
  }

  /** A floor's index is the least one past the floor; it saturates exactly when none fits the word. */
  lemma FloorIndexExact(who: Identity, floor: u64, index: nat)
    requires who.Valid()
    ensures FloorIndex(who, None) == Ok(0) && FloorIndex(who, Some(floor)).Ok?
    ensures index < U64_MAX ==> (who.Tso(index) > floor <==> FloorIndex(who, Some(floor)).value <= index)
    ensures InitIndex(who, floor).Ok? ==> (who.Tso(index) > floor <==> InitIndex(who, floor).value <= index)
    ensures InitIndex(who, floor).Err? ==> InitIndex(who, floor) == Err(TsoOverflow) && who.Tso(U64_MAX) <= floor
  {
    hide CursorWord, TsoAt, NextCursorAfter, CursorIndex;
    CursorWordExact(who, floor);
    NextCursorIsLeast(who.layout, floor, who.id, index);
    NextCursorIsLeast(who.layout, floor, who.id, U64_MAX);
  }

  /** The word form of a floor's cursor is its index, or nothing when that needs more than 64 bits. */
  lemma CursorWordExact(who: Identity, floor: u64)
    requires who.Valid()
    ensures NextCursorAfter(who.layout, floor, who.id).Ok?
    ensures var index := CursorIndex(who.layout, NextCursorAfter(who.layout, floor, who.id).value);
            CursorWord(who, floor) == Ok(if index <= U64_MAX then Some(index) else None)
  {
    hide Div, Mod, TimestampLayout.Compose, NextCursorAfter;
    NextCursorInRange(who.layout, floor, who.id);
    CapFits(who);
    Pow2Monotone(who.layout.physicalBits, 63);
    Pow2At64();
    MulNonNegative(NextCursorAfter(who.layout, floor, who.id).value.physicalMs, who.Cap());
  }

  /** Asking at position `k`'s own millisecond for everything up to `k`. */
  function RequestUpTo(who: Identity, loaded: u64, k: u64, bound: Option<u64>): (request: Request)
    requires loaded <= k
    ensures request.count >= 1 && request.floor.None? && request.issuedUpperBound == bound
    ensures request.nowMs == who.Millisecond(k)
  {
    DivAtMost(k, who.Cap());
    Request(k - Max(loaded, who.Millisecond(k) * who.Cap()) + 1, None, who.Millisecond(k), 0, 0, bound)
  }

  lemma ExactProduct(a: u64, b: u64, c: u64)
    requires a * b <= c
    ensures SaturatingMul(a, b) == a * b
  {}

  /** Any position at or past the loaded index can be reached in one attempt, unless the bound forbids it. */
  lemma ReachesUpTo(who: Identity, loaded: u64, k: u64, bound: Option<u64>)
    requires who.Valid() && loaded <= k < U64_MAX && Encodable(who, k)
    requires bound.Some? ==> who.Tso(k) <= bound.value
    ensures Attempt(who, loaded, 0, RequestUpTo(who, loaded, k, bound)) ==
            Ok(Plan(Max(loaded, who.Millisecond(k) * who.Cap()), k))
  {
    hide Div, Mod, Pow2, TimestampLayout.Compose, TimestampLayout.SequenceCapacity, SaturatingMul;
    var cap, ms := who.Cap(), who.Millisecond(k);
    CapFits(who);
    DivAtMost(k, cap);
    DivMonotone(loaded, k, cap);
    DivMonotone(Max(loaded, ms * cap), k, cap);
    ExactProduct(ms, cap, k);
  }

  // ------------------------------------------- many allocators, one index

  /** An allocator between two accesses of the shared index. */
  datatype Pc =
    | Loading(request: Request, floorIndex: u64, retries: nat)
    | Exchanging(request: Request, floorIndex: u64, retries: nat, oldIndex: u64, plan: Plan)

  /** A successful exchange; its ranges are returned unless an encode failed afterwards. */
  datatype Commit = Commit(request: Request, oldIndex: u64, plan: Plan, returned: bool)

  datatype Machine = Machine(nextIndex: u64, actors: map<nat, Pc>, commits: seq<Commit>)

  datatype Step =
    | Begin(actor: nat, request: Request)
    | Load(actor: nat)
    | Exchange(actor: nat)
    | InitAfterFloor(floor: u64)

  const INITIAL := Machine(0, map[], [])

  ghost predicate RequestOk(request: Request) {
    request.count >= 1
  }

  /** The timestamps of the last position can be encoded, so the range loop succeeds. */
  predicate Encodable(who: Identity, last: nat) {
    who.Millisecond(last) <= who.layout.MaxPhysicalMs()
  }

  ghost predicate PcOk(who: Identity, pc: Pc)
    requires who.Valid()
  {
    RequestOk(pc.request)
    && FloorIndex(who, pc.request.floor) == Ok(pc.floorIndex)
    && (pc.Exchanging? ==> Attempt(who, pc.oldIndex, pc.floorIndex, pc.request) == Ok(pc.plan))
  }

  ghost predicate CommitOk(who: Identity, c: Commit)
    requires who.Valid()
  {
    RequestOk(c.request)
    && FloorIndex(who, c.request.floor).Ok?
    && Attempt(who, c.oldIndex, FloorIndex(who, c.request.floor).value, c.request) == Ok(c.plan)
    && c.returned == Encodable(who, c.plan.last)
  }

  /** Commits are in order, each wholly before the next and all before the shared index. */
  ghost predicate Ordered(m: Machine) {
    && (forall i, j :: 0 <= i < j < |m.commits| ==> m.commits[i].plan.last < m.commits[j].plan.start)
    && (forall i :: 0 <= i < |m.commits| ==> m.commits[i].plan.last < m.nextIndex)
  }

  ghost predicate Inv(who: Identity, m: Machine)
    requires who.Valid()
  {
    && (forall a :: a in m.actors ==> PcOk(who, m.actors[a]))
    && (forall i :: 0 <= i < |m.commits| ==> CommitOk(who, m.commits[i]))
    && Ordered(m)
  }

  /** One atomic step; a step that is not enabled leaves the machine alone. */
  function Next(who: Identity, m: Machine, step: Step): Machine
    requires who.Valid() && Inv(who, m)
    requires step.Begin? ==> RequestOk(step.request)
  {
    match step
    case Begin(a, request) =>
      var floorIndex := FloorIndex(who, request.floor);
      if a in m.actors || floorIndex.Err? then m
      else m.(actors := m.actors[a := Loading(request, floorIndex.value, 0)])
    case Load(a) =>
      if a !in m.actors || !m.actors[a].Loading? then m else
        var pc := m.actors[a];
        var plan := Attempt(who, m.nextIndex, pc.floorIndex, pc.request);
        if plan.Err? then m.(actors := m.actors - {a})
        else m.(actors := m.actors[a := Exchanging(pc.request, pc.floorIndex, pc.retries, m.nextIndex, plan.value)])
    case Exchange(a) =>
      if a !in m.actors || !m.actors[a].Exchanging? then m else
        var pc := m.actors[a];
        if m.nextIndex == pc.oldIndex then
          AttemptShape(who, pc.oldIndex, pc.floorIndex, pc.request);
          Machine(pc.plan.last + 1, m.actors - {a},
                  m.commits + [Commit(pc.request, pc.oldIndex, pc.plan, Encodable(who, pc.plan.last))])
        else if pc.retries + 1 >= MAX_GENERATOR_CONTENTION_RETRIES then
          m.(actors := m.actors - {a})
        else
          m.(actors := m.actors[a := Loading(pc.request, pc.floorIndex, pc.retries + 1)])
    case InitAfterFloor(floor) =>
      var index := InitIndex(who, floor);
      if index.Err? then m else m.(nextIndex := Max(m.nextIndex, index.value))
  }

  /** Every step keeps the invariant and never moves the shared index back. */
  lemma NextKeepsInv(who: Identity, m: Machine, step: Step)
    requires who.Valid() && Inv(who, m)
    requires step.Begin? ==> RequestOk(step.request)
    ensures Inv(who, Next(who, m, step))
    ensures m.nextIndex <= Next(who, m, step).nextIndex
    ensures m.commits <= Next(who, m, step).commits
  {
    hide Attempt, FloorIndex, InitIndex, Encodable;
    if step.Exchange? && step.actor in m.actors && m.actors[step.actor].Exchanging? {
      var pc := m.actors[step.actor];
      AttemptShape(who, pc.oldIndex, pc.floorIndex, pc.request);
    }
  }

  /** An exchange commits iff nobody moved the index since the load; a loser loads again until the 32nd loss. */
  lemma ExchangeExact(who: Identity, m: Machine, a: nat)
    requires who.Valid() && Inv(who, m) && a in m.actors && m.actors[a].Exchanging?
    ensures var m', pc := Next(who, m, Exchange(a)), m.actors[a];
            if m.nextIndex == pc.oldIndex then
              && m'.commits == m.commits + [Commit(pc.request, pc.oldIndex, pc.plan, Encodable(who, pc.plan.last))]
              && m'.nextIndex == pc.plan.last + 1 && m'.actors == m.actors - {a}
            else
              && m'.commits == m.commits && m'.nextIndex == m.nextIndex && m'.actors - {a} == m.actors - {a}
              && (a in m'.actors <==> pc.retries < 31)
              && (a in m'.actors ==> m'.actors[a] == Loading(pc.request, pc.floorIndex, pc.retries + 1))
  {
    hide Encodable, Attempt;
  }

  /** A free actor always gets to its first load, past the floor it was given; a floor never makes a call fail. */
  lemma BeginExact(who: Identity, m: Machine, a: nat, request: Request)
    requires who.Valid() && Inv(who, m) && RequestOk(request) && a !in m.actors
    ensures FloorIndex(who, request.floor).Ok?
    ensures Next(who, m, Begin(a, request)) ==
            m.(actors := m.actors[a := Loading(request, FloorIndex(who, request.floor).value, 0)])
  {
    hide Attempt, FloorIndex, Encodable;
    FloorIndexExact(who, if request.floor.Some? then request.floor.value else 0, 0);
  }

  /** A load keeps its caller going iff the request is admissible at the index it read. */
  lemma LoadExact(who: Identity, m: Machine, a: nat)
    requires who.Valid() && Inv(who, m) && a in m.actors && m.actors[a].Loading?
    ensures var m', pc := Next(who, m, Load(a)), m.actors[a];
            && m'.commits == m.commits && m'.nextIndex == m.nextIndex && m'.actors - {a} == m.actors - {a}
            && (a in m'.actors <==> Admissible(who, m.nextIndex, pc.floorIndex, pc.request))
            && (a in m'.actors ==>
                  var start := StartOf(who, m.nextIndex, pc.floorIndex, pc.request.nowMs);
                  m'.actors[a] == Exchanging(pc.request, pc.floorIndex, pc.retries, m.nextIndex,
                                             Plan(start, start + pc.request.count - 1)))
  {
    hide Admissible, StartOf, Attempt;
    assert PcOk(who, m.actors[a]);
    AttemptExact(who, m.nextIndex, m.actors[a].floorIndex, m.actors[a].request);
  }

  ghost predicate StepsOk(steps: seq<Step>) {
    forall i :: 0 <= i < |steps| && steps[i].Begin? ==> RequestOk(steps[i].request)
  }

  /** Any interleaving at load/exchange granularity is some list of steps. */
  ghost function Run(who: Identity, m: Machine, steps: seq<Step>): (r: Machine)
    requires who.Valid() && Inv(who, m) && StepsOk(steps)
    ensures Inv(who, r) && m.nextIndex <= r.nextIndex && m.commits <= r.commits
    decreases |steps|
  {
    if steps == [] then m else
      NextKeepsInv(who, m, steps[0]);
      Run(who, Next(who, m, steps[0]), steps[1..])
  }

  /** The timestamps of all commits, in commit order. */
  ghost function Issued(who: Identity, commits: seq<Commit>): seq<nat> {
    if commits == [] then []
    else Issued(who, commits[..|commits| - 1]) + PlanTsos(who, commits[|commits| - 1].plan)
  }

  function PlanTsos(who: Identity, plan: Plan): seq<nat> {
    if plan.last < plan.start then [] else who.Tsos(plan.start, plan.last - plan.start + 1)
  }

  ghost predicate StrictlyIncreasing(s: seq<nat>) {
    forall i, j :: 0 <= i < j < |s| ==> s[i] < s[j]
  }

  lemma IncreasingConcat(s: seq<nat>, t: seq<nat>)
    requires StrictlyIncreasing(s) && StrictlyIncreasing(t)
    requires forall x, y :: x in s && y in t ==> x < y
    ensures StrictlyIncreasing(s + t)
  {
    forall i, j | 0 <= i < j < |s + t| ensures (s + t)[i] < (s + t)[j] {
      if i < |s| <= j {
        assert s[i] in s && t[j - |s|] in t;
      }
    }
  }

  lemma TsosIncrease(who: Identity, start: nat, count: nat)
    requires who.Valid()
    ensures StrictlyIncreasing(who.Tsos(start, count))
    ensures forall t :: t in who.Tsos(start, count) ==> who.Tso(start) <= t < who.Tso(start + count)
  {
    hide TsoAt;
    var s := who.Tsos(start, count);
    forall i, j | 0 <= i < j < |s| ensures s[i] < s[j] {
      TsoAtOrder(who.layout, who.id, start + i, start + j);
    }
    forall t | t in s ensures who.Tso(start) <= t < who.Tso(start + count) {
      var i :| 0 <= i < |s| && t == s[i];
      TsoAtOrder(who.layout, who.id, start + i, start);
      TsoAtOrder(who.layout, who.id, start + i, start + count);
    }
  }

  /** Ordered commits list strictly increasing timestamps, all below the next position's. */
  lemma {:induction false} IssuedIncrease(who: Identity, commits: seq<Commit>, bound: nat)
    requires who.Valid()
    requires forall i, j :: 0 <= i < j < |commits| ==> commits[i].plan.last < commits[j].plan.start
    requires forall i :: 0 <= i < |commits| ==> commits[i].plan.start <= commits[i].plan.last < bound
    ensures StrictlyIncreasing(Issued(who, commits))
    ensures forall t :: t in Issued(who, commits) ==> t < who.Tso(bound)
  {
    hide TsoAt, Identity.Tsos;
    if commits != [] {
      var before, p := commits[..|commits| - 1], commits[|commits| - 1].plan;
      IssuedIncrease(who, before, p.start);
      TsosIncrease(who, p.start, p.last - p.start + 1);
      TsoAtOrder(who.layout, who.id, p.start, bound);
      TsoAtOrder(who.layout, who.id, bound, p.last + 1);
      IncreasingConcat(Issued(who, before), PlanTsos(who, p));
    }
  }

  /** Safety of every run: the shared index never decreases, successful exchanges take
      pairwise disjoint intervals in commit order, and no timestamp is issued twice. */
  lemma NoTimestampTwice(who: Identity, steps: seq<Step>)
    requires who.Valid() && StepsOk(steps)
    ensures var m := Run(who, INITIAL, steps);
            (forall i, j :: 0 <= i < j < |m.commits| ==> m.commits[i].plan.last < m.commits[j].plan.start)
            && StrictlyIncreasing(Issued(who, m.commits))
            && (forall t :: t in Issued(who, m.commits) ==> t < who.Tso(m.nextIndex))
  {
    hide Attempt, FloorIndex, TsoAt, Run, Issued;
    var m := Run(who, INITIAL, steps);
    forall i | 0 <= i < |m.commits| ensures m.commits[i].plan.start <= m.commits[i].plan.last {
      var c := m.commits[i];
      AttemptShape(who, c.oldIndex, FloorIndex(who, c.request.floor).value, c.request);
    }
    IssuedIncrease(who, m.commits, m.nextIndex);
  }

  // --------------------------------------------------------- rate of issue

  ghost function Total(commits: seq<Commit>): nat {
    if commits == [] then 0
    else Total(commits[..|commits| - 1]) + commits[|commits| - 1].request.count
  }

  /** All requests of a run read the clock within `t0 ..= t1` and allow at most `slack`. */
  ghost predicate ClockedWithin(request: Request, t0: nat, t1: nat, slack: nat) {
    t0 <= request.nowMs <= t1
    && request.maxFutureBorrowMs <= slack && request.maxClockRewindMs <= slack
  }

  ghost predicate AllClocked(m: Machine, t0: nat, t1: nat, slack: nat) {
    && (forall a :: a in m.actors ==> ClockedWithin(m.actors[a].request, t0, t1, slack))
    && (forall i :: 0 <= i < |m.commits| ==> ClockedWithin(m.commits[i].request, t0, t1, slack))
  }

  lemma {:induction false} RunClocked(who: Identity, m: Machine, steps: seq<Step>, t0: nat, t1: nat, slack: nat)
    requires who.Valid() && Inv(who, m) && StepsOk(steps)
    requires AllClocked(m, t0, t1, slack)
    requires forall i :: 0 <= i < |steps| && steps[i].Begin? ==> ClockedWithin(steps[i].request, t0, t1, slack)
    ensures AllClocked(Run(who, m, steps), t0, t1, slack)
    decreases |steps|
  {
    hide Attempt, FloorIndex, InitIndex, Encodable;
    if steps != [] {
      NextKeepsInv(who, m, steps[0]);
      RunClocked(who, Next(who, m, steps[0]), steps[1..], t0, t1, slack);
    }
  }

  /** Disjoint intervals inside `[low, high)` add up to at most its length. */
  lemma {:induction false} PackedTotal(commits: seq<Commit>, low: nat, high: nat)
    requires low <= high
    requires forall i, j :: 0 <= i < j < |commits| ==> commits[i].plan.last < commits[j].plan.start
    requires forall i :: 0 <= i < |commits| ==>
               low <= commits[i].plan.start && commits[i].plan.last < high
               && commits[i].plan.last == commits[i].plan.start + commits[i].request.count - 1
    ensures Total(commits) <= high - low
  {
    if commits != [] {
      var c := commits[|commits| - 1];
      PackedTotal(commits[..|commits| - 1], low, c.plan.start);
    }
  }

  /** Over any run whose clock readings lie in `t0 ..= t1`, a generator issues at most one
      full millisecond of sequence numbers per millisecond of that window plus the slack,
      and no physical part passes `t1 + slack`. */
  lemma IssueRateBounded(who: Identity, steps: seq<Step>, t0: nat, t1: nat, slack: nat)
    requires who.Valid() && StepsOk(steps) && t0 <= t1
    requires forall i :: 0 <= i < |steps| && steps[i].Begin? ==> ClockedWithin(steps[i].request, t0, t1, slack)
    ensures var m := Run(who, INITIAL, steps);
            Total(m.commits) <= (t1 - t0 + slack + 1) * who.Cap()
            && forall i :: 0 <= i < |m.commits| ==> who.Millisecond(m.commits[i].plan.last) <= t1 + slack
  {
    hide Attempt, FloorIndex, InitIndex, Encodable, Run, Div, Total;
    RunClocked(who, INITIAL, steps, t0, t1, slack);
    var m, cap := Run(who, INITIAL, steps), who.Cap();
    var low, high := t0 * cap, (t1 + slack + 1) * cap;
    forall i | 0 <= i < |m.commits|
      ensures low <= m.commits[i].plan.start && m.commits[i].plan.last < high
      ensures m.commits[i].plan.last == m.commits[i].plan.start + m.commits[i].request.count - 1
      ensures who.Millisecond(m.commits[i].plan.last) <= t1 + slack
    {
      var c := m.commits[i];
      AttemptInWindow(who, c, t0, t1, slack);
    }
    MulMonotone(t0, t1 + slack + 1, cap);
    PackedTotal(m.commits, low, high);
    assert (t1 - t0 + slack + 1) * cap == (t1 + slack + 1) * cap - t0 * cap;
  }

  lemma AttemptInWindow(who: Identity, c: Commit, t0: nat, t1: nat, slack: nat)
    requires who.Valid() && CommitOk(who, c) && ClockedWithin(c.request, t0, t1, slack)
    ensures t0 * who.Cap() <= c.plan.start && c.plan.last < (t1 + slack + 1) * who.Cap()
    ensures c.plan.last == c.plan.start + c.request.count - 1
    ensures who.Millisecond(c.plan.last) <= t1 + slack
  {
    hide Attempt, FloorIndex, Encodable, Div;
    var floorIndex := FloorIndex(who, c.request.floor).value;
    AttemptShape(who, c.oldIndex, floorIndex, c.request);
    AttemptWindow(who, c.oldIndex, floorIndex, c.request);
    MulMonotone(t0, c.request.nowMs, who.Cap());
    DivBound(c.plan.last, t1 + slack + 1, who.Cap());
  }
}
