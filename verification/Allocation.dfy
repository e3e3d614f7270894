/** The object form of a generator: splitting a committed interval into per-millisecond
    ranges, the allocation call under interference, and floors that chain calls across
    generators (src/runtime/generator_lease.rs:40-197). */
module Allocation {
  import opened Common
  import opened Radix
  import opened Timestamps
  import opened Generators

  datatype TimestampRange = TimestampRange(startTso: u64, endTso: u64)

  datatype AllocateAfterResult = Allocated(ranges: seq<TimestampRange>) | Contended

  /** Every value a range stands for. */
  ghost function RangeTsos(r: TimestampRange): seq<nat> {
    if r.endTso < r.startTso then []
    else seq<nat>(r.endTso - r.startTso + 1, (i: nat) => r.startTso + i)
  }

  ghost function Flatten(ranges: seq<TimestampRange>): seq<nat> {
    if ranges == [] then []
    else Flatten(ranges[..|ranges| - 1]) + RangeTsos(ranges[|ranges| - 1])
  }

  /** Both ends of a range carry the same physical part. */
  ghost predicate WithinOneMillisecond(who: Identity, r: TimestampRange) {
    r.startTso <= r.endTso
    && who.layout.Decode(r.startTso).physicalMs == who.layout.Decode(r.endTso).physicalMs
  }

  /** Positions of one millisecond have consecutive timestamps. */
  lemma SameMillisecond(who: Identity, index: nat, k: nat)
    requires who.Valid() && Mod(index, who.Cap()) + k < who.Cap()
    ensures Div(index + k, who.Cap()) == Div(index, who.Cap())
    ensures Mod(index + k, who.Cap()) == Mod(index, who.Cap()) + k
    ensures who.Tso(index + k) == who.Tso(index) + k
  {
    hide Div, Mod;
    DivModOf(Div(index, who.Cap()), Mod(index, who.Cap()) + k, who.Cap());
  }

  /** A whole-millisecond step lands on the next millisecond's first position. */
  lemma NextMillisecond(index: nat, cap: nat)
    requires cap >= 1
    ensures Div(index + (cap - Mod(index, cap)), cap) == Div(index, cap) + 1
    ensures Mod(index + (cap - Mod(index, cap)), cap) == 0
  {
    hide Div, Mod;
    assert index + (cap - Mod(index, cap)) == (Div(index, cap) + 1) * cap + 0;
    DivModOf(Div(index, cap) + 1, 0, cap);
  }

  /** A range built from the first and last position of one stretch lists that stretch. */
  lemma RangeLists(who: Identity, index: nat, take: nat, r: TimestampRange)
    requires who.Valid() && take >= 1 && Mod(index, who.Cap()) + take <= who.Cap()
    requires r.startTso == who.Tso(index) && r.endTso == who.Tso(index + take - 1)
    ensures RangeTsos(r) == who.Tsos(index, take)
    ensures WithinOneMillisecond(who, r)
  {
    hide Div, Mod, TimestampLayout.Compose, TimestampLayout.Decode;
    SameMillisecond(who, index, take - 1);
    forall i | 0 <= i < take ensures who.Tsos(index, take)[i] == r.startTso + i {
      SameMillisecond(who, index, i);
    }
    var cap := who.Cap();
    DecodeOfCompose(who.layout, Div(index, cap), who.id, Mod(index, cap));
    DecodeOfCompose(who.layout, Div(index, cap), who.id, Mod(index + take - 1, cap));
  }

  lemma TsosSplit(who: Identity, start: nat, m: nat, n: nat)
    ensures who.Tsos(start, m) + who.Tsos(start + m, n) == who.Tsos(start, m + n)
  {}

  lemma MillisecondMonotone(who: Identity, i: nat, j: nat)
    requires i <= j
    ensures who.Millisecond(i) <= who.Millisecond(j)
  {
    DivMonotone(i, j, who.Cap());
  }

  /** One turn of the range loop: the stretch of `cursor`'s millisecond still wanted. */
  method TakeRange(who: Identity, cursor: nat, remaining: nat) returns (r: Result<TimestampRange>, take: nat)
    requires who.Valid() && remaining >= 1
    ensures 1 <= take <= remaining
    ensures who.Millisecond(cursor + take - 1) == who.Millisecond(cursor)
    ensures take < remaining ==> who.Millisecond(cursor + take) == who.Millisecond(cursor) + 1
    ensures r.Ok? <==> Encodable(who, cursor)
    ensures r.Ok? ==> RangeTsos(r.value) == who.Tsos(cursor, take) && WithinOneMillisecond(who, r.value)
  {
    hide Div, Mod, TimestampLayout.Compose, Identity.Tsos, WithinOneMillisecond, RangeTsos;
    var physicalMs, sequence := Div(cursor, who.Cap()), Mod(cursor, who.Cap());
    take := Min(remaining, who.Cap() - sequence);
    SameMillisecond(who, cursor, take - 1);
    NextMillisecond(cursor, who.Cap());
    var startTso := who.layout.Encode(physicalMs, who.id, sequence);
    var endTso := who.layout.Encode(physicalMs, who.id, sequence + take - 1);
    var failing := if startTso.Err? then startTso else endTso;
    if failing.Err? {
      return Err(failing.error), take;
    }
    r := Ok(TimestampRange(startTso.value, endTso.value));
    RangeLists(who, cursor, take, r.value);
  }

  /** The loop after a successful exchange: it fails exactly when the interval's last
      position has no 64-bit encoding, and otherwise lists every timestamp of the interval
      once, in order, one range per millisecond touched. */
  method SplitRanges(who: Identity, start: nat, count: nat) returns (r: Result<seq<TimestampRange>>)
    requires who.Valid() && count >= 1 && start + count <= U64_MAX
    ensures r.Ok? <==> Encodable(who, start + count - 1)
    ensures r.Ok? ==>
      Flatten(r.value) == who.Tsos(start, count)
      && |r.value| == who.Millisecond(start + count - 1) - who.Millisecond(start) + 1
      && forall i :: 0 <= i < |r.value| ==> WithinOneMillisecond(who, r.value[i])
  {
    hide Identity.Millisecond, Identity.Tsos, WithinOneMillisecond, RangeTsos;
    var remaining: nat, cursor: nat := count, start;
    var ranges: seq<TimestampRange> := [];
    while remaining > 0
      invariant cursor + remaining == start + count && start <= cursor
      invariant Flatten(ranges) == who.Tsos(start, cursor - start)
      invariant forall i :: 0 <= i < |ranges| ==> WithinOneMillisecond(who, ranges[i])
      invariant remaining > 0 ==> |ranges| == who.Millisecond(cursor) - who.Millisecond(start)
      invariant remaining == 0 ==> |ranges| == who.Millisecond(cursor - 1) - who.Millisecond(start) + 1
      invariant remaining == 0 ==> Encodable(who, cursor - 1)
    {
      var range, take := TakeRange(who, cursor, remaining);
      if range.Err? {
        MillisecondMonotone(who, cursor, start + count - 1);
        return Err(range.error);
      }
      TsosSplit(who, start, cursor - start, take);
      assert (ranges + [range.value])[..|ranges|] == ranges;
      ranges := ranges + [range.value];
      remaining, cursor := remaining - take, cursor + take;
    }
    r := Ok(ranges);
  }

  // ------------------------------------------------------- the object form

  /** From this loaded index the request is not admissible, and this is the error the attempt reports. */
  ghost predicate RefusedAt(who: Identity, request: Request, loaded: u64, error: TsoError) {
    && who.Valid() && request.count >= 1 && FloorIndex(who, request.floor).Ok?
    && !Admissible(who, loaded, FloorIndex(who, request.floor).value, request)
    && Attempt(who, loaded, FloorIndex(who, request.floor).value, request) == Err(error)
  }

  /** An attempt is turned down from some index the shared word held meanwhile. */
  ghost predicate Refused(who: Identity, request: Request, low: u64, high: u64, error: TsoError) {
    exists loaded: u64 :: low <= loaded <= high && RefusedAt(who, request, loaded, error)
  }

  /** From this loaded index the request is admissible, and `start` is the first position there is. */
  ghost predicate ServedAt(who: Identity, request: Request, loaded: u64, start: nat) {
    && who.Valid() && request.count >= 1 && FloorIndex(who, request.floor).Ok?
    && Admissible(who, loaded, FloorIndex(who, request.floor).value, request)
    && start == StartOf(who, loaded, FloorIndex(who, request.floor).value, request.nowMs)
  }

  class Generator {
    const who: Identity
    var nextIndex: u64

    constructor (who: Identity)
      requires who.Valid()
      ensures this.who == who && nextIndex == 0
    {
      this.who := who;
      nextIndex := 0;
    }

    /** Other threads may advance the shared index; none moves it back. */
    method Interfere()
      modifies this`nextIndex
      ensures old(nextIndex) <= nextIndex
    {
      var observed: u64 :| nextIndex <= observed;
      nextIndex := observed;
    }

    /** Whatever happens later, no position still to be handed out is at or below the floor. */
    method InitAfterFloor(floor: u64) returns (r: Result<()>)
      requires who.Valid()
      modifies this`nextIndex
      ensures r.Ok? <==> InitIndex(who, floor).Ok?
      ensures r.Ok? ==> nextIndex == Max(old(nextIndex), InitIndex(who, floor).value)
      ensures r.Err? ==> nextIndex == old(nextIndex)
      ensures r.Ok? ==> forall index :: index >= nextIndex ==> who.Tso(index) > floor
    {
      hide InitIndex, TsoAt;
      var index := InitIndex(who, floor);
      if index.Err? {
        return Err(index.error);
      }
      nextIndex := Max(nextIndex, index.value);
      forall position: nat | position >= nextIndex ensures who.Tso(position) > floor {
        InitPassesFloor(who, floor, position);
      }
      r := Ok(());
    }

    /** One allocation call while other threads interfere between the load and the exchange. */
    method AllocateAfter(request: Request) returns (r: Result<AllocateAfterResult>)
      requires who.Valid() && request.count >= 1
      modifies this`nextIndex
      ensures old(nextIndex) <= nextIndex
      ensures r.Ok? && r.value.Allocated? ==>
        nextIndex >= request.count
        && var start := nextIndex - request.count;
        old(nextIndex) <= start
        && Flatten(r.value.ranges) == who.Tsos(start, request.count)
        && |r.value.ranges| == who.Millisecond(nextIndex - 1) - who.Millisecond(start) + 1
        && (exists loaded: u64 :: old(nextIndex) <= loaded && ServedAt(who, request, loaded, start))
        && (request.floor.Some? ==> who.Tso(start) > request.floor.value)
        && (request.issuedUpperBound.Some? ==> who.Tso(nextIndex - 1) <= request.issuedUpperBound.value)
      ensures r.Ok? && r.value.Contended? ==> old(nextIndex) + 32 <= nextIndex
      ensures r.Err? ==>
        || FloorIndex(who, request.floor) == Err(r.error)
        || Refused(who, request, old(nextIndex), nextIndex, r.error)
        || (request.issuedUpperBound.None? && old(nextIndex) < nextIndex && !Encodable(who, nextIndex - 1))
    {
      hide Encodable, Attempt, Admissible, StartOf, FloorIndex, TsoAt, Identity.Millisecond, Flatten, Identity.Tsos;
      var retries := 0;
      var floorIndex := FloorIndex(who, request.floor);
      if floorIndex.Err? {
        return Err(floorIndex.error);
      }
      while retries < MAX_GENERATOR_CONTENTION_RETRIES
        invariant old(nextIndex) + retries <= nextIndex
      {
        Interfere();
        var oldIndex := nextIndex;
        var plan := Attempt(who, oldIndex, floorIndex.value, request);
        AttemptExact(who, oldIndex, floorIndex.value, request);
        if plan.Err? {
          assert RefusedAt(who, request, oldIndex, plan.error);
          return Err(plan.error);
        }
        AttemptShape(who, oldIndex, floorIndex.value, request);
        Interfere();
        if nextIndex == oldIndex {
          nextIndex := plan.value.last + 1;
          var ranges := SplitRanges(who, plan.value.start, request.count);
          if ranges.Err? {
            if request.issuedUpperBound.Some? {
              AttemptEncodable(who, oldIndex, floorIndex.value, request);
            }
            return Err(ranges.error);
          }
          if request.floor.Some? {
            PastFloor(who, request.floor.value, plan.value.start);
          }
          if request.issuedUpperBound.Some? {
            AttemptCapped(who, oldIndex, floorIndex.value, request);
          }
          assert ServedAt(who, request, oldIndex, plan.value.start);
          return Ok(Allocated(ranges.value));
        }
        retries := retries + 1;
      }
      r := Ok(Contended);
    }
  }

  /** Positions at or past `init_after_floor`'s index lie past the floor. */
  lemma InitPassesFloor(who: Identity, floor: u64, index: nat)
    requires who.Valid() && InitIndex(who, floor).Ok? && InitIndex(who, floor).value <= index
    ensures who.Tso(index) > floor
  {
    hide Div, Mod, TimestampLayout.Compose, NextCursorAfter, CursorWord, TsoAt;
    CursorWordExact(who, floor);
    NextCursorIsLeast(who.layout, floor, who.id, index);
  }

  // ----------------------------------------- a timeline's calls in sequence

  /** A successful call: which generator, the index it loaded, and what was asked. */
  datatype Call = Call(who: Identity, oldIndex: u64, request: Request)
  {
    ghost predicate Served() {
      who.Valid() && request.count >= 1 && FloorIndex(who, request.floor).Ok?
      && Attempt(who, oldIndex, FloorIndex(who, request.floor).value, request).Ok?
    }

    ghost function Interval(): Plan
      requires Served()
    {
      Attempt(who, oldIndex, FloorIndex(who, request.floor).value, request).value
    }
  }

  /** Each call passes the previous call's last timestamp as its floor. */
  ghost predicate Chained(calls: seq<Call>) {
    && (forall k :: 0 <= k < |calls| ==> calls[k].Served())
    && (forall k {:trigger calls[k].request.floor} :: 0 < k < |calls| ==>
          calls[k].request.floor.Some?
          && calls[k].request.floor.value == calls[k - 1].who.Tso(calls[k - 1].Interval().last))
  }

  ghost function ChainTsos(calls: seq<Call>): seq<nat>
    requires forall k :: 0 <= k < |calls| ==> calls[k].Served()
  {
    if calls == [] then []
    else
      ChainTsos(calls[..|calls| - 1])
      + PlanTsos(calls[|calls| - 1].who, calls[|calls| - 1].Interval())
  }

  /** Whatever generators, loaded indices and clock readings a timeline's successive calls
      meet, passing the previous end as floor makes the concatenated ranges strictly
      increasing, with the last call's end on top. */
  lemma {:induction false} ChainIncreases(calls: seq<Call>)
    requires Chained(calls)
    ensures StrictlyIncreasing(ChainTsos(calls))
    ensures calls != [] ==>
      var c := calls[|calls| - 1];
      forall t :: t in ChainTsos(calls) ==> t <= c.who.Tso(c.Interval().last)
  {
    hide Attempt, FloorIndex, TsoAt, Identity.Tsos;
    if calls != [] {
      var before, c := calls[..|calls| - 1], calls[|calls| - 1];
      var p := c.Interval();
      AttemptShape(c.who, c.oldIndex, FloorIndex(c.who, c.request.floor).value, c.request);
      TsosIncrease(c.who, p.start, p.last - p.start + 1);
      LastOfTsos(c.who, p);
      ChainIncreases(before);
      if before != [] {
        PastFloor(c.who, c.request.floor.value, p.start);
      }
      IncreasingConcat(ChainTsos(before), PlanTsos(c.who, p));
    }
  }

  /** An interval's timestamps end with its last position's. */
  lemma LastOfTsos(who: Identity, p: Plan)
    requires who.Valid() && p.start <= p.last
    ensures forall t :: t in PlanTsos(who, p) ==> t <= who.Tso(p.last)
    ensures who.Tso(p.start) <= who.Tso(p.last)
  {
    hide TsoAt;
    var s := PlanTsos(who, p);
    TsoAtOrder(who.layout, who.id, p.last, p.start);
    forall t | t in s ensures t <= who.Tso(p.last) {
      var i :| 0 <= i < |s| && s[i] == t;
      TsoAtOrder(who.layout, who.id, p.last, p.start + i);
    }
  }
}
