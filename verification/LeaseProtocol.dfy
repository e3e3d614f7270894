/** Many worker processes sharing one generator id through its metadata record
    (src/service/lease.rs:64-263, 369-455; src/service/lease/renewal.rs:78-99, 140-150;
    src/service/facade.rs:465-500).

    A write takes effect only if the record's revision is the one read, so a read that a
    successful compare-exchange validates is folded into that exchange.  Clocks, expiry,
    owner names, ready tokens and the computed bounds are left open: any worker may take
    over at any time, with any bound, and may keep using any lease it ever obtained.

    The bound an allocation passes is optional (src/service/lease.rs:266-332): it is absent
    when none could be computed or when the lease has just run out.  Both are allowed here. */
module LeaseProtocol {
  import opened Common
  import opened Radix
  import opened Timestamps
  import opened Generators
  import opened Allocation
  import opened Handoff

  datatype Versioned = Versioned(record: GeneratorRecord, revision: nat)

  datatype Lease = Lease(revision: nat, lastPersistedTso: Option<u64>, issuedUpperBound: Option<u64>)

  /** A worker has a record in hand and still has to initialise its generator from it. */
  datatype Pending = Pending(worker: nat, source: Versioned, lastPersistedTso: Option<u64>)

  /** `caps` are the upper bounds the worker may pass to its allocations. */
  datatype Worker = Worker(nextIndex: u64, leases: set<Lease>, caps: set<nat>)

  datatype Issue = Issue(worker: nat, plan: Plan)

  datatype Cluster = Cluster(
    stored: Option<Versioned>,
    workers: map<nat, Worker>,
    pending: set<Pending>,
    log: seq<Issue>)

  datatype Action =
    | StartWorker(worker: nat)
    | CreateRecord(worker: nat, bound: Option<u64>)
    | AdoptOwnRecord(worker: nat)
    | TakeOver(worker: nat, bound: Option<u64>)
    | Initialise(pending: Pending)
    | Refresh(worker: nat, lease: Lease, observedLast: Option<u64>, bound: Option<u64>, extend: bool)
    | PersistFloor(observedLast: Option<u64>)
    | Allocate(worker: nat, request: Request)

  const EMPTY := Cluster(None, map[], {}, [])

  function WithCap(caps: set<nat>, bound: Option<u64>): set<nat> {
    if bound.Some? then caps + {bound.value} else caps
  }

  /** The record a takeover writes: the old floor becomes the last issued timestamp. */
  function TakeOverRecord(record: GeneratorRecord, bound: Option<u64>): GeneratorRecord {
    if RecoveryFloor(record).Some? then GeneratorRecord(RecoveryFloor(record), bound)
    else record.(issuedUpperBound := bound)
  }

  /** The record a refresh writes, from the lease it holds. */
  function RefreshRecord(lease: Lease, observedLast: Option<u64>, bound: Option<u64>, extend: bool): GeneratorRecord {
    GeneratorRecord(
      MergeMax(lease.lastPersistedTso, observedLast),
      if extend then MergeMax(lease.issuedUpperBound, bound) else lease.issuedUpperBound)
  }

  function LeaseOf(source: Versioned, lastPersistedTso: Option<u64>): Lease {
    Lease(source.revision, lastPersistedTso, source.record.issuedUpperBound)
  }

  function Grant(worker: Worker, lease: Lease): Worker {
    worker.(leases := worker.leases + {lease}, caps := WithCap(worker.caps, lease.issuedUpperBound))
  }

  function Floor(c: Cluster): Option<u64> {
    if c.stored.Some? then RecoveryFloor(c.stored.value.record) else None
  }

  /** An action that is not enabled changes nothing. */
  function Next(who: Identity, c: Cluster, action: Action): Cluster
    requires who.Valid()
  {
    match action
    case StartWorker(w) =>
      if w in c.workers then c
      else c.(workers := c.workers[w := Worker(0, {}, {})])
    case CreateRecord(w, bound) =>
      if c.stored.Some? || w !in c.workers then c else
        var created := Versioned(GeneratorRecord(None, bound), 1);
        c.(stored := Some(created), workers := c.workers[w := Grant(c.workers[w], LeaseOf(created, None))])
    case AdoptOwnRecord(w) =>
      if c.stored.None? || w !in c.workers then c
      else c.(pending := c.pending + {Pending(w, c.stored.value, RecoveryFloor(c.stored.value.record))})
    case TakeOver(w, bound) =>
      if c.stored.None? || w !in c.workers then c else
        var taken := Versioned(TakeOverRecord(c.stored.value.record, bound), c.stored.value.revision + 1);
        c.(stored := Some(taken), pending := c.pending + {Pending(w, taken, taken.record.lastIssuedTso)})
    case Initialise(p) =>
      if p !in c.pending || p.worker !in c.workers then c else
        var floor := RecoveryFloor(p.source.record);
        var index := if floor.None? then Ok(0) else InitIndex(who, floor.value);
        if index.Err? then c.(pending := c.pending - {p}) else
          var worker := c.workers[p.worker];
          var started := worker.(nextIndex := Max(worker.nextIndex, index.value));
          c.(pending := c.pending - {p},
             workers := c.workers[p.worker := Grant(started, LeaseOf(p.source, p.lastPersistedTso))])
    case Refresh(w, lease, observedLast, bound, extend) =>
      if w !in c.workers || lease !in c.workers[w].leases
         || c.stored.None? || c.stored.value.revision != lease.revision then c
      else
        var renewed := Versioned(RefreshRecord(lease, observedLast, bound, extend), lease.revision + 1);
        c.(stored := Some(renewed),
           workers := c.workers[w := Grant(c.workers[w], LeaseOf(renewed, renewed.record.lastIssuedTso))])
    case PersistFloor(observedLast) =>
      if c.stored.None? then c else
        var record := c.stored.value.record;
        var desired := MergeMax(record.lastIssuedTso, observedLast);
        if desired == record.lastIssuedTso then c
        else c.(stored := Some(Versioned(record.(lastIssuedTso := desired), c.stored.value.revision + 1)))
    case Allocate(w, request) =>
      var plan := Planned(who, c, w, request);
      if plan.None? then c
      else if Encodable(who, plan.value.last) then WithIssue(c, w, plan.value)
      else Moved(c, w, plan.value.last)
  }

  /** A bound the worker may pass: one it was granted, or none once it has had a lease. */
  predicate MayPass(worker: Worker, bound: Option<u64>) {
    if bound.Some? then bound.value in worker.caps else worker.leases != {}
  }

  /** The interval an allocation takes, if it gets that far. */
  function Planned(who: Identity, c: Cluster, w: nat, request: Request): (plan: Option<Plan>)
    requires who.Valid()
    ensures plan.Some? ==> w in c.workers && c.workers[w].nextIndex <= plan.value.start <= plan.value.last < U64_MAX
  {
    if w !in c.workers || request.count == 0 || !MayPass(c.workers[w], request.issuedUpperBound) then None else
      var floorIndex := FloorIndex(who, request.floor);
      if floorIndex.Err? then None else
        var plan := Attempt(who, c.workers[w].nextIndex, floorIndex.value, request);
        if plan.Err? then None else
          AttemptShape(who, c.workers[w].nextIndex, floorIndex.value, request);
          Some(plan.value)
  }

  function Moved(c: Cluster, w: nat, last: nat): Cluster
    requires w in c.workers && last < U64_MAX
  {
    c.(workers := c.workers[w := c.workers[w].(nextIndex := last + 1)])
  }

  /** The interval is taken and its timestamps are returned. */
  function WithIssue(c: Cluster, w: nat, plan: Plan): Cluster
    requires w in c.workers && plan.last < U64_MAX
  {
    Moved(c, w, plan.last).(log := c.log + [Issue(w, plan)])
  }

  // ------------------------------------------------------------- invariant

  /** Absent is below everything. */
  ghost predicate AtMost(a: Option<u64>, b: Option<u64>) {
    a.Some? ==> b.Some? && a.value <= b.value
  }

  /** The worker's next position already lies past `cap`: it can issue nothing under it. */
  ghost predicate Spent(who: Identity, worker: Worker, cap: nat) {
    who.Tso(worker.nextIndex) > cap
  }

  ghost predicate HasCap(c: Cluster, w: nat, cap: nat) {
    w in c.workers && cap in c.workers[w].caps
  }

  ghost predicate BelowFloor(c: Cluster, tso: nat) {
    Floor(c).Some? && tso <= Floor(c).value
  }

  /** Nothing granted or issued lies above the persisted floor. */
  ghost predicate Covered(who: Identity, c: Cluster) {
    && (forall w: nat, cap: nat :: HasCap(c, w, cap) ==> BelowFloor(c, cap))
    && (forall i :: 0 <= i < |c.log| ==> BelowFloor(c, who.Tso(c.log[i].plan.last)))
  }

  /** What a lease stands for, while its revision is the current one. */
  ghost predicate LeaseOk(stored: Option<Versioned>, l: Lease) {
    stored.Some? && l.revision <= stored.value.revision
    && (l.revision == stored.value.revision ==>
          l.issuedUpperBound == stored.value.record.issuedUpperBound
          && AtMost(stored.value.record.lastIssuedTso, l.lastPersistedTso))
  }

  ghost predicate PendingOk(stored: Option<Versioned>, p: Pending) {
    stored.Some? && p.source.revision <= stored.value.revision
    && (p.source.revision == stored.value.revision ==> p.source == stored.value)
    && AtMost(p.source.record.lastIssuedTso, p.lastPersistedTso)
    && AtMost(RecoveryFloor(p.source.record), RecoveryFloor(stored.value.record))
  }

  ghost predicate Revisions(c: Cluster) {
    && (forall w, l :: w in c.workers && l in c.workers[w].leases ==> LeaseOk(c.stored, l))
    && (forall p :: p in c.pending ==> PendingOk(c.stored, p))
  }

  ghost predicate Holds(c: Cluster, w: nat) {
    w in c.workers && c.stored.Some?
    && exists l :: l in c.workers[w].leases && l.revision == c.stored.value.revision
  }

  /** A worker able to extend the bound has moved past everything any other worker
      issued or may still issue. */
  ghost predicate HoldersLead(who: Identity, c: Cluster) {
    forall w :: Holds(c, w) ==>
      && (forall v: nat, cap: nat :: HasCap(c, v, cap) && v != w ==>
            Spent(who, c.workers[v], cap) || Spent(who, c.workers[w], cap))
      && (forall i :: 0 <= i < |c.log| && c.log[i].worker != w ==> c.log[i].plan.last < c.workers[w].nextIndex)
  }

  /** No position can still be issued by two workers. */
  ghost predicate FuturesDisjoint(who: Identity, c: Cluster) {
    forall v: nat, w: nat, cv: nat, cw: nat :: HasCap(c, v, cv) && HasCap(c, w, cw) && v != w ==>
      Spent(who, c.workers[v], Min(cv, cw)) || Spent(who, c.workers[w], Min(cv, cw))
  }

  /** No issued position can be issued again by another worker. */
  ghost predicate PastSafe(who: Identity, c: Cluster) {
    forall i, w: nat, cap: nat :: 0 <= i < |c.log| && HasCap(c, w, cap) && w != c.log[i].worker ==>
      c.log[i].plan.last < c.workers[w].nextIndex
      || who.Tso(c.log[i].plan.start) > cap
      || Spent(who, c.workers[w], cap)
  }

  ghost predicate Apart(p: Plan, q: Plan) {
    p.last < q.start || q.last < p.start
  }

  ghost predicate LogApart(c: Cluster) {
    && (forall i :: 0 <= i < |c.log| ==>
          c.log[i].worker in c.workers && c.log[i].plan.start <= c.log[i].plan.last
          && c.log[i].plan.last < c.workers[c.log[i].worker].nextIndex)
    && (forall i, j :: 0 <= i < j < |c.log| ==> Apart(c.log[i].plan, c.log[j].plan))
  }

  ghost predicate Inv(who: Identity, c: Cluster) {
    Covered(who, c) && Revisions(c) && HoldersLead(who, c)
    && FuturesDisjoint(who, c) && PastSafe(who, c) && LogApart(c)
  }

  // --------------------------------------------------------- preservation

  /** A larger next position is spent on more caps. */
  lemma SpentMonotone(who: Identity, before: Worker, after: Worker, cap: nat)
    requires who.Valid() && before.nextIndex <= after.nextIndex && Spent(who, before, cap)
    ensures Spent(who, after, cap)
  {
    TsoAtOrder(who.layout, who.id, after.nextIndex, before.nextIndex);
  }

  /** The persisted floor never decreases, whichever worker writes and whatever it computed. */
  lemma FloorMonotone(who: Identity, c: Cluster, action: Action)
    requires who.Valid() && Revisions(c)
    ensures AtMost(Floor(c), Floor(Next(who, c, action)))
  {
    hide Attempt, FloorIndex, InitIndex;
    if action.Refresh? && action.worker in c.workers && action.lease in c.workers[action.worker].leases {
      assert LeaseOk(c.stored, action.lease);
    }
  }

  lemma NextKeepsRevisions(who: Identity, c: Cluster, action: Action)
    requires who.Valid() && Revisions(c)
    ensures Revisions(Next(who, c, action))
  {
    hide Attempt, FloorIndex, InitIndex;
    FloorMonotone(who, c, action);
    var c' := Next(who, c, action);
    forall w, l | w in c'.workers && l in c'.workers[w].leases ensures LeaseOk(c'.stored, l) {
      assert w in c.workers && l in c.workers[w].leases ==> LeaseOk(c.stored, l);
    }
    forall p | p in c'.pending ensures PendingOk(c'.stored, p) {
      assert p in c.pending ==> PendingOk(c.stored, p);
    }
  }

  /** Replacing one worker by a later self, with at most one cap more. */
  ghost predicate Regranted(c: Cluster, c': Cluster, w: nat, bound: Option<u64>) {
    w in c.workers && w in c'.workers && c'.workers == c.workers[w := c'.workers[w]] && c'.log == c.log
    && c.workers[w].nextIndex <= c'.workers[w].nextIndex
    && c'.workers[w].caps == WithCap(c.workers[w].caps, bound)
  }

  lemma RegrantKeepsDisjoint(who: Identity, c: Cluster, c': Cluster, w: nat, bound: Option<u64>)
    requires who.Valid() && Regranted(c, c', w, bound)
    requires FuturesDisjoint(who, c) && PastSafe(who, c) && LogApart(c)
    requires bound.Some? ==> forall v: nat, cap: nat :: HasCap(c, v, cap) && v != w ==>
               Spent(who, c.workers[v], cap) || Spent(who, c'.workers[w], Min(cap, bound.value))
    requires bound.Some? ==> forall i :: 0 <= i < |c.log| && c.log[i].worker != w ==>
               c.log[i].plan.last < c'.workers[w].nextIndex || Spent(who, c'.workers[w], bound.value)
    ensures FuturesDisjoint(who, c') && PastSafe(who, c') && LogApart(c')
  {
    hide TsoAt;
    forall v: nat, u: nat, cv: nat, cu: nat | HasCap(c', v, cv) && HasCap(c', u, cu) && v != u
      ensures Spent(who, c'.workers[v], Min(cv, cu)) || Spent(who, c'.workers[u], Min(cv, cu))
    {
      if HasCap(c, v, cv) && HasCap(c, u, cu) {
        LaterStillSpent(who, c, c', w, v, Min(cv, cu));
        LaterStillSpent(who, c, c', w, u, Min(cv, cu));
      } else if v == w {
        assert HasCap(c, u, cu);
      } else {
        assert HasCap(c, v, cv);
      }
    }
    forall i, u: nat, cap: nat | 0 <= i < |c'.log| && HasCap(c', u, cap) && u != c'.log[i].worker
      ensures c'.log[i].plan.last < c'.workers[u].nextIndex
              || who.Tso(c'.log[i].plan.start) > cap || Spent(who, c'.workers[u], cap)
    {
      if HasCap(c, u, cap) {
        LaterStillSpent(who, c, c', w, u, cap);
      }
    }
  }

  lemma LaterStillSpent(who: Identity, c: Cluster, c': Cluster, w: nat, v: nat, cap: nat)
    requires who.Valid() && w in c.workers && w in c'.workers && c'.workers == c.workers[w := c'.workers[w]]
    requires c.workers[w].nextIndex <= c'.workers[w].nextIndex && v in c.workers
    ensures Spent(who, c.workers[v], cap) ==> Spent(who, c'.workers[v], cap)
  {
    hide TsoAt;
    if v == w && Spent(who, c.workers[w], cap) {
      SpentMonotone(who, c.workers[w], c'.workers[w], cap);
    }
  }

  // Actions that touch no generator and grant nothing.

  /** Old workers are as before, new ones have nothing, and nobody gained a cap or a current lease. */
  ghost predicate NothingGranted(c: Cluster, c': Cluster) {
    && c'.log == c.log && (forall w :: w in c.workers ==> w in c'.workers && c'.workers[w] == c.workers[w])
    && (forall w: nat, cap: nat :: HasCap(c', w, cap) ==> HasCap(c, w, cap))
    && (forall w :: Holds(c', w) ==> Holds(c, w))
  }

  lemma NothingGrantedKeepsInv(who: Identity, c: Cluster, c': Cluster)
    requires who.Valid() && Inv(who, c) && Revisions(c') && AtMost(Floor(c), Floor(c')) && NothingGranted(c, c')
    ensures Inv(who, c')
  {
    hide TsoAt, RecoveryFloor, Revisions, HasCap, Holds;
    assert forall w: nat, cap: nat :: HasCap(c, w, cap) ==> w in c.workers by { HasCapKnown(c); }
    assert forall w :: Holds(c, w) ==> w in c.workers by { HoldsKnown(c); }
  }

  lemma HasCapKnown(c: Cluster)
    ensures forall w: nat, cap: nat :: HasCap(c, w, cap) ==> w in c.workers
  {}

  lemma HoldsKnown(c: Cluster)
    ensures forall w :: Holds(c, w) ==> w in c.workers
  {}

  lemma QuietGrantsNothing(who: Identity, c: Cluster, action: Action)
    requires who.Valid() && Revisions(c)
    requires action.StartWorker? || action.AdoptOwnRecord? || action.TakeOver? || action.PersistFloor?
    ensures NothingGranted(c, Next(who, c, action))
  {
    hide RecoveryFloor, TakeOverRecord;
    var c' := Next(who, c, action);
    forall w | Holds(c', w) ensures Holds(c, w) {
      var l :| l in c'.workers[w].leases && l.revision == c'.stored.value.revision;
      assert w in c.workers && l in c.workers[w].leases && LeaseOk(c.stored, l);
    }
    forall w: nat, cap: nat | HasCap(c', w, cap) ensures HasCap(c, w, cap) {}
  }

  lemma QuietKeepsInv(who: Identity, c: Cluster, action: Action)
    requires who.Valid() && Inv(who, c)
    requires action.StartWorker? || action.AdoptOwnRecord? || action.TakeOver? || action.PersistFloor?
    ensures Inv(who, Next(who, c, action))
  {
    hide Next, Covered, Revisions, HoldersLead, FuturesDisjoint, PastSafe, LogApart, NothingGranted, Floor;
    FloorMonotone(who, c, action);
    NextKeepsRevisions(who, c, action);
    QuietGrantsNothing(who, c, action);
    NothingGrantedKeepsInv(who, c, Next(who, c, action));
  }

  // Initialising from a record.

  /** Initialising from a record leaves the worker past that record's floor. */
  lemma InitialisedPast(who: Identity, worker: Worker, floor: u64, cap: nat)
    requires who.Valid() && InitIndex(who, floor).Ok? && InitIndex(who, floor).value <= worker.nextIndex
    requires cap <= floor
    ensures Spent(who, worker, cap)
  {
    InitPassesFloor(who, floor, worker.nextIndex);
  }

  lemma InitialiseKeepsInv(who: Identity, c: Cluster, p: Pending)
    requires who.Valid() && Inv(who, c)
    ensures Inv(who, Next(who, c, Initialise(p)))
  {
    hide TsoAt, InitIndex, RecoveryFloor;
    var action := Initialise(p);
    FloorMonotone(who, c, action);
    NextKeepsRevisions(who, c, action);
    var c', w := Next(who, c, action), p.worker;
    if c'.workers != c.workers {
      assert PendingOk(c.stored, p);
      var bound := p.source.record.issuedUpperBound;
      assert Regranted(c, c', w, bound);
      PendingBoundBelowFloor(p);
      if bound.Some? {
        var floor := RecoveryFloor(p.source.record).value;
        InitialisedPast(who, c'.workers[w], floor, bound.value);
      }
      RegrantKeepsDisjoint(who, c, c', w, bound);
      InitialiseKeepsLead(who, c, p);
      InitialiseKeepsCovered(who, c, p);
    } else {
      assert NothingGranted(c, c') by {
        forall w: nat, cap: nat | HasCap(c', w, cap) ensures HasCap(c, w, cap) {}
        forall w | Holds(c', w) ensures Holds(c, w) {}
      }
      NothingGrantedKeepsInv(who, c, c');
    }
  }

  lemma PendingBoundBelowFloor(p: Pending)
    ensures AtMost(p.source.record.issuedUpperBound, RecoveryFloor(p.source.record))
  {}

  lemma InitialiseKeepsCovered(who: Identity, c: Cluster, p: Pending)
    requires who.Valid() && Inv(who, c) && p in c.pending
    ensures Covered(who, Next(who, c, Initialise(p)))
  {
    hide TsoAt, InitIndex;
    var c' := Next(who, c, Initialise(p));
    assert PendingOk(c.stored, p);
    forall w: nat, cap: nat | HasCap(c', w, cap) ensures BelowFloor(c', cap) {
      assert HasCap(c, w, cap) ==> BelowFloor(c, cap);
    }
    forall i | 0 <= i < |c'.log| ensures BelowFloor(c', who.Tso(c'.log[i].plan.last)) {
      assert BelowFloor(c, who.Tso(c.log[i].plan.last));
    }
  }

  lemma InitialiseKeepsLead(who: Identity, c: Cluster, p: Pending)
    requires who.Valid() && Inv(who, c) && Next(who, c, Initialise(p)).workers != c.workers
    ensures HoldersLead(who, Next(who, c, Initialise(p)))
  {
    hide TsoAt, InitIndex, RecoveryFloor;
    var c', w := Next(who, c, Initialise(p)), p.worker;
    assert PendingOk(c.stored, p);
    PendingBoundBelowFloor(p);
    var floor := RecoveryFloor(p.source.record);
    forall x | Holds(c', x)
      ensures forall v: nat, cap: nat :: HasCap(c', v, cap) && v != x ==>
                Spent(who, c'.workers[v], cap) || Spent(who, c'.workers[x], cap)
      ensures forall i :: 0 <= i < |c'.log| && c'.log[i].worker != x ==>
                c'.log[i].plan.last < c'.workers[x].nextIndex
    {
      var l :| l in c'.workers[x].leases && l.revision == c'.stored.value.revision;
      if l in c.workers[x].leases {
        assert Holds(c, x);
        forall v: nat, cap: nat | HasCap(c', v, cap) && v != x
          ensures Spent(who, c'.workers[v], cap) || Spent(who, c'.workers[x], cap)
        {
          LaterStillSpent(who, c, c', w, v, cap);
          LaterStillSpent(who, c, c', w, x, cap);
          if !HasCap(c, v, cap) {
            InitialisedPast(who, c'.workers[w], floor.value, cap);
          }
        }
      } else {
        FreshlyInitialisedLeads(who, c, c', p);
        forall v: nat, cap: nat | HasCap(c', v, cap) && v != x ensures HasCap(c, v, cap) {}
      }
    }
  }

  /** A worker initialised from the current record leads everybody. */
  lemma FreshlyInitialisedLeads(who: Identity, c: Cluster, c': Cluster, p: Pending)
    requires who.Valid() && Inv(who, c) && p in c.pending && p.worker in c.workers
    requires c' == Next(who, c, Initialise(p)) && c'.workers != c.workers
    requires p.source.revision == c.stored.value.revision
    ensures forall v: nat, cap: nat :: HasCap(c, v, cap) ==> Spent(who, c'.workers[p.worker], cap)
    ensures forall i :: 0 <= i < |c.log| ==> c.log[i].plan.last < c'.workers[p.worker].nextIndex
  {
    hide TsoAt, InitIndex, RecoveryFloor;
    assert PendingOk(c.stored, p);
    var worker' := c'.workers[p.worker];
    assert Floor(c) == RecoveryFloor(p.source.record);
    forall v: nat, cap: nat | HasCap(c, v, cap) ensures Spent(who, worker', cap) {
      InitialisedPast(who, worker', Floor(c).value, cap);
    }
    forall i | 0 <= i < |c.log| ensures c.log[i].plan.last < worker'.nextIndex {
      assert BelowFloor(c, who.Tso(c.log[i].plan.last));
      InitialisedPast(who, worker', Floor(c).value, Floor(c).value);
      TsoAtOrder(who.layout, who.id, c.log[i].plan.last, worker'.nextIndex);
    }
  }

  // Creating and extending.

  lemma CreateKeepsInv(who: Identity, c: Cluster, w: nat, bound: Option<u64>)
    requires who.Valid() && Inv(who, c)
    ensures Inv(who, Next(who, c, CreateRecord(w, bound)))
  {
    hide TsoAt;
    var action := CreateRecord(w, bound);
    FloorMonotone(who, c, action);
    NextKeepsRevisions(who, c, action);
    var c' := Next(who, c, action);
    if c.stored.None? && w in c.workers {
      forall v: nat, cap: nat ensures !HasCap(c, v, cap) {}
      assert |c.log| > 0 ==> BelowFloor(c, who.Tso(c.log[0].plan.last));
      assert c.log == [];
      forall v: nat, cap: nat | HasCap(c', v, cap) ensures v == w && BelowFloor(c', cap) {
        assert !HasCap(c, v, cap);
      }
      forall x | Holds(c', x) ensures x == w {
        var l :| l in c'.workers[x].leases && l.revision == c'.stored.value.revision;
        assert x in c.workers && l in c.workers[x].leases ==> LeaseOk(c.stored, l);
      }
    }
  }

  lemma RefreshKeepsInv(who: Identity, c: Cluster, action: Action)
    requires who.Valid() && Inv(who, c) && action.Refresh?
    ensures Inv(who, Next(who, c, action))
  {
    hide TsoAt, RecoveryFloor, RefreshRecord;
    var c', w := Next(who, c, action), action.worker;
    if w in c.workers && action.lease in c.workers[w].leases
       && c.stored.Some? && c.stored.value.revision == action.lease.revision {
      FloorMonotone(who, c, action);
      NextKeepsRevisions(who, c, action);
      assert Holds(c, w);
      var bound := c'.stored.value.record.issuedUpperBound;
      assert Regranted(c, c', w, bound);
      RegrantKeepsDisjoint(who, c, c', w, bound);
      RefreshKeepsLead(who, c, action);
      RefreshKeepsCovered(who, c, action);
    }
  }

  lemma RefreshKeepsCovered(who: Identity, c: Cluster, action: Action)
    requires who.Valid() && Inv(who, c) && action.Refresh?
    ensures Covered(who, Next(who, c, action))
  {
    hide TsoAt, RefreshRecord;
    FloorMonotone(who, c, action);
    var c' := Next(who, c, action);
    forall w: nat, cap: nat | HasCap(c', w, cap) ensures BelowFloor(c', cap) {
      assert HasCap(c, w, cap) ==> BelowFloor(c, cap);
    }
    forall i | 0 <= i < |c'.log| ensures BelowFloor(c', who.Tso(c'.log[i].plan.last)) {
      assert BelowFloor(c, who.Tso(c.log[i].plan.last));
    }
  }

  /** After a refresh its writer is the only holder, and it leads as before. */
  lemma RefreshKeepsLead(who: Identity, c: Cluster, action: Action)
    requires who.Valid() && Inv(who, c) && action.Refresh? && Holds(c, action.worker)
    requires action.lease in c.workers[action.worker].leases
    requires c.stored.value.revision == action.lease.revision
    ensures HoldersLead(who, Next(who, c, action))
  {
    hide TsoAt, RecoveryFloor, RefreshRecord;
    var c', w := Next(who, c, action), action.worker;
    forall x | Holds(c', x) ensures x == w {
      var l :| l in c'.workers[x].leases && l.revision == c'.stored.value.revision;
      assert x in c.workers && l in c.workers[x].leases ==> LeaseOk(c.stored, l);
    }
    forall v: nat, cap: nat | HasCap(c', v, cap) && v != w ensures HasCap(c, v, cap) {}
  }

  // Allocating.

  /** Positions compare as their timestamps do. */
  lemma TsoBelow(who: Identity, i: nat, j: nat, cap: nat)
    requires who.Valid() && who.Tso(i) <= cap < who.Tso(j)
    ensures i < j
  {
    TsoAtOrder(who.layout, who.id, i, j);
  }

  /**
   * What an interval taken by worker `w` must satisfy: it lies under the persisted
   * floor and apart from all issued before, no other worker can still reach it,
   * and whoever may extend the bound is already past it.
   */
  ghost predicate Harmless(who: Identity, c: Cluster, w: nat, p: Plan) {
    BelowFloor(c, who.Tso(p.last)) && Unreachable(who, c, w, p) && Fresh(c, p) && BehindHolders(c, w, p)
  }

  ghost predicate Unreachable(who: Identity, c: Cluster, w: nat, p: Plan) {
    forall v: nat, cap: nat :: HasCap(c, v, cap) && v != w ==>
      p.last < c.workers[v].nextIndex || who.Tso(p.start) > cap || Spent(who, c.workers[v], cap)
  }

  ghost predicate Fresh(c: Cluster, p: Plan) {
    forall i :: 0 <= i < |c.log| ==> Apart(c.log[i].plan, p)
  }

  ghost predicate BehindHolders(c: Cluster, w: nat, p: Plan) {
    forall x :: Holds(c, x) && x != w ==> p.last < c.workers[x].nextIndex
  }

  /** What an interval taken under a bound satisfies: its timestamps stay within the bound. */
  lemma PlannedWithin(who: Identity, c: Cluster, w: nat, request: Request)
    requires who.Valid() && Planned(who, c, w, request).Some? && request.issuedUpperBound.Some?
    ensures var p, cap := Planned(who, c, w, request).value, request.issuedUpperBound.value;
            && HasCap(c, w, cap) && Encodable(who, p.last)
            && who.Tso(c.workers[w].nextIndex) <= who.Tso(p.start) <= who.Tso(p.last) <= cap
  {
    hide TsoAt, Attempt, FloorIndex, Encodable;
    var next, floorIndex := c.workers[w].nextIndex, FloorIndex(who, request.floor).value;
    var p := Planned(who, c, w, request).value;
    AttemptShape(who, next, floorIndex, request);
    AttemptCapped(who, next, floorIndex, request);
    AttemptEncodable(who, next, floorIndex, request);
    TsoAtOrder(who.layout, who.id, p.start, next);
    TsoAtOrder(who.layout, who.id, p.last, p.start);
  }

  /** Under a bound every allocation is harmless, in every state of the protocol. */
  lemma BoundedIsHarmless(who: Identity, c: Cluster, w: nat, request: Request)
    requires who.Valid() && Inv(who, c) && Planned(who, c, w, request).Some? && request.issuedUpperBound.Some?
    ensures Harmless(who, c, w, Planned(who, c, w, request).value)
  {
    hide TsoAt, Planned, Encodable, RecoveryFloor, Revisions;
    PlannedWithin(who, c, w, request);
    var p, cap := Planned(who, c, w, request).value, request.issuedUpperBound.value;
    assert BelowFloor(c, cap);
    forall v: nat, cv: nat | HasCap(c, v, cv) && v != w
      ensures p.last < c.workers[v].nextIndex || who.Tso(p.start) > cv || Spent(who, c.workers[v], cv)
    {
      assert Spent(who, c.workers[v], Min(cv, cap)) || Spent(who, c.workers[w], Min(cv, cap));
      if cap <= cv && Spent(who, c.workers[v], cap) {
        TsoBelow(who, p.last, c.workers[v].nextIndex, cap);
      }
    }
    forall i | 0 <= i < |c.log| ensures Apart(c.log[i].plan, p) {
      if c.log[i].worker != w && who.Tso(c.log[i].plan.start) > cap {
        TsoBelow(who, p.last, c.log[i].plan.start, cap);
      }
    }
    forall x | Holds(c, x) && x != w ensures p.last < c.workers[x].nextIndex {
      assert Spent(who, c.workers[w], cap) || Spent(who, c.workers[x], cap);
      TsoBelow(who, p.last, c.workers[x].nextIndex, cap);
    }
  }

  lemma MovedKeepsLead(who: Identity, c: Cluster, w: nat, last: nat)
    requires who.Valid() && HoldersLead(who, c)
    requires w in c.workers && c.workers[w].nextIndex <= last < U64_MAX
    ensures HoldersLead(who, Moved(c, w, last))
  {
    hide TsoAt;
    var c' := Moved(c, w, last);
    forall x | Holds(c', x)
      ensures forall v: nat, cap: nat :: HasCap(c', v, cap) && v != x ==>
                Spent(who, c'.workers[v], cap) || Spent(who, c'.workers[x], cap)
      ensures forall i :: 0 <= i < |c'.log| && c'.log[i].worker != x ==>
                c'.log[i].plan.last < c'.workers[x].nextIndex
    {
      assert Holds(c, x);
      forall v: nat, cap: nat | HasCap(c', v, cap) && v != x
        ensures Spent(who, c'.workers[v], cap) || Spent(who, c'.workers[x], cap)
      {
        assert HasCap(c, v, cap);
        LaterStillSpent(who, c, c', w, v, cap);
        LaterStillSpent(who, c, c', w, x, cap);
      }
    }
  }

  /** Positions taken and not returned are simply lost. */
  lemma MovedKeepsInv(who: Identity, c: Cluster, w: nat, last: nat)
    requires who.Valid() && Inv(who, c)
    requires w in c.workers && c.workers[w].nextIndex <= last < U64_MAX
    ensures Inv(who, Moved(c, w, last))
  {
    hide TsoAt, RecoveryFloor, HoldersLead;
    var c' := Moved(c, w, last);
    RegrantKeepsDisjoint(who, c, c', w, None);
    MovedKeepsLead(who, c, w, last);
    forall v: nat, cap: nat | HasCap(c', v, cap) ensures BelowFloor(c', cap) {
      assert HasCap(c, v, cap);
    }
  }

  /** Appending to the log leaves caps, leases and futures as they are. */
  lemma WithIssueSame(who: Identity, c: Cluster, w: nat, p: Plan)
    requires w in c.workers && c.workers[w].nextIndex <= p.start <= p.last < U64_MAX
    ensures var m, c' := Moved(c, w, p.last), WithIssue(c, w, p);
            && (forall v: nat, cap: nat :: HasCap(c', v, cap) <==> HasCap(m, v, cap))
            && (forall v: nat, cap: nat :: HasCap(m, v, cap) <==> HasCap(c, v, cap))
            && (forall x :: Holds(c', x) <==> Holds(m, x)) && (forall x :: Holds(m, x) <==> Holds(c, x))
            && (Revisions(m) ==> Revisions(c')) && (FuturesDisjoint(who, m) ==> FuturesDisjoint(who, c'))
  {
    hide LeaseOk, PendingOk, Spent;
  }

  lemma IssuedKeepsPast(who: Identity, c: Cluster, w: nat, p: Plan)
    requires w in c.workers && c.workers[w].nextIndex <= p.start <= p.last < U64_MAX
    requires PastSafe(who, Moved(c, w, p.last)) && Unreachable(who, c, w, p)
    ensures PastSafe(who, WithIssue(c, w, p))
  {
    hide TsoAt, Spent, HasCap;
    WithIssueSame(who, c, w, p);
  }

  lemma IssuedKeepsLead(who: Identity, c: Cluster, w: nat, p: Plan)
    requires w in c.workers && c.workers[w].nextIndex <= p.start <= p.last < U64_MAX
    requires HoldersLead(who, Moved(c, w, p.last)) && BehindHolders(c, w, p)
    ensures HoldersLead(who, WithIssue(c, w, p))
  {
    hide TsoAt, Spent, HasCap, Holds;
    HoldsKnown(c);
    WithIssueSame(who, c, w, p);
  }

  lemma IssuedKeepsRest(who: Identity, c: Cluster, w: nat, p: Plan)
    requires w in c.workers && c.workers[w].nextIndex <= p.start <= p.last < U64_MAX
    requires Covered(who, Moved(c, w, p.last)) && BelowFloor(c, who.Tso(p.last))
    requires LogApart(Moved(c, w, p.last)) && Fresh(c, p)
    ensures Covered(who, WithIssue(c, w, p)) && LogApart(WithIssue(c, w, p))
  {
    hide TsoAt, HasCap, RecoveryFloor;
    WithIssueSame(who, c, w, p);
  }

  /** A harmless interval keeps the invariant, whoever takes it and under whatever bound. */
  lemma IssuedKeepsInv(who: Identity, c: Cluster, w: nat, p: Plan)
    requires who.Valid() && Inv(who, c) && Harmless(who, c, w, p)
    requires w in c.workers && c.workers[w].nextIndex <= p.start <= p.last < U64_MAX
    ensures Inv(who, WithIssue(c, w, p))
  {
    hide Covered, Revisions, HoldersLead, FuturesDisjoint, PastSafe, LogApart, Unreachable, Fresh, BehindHolders,
      BelowFloor, TsoAt, Moved, WithIssue;
    MovedKeepsInv(who, c, w, p.last);
    WithIssueSame(who, c, w, p);
    IssuedKeepsPast(who, c, w, p);
    IssuedKeepsLead(who, c, w, p);
    IssuedKeepsRest(who, c, w, p);
  }

  // ---------------------------------------------------------- every run

  /** An allocation passes a bound. */
  predicate Bounded(action: Action) {
    action.Allocate? ==> action.request.issuedUpperBound.Some?
  }

  /** An allocation without a bound that returns timestamps must be harmless; nothing is asked of other actions. */
  ghost predicate Careful(who: Identity, c: Cluster, action: Action)
    requires who.Valid()
  {
    !Bounded(action) ==>
      var plan := Planned(who, c, action.worker, action.request);
      plan.Some? && Encodable(who, plan.value.last) ==> Harmless(who, c, action.worker, plan.value)
  }

  lemma AllocateKeepsInv(who: Identity, c: Cluster, w: nat, request: Request)
    requires who.Valid() && Inv(who, c) && Careful(who, c, Allocate(w, request))
    ensures Inv(who, Next(who, c, Allocate(w, request)))
  {
    hide Inv, Planned, Encodable, Harmless, WithIssue, Moved;
    var plan := Planned(who, c, w, request);
    if plan.Some? {
      if !Encodable(who, plan.value.last) {
        MovedKeepsInv(who, c, w, plan.value.last);
      } else {
        if request.issuedUpperBound.Some? {
          BoundedIsHarmless(who, c, w, request);
        }
        IssuedKeepsInv(who, c, w, plan.value);
      }
    }
  }

  lemma NextKeepsInv(who: Identity, c: Cluster, action: Action)
    requires who.Valid() && Inv(who, c) && Careful(who, c, action)
    ensures Inv(who, Next(who, c, action))
  {
    hide *;
    match action
    case StartWorker(_) => QuietKeepsInv(who, c, action);
    case CreateRecord(w, bound) => CreateKeepsInv(who, c, w, bound);
    case AdoptOwnRecord(_) => QuietKeepsInv(who, c, action);
    case TakeOver(_, _) => QuietKeepsInv(who, c, action);
    case Initialise(p) => InitialiseKeepsInv(who, c, p);
    case Refresh(_, _, _, _, _) => RefreshKeepsInv(who, c, action);
    case PersistFloor(_) => QuietKeepsInv(who, c, action);
    case Allocate(w, request) => AllocateKeepsInv(who, c, w, request);
  }

  ghost function Run(who: Identity, c: Cluster, actions: seq<Action>): Cluster
    requires who.Valid()
    decreases |actions|
  {
    if actions == [] then c else Run(who, Next(who, c, actions[0]), actions[1..])
  }

  ghost predicate CarefulRun(who: Identity, c: Cluster, actions: seq<Action>)
    requires who.Valid()
    decreases |actions|
  {
    actions != [] ==> Careful(who, c, actions[0]) && CarefulRun(who, Next(who, c, actions[0]), actions[1..])
  }

  ghost predicate AllBounded(actions: seq<Action>) {
    forall i :: 0 <= i < |actions| ==> Bounded(actions[i])
  }

  /** A run that always passes a bound is careful, whatever state it starts from. */
  lemma {:induction false} BoundedRunIsCareful(who: Identity, c: Cluster, actions: seq<Action>)
    requires who.Valid() && AllBounded(actions)
    ensures CarefulRun(who, c, actions)
    decreases |actions|
  {
    hide Next;
    if actions != [] {
      BoundedRunIsCareful(who, Next(who, c, actions[0]), actions[1..]);
    }
  }

  lemma {:induction false} RunKeepsInv(who: Identity, c: Cluster, actions: seq<Action>)
    requires who.Valid() && Inv(who, c) && CarefulRun(who, c, actions)
    ensures Inv(who, Run(who, c, actions))
    decreases |actions|
  {
    hide Next, Inv, Careful;
    if actions != [] {
      NextKeepsInv(who, c, actions[0]);
      RunKeepsInv(who, Next(who, c, actions[0]), actions[1..]);
    }
  }

  /** No timestamp is in two issued intervals. */
  ghost predicate Distinct(who: Identity, log: seq<Issue>) {
    forall i, j, t: nat :: 0 <= i < j < |log| ==> !InBoth(who, log[i].plan, log[j].plan, t)
  }

  ghost predicate InBoth(who: Identity, p: Plan, q: Plan, t: nat) {
    t in PlanTsos(who, p) && t in PlanTsos(who, q)
  }

  lemma ApartShareNothing(who: Identity, p: Plan, q: Plan, t: nat)
    requires who.Valid() && Apart(p, q) && p.start <= p.last && q.start <= q.last
    ensures !InBoth(who, p, q, t)
  {
    hide TsoAt, Identity.Tsos;
    TsosIncrease(who, p.start, p.last - p.start + 1);
    TsosIncrease(who, q.start, q.last - q.start + 1);
    TsoAtOrder(who.layout, who.id, q.start, p.last + 1);
    TsoAtOrder(who.layout, who.id, p.start, q.last + 1);
  }

  lemma InvDistinct(who: Identity, c: Cluster)
    requires who.Valid() && Inv(who, c)
    ensures Distinct(who, c.log)
  {
    hide InBoth, Covered, Revisions, HoldersLead, FuturesDisjoint, PastSafe;
    forall i, j, t: nat | 0 <= i < j < |c.log| ensures !InBoth(who, c.log[i].plan, c.log[j].plan, t) {
      ApartShareNothing(who, c.log[i].plan, c.log[j].plan, t);
    }
  }

  /** No timestamp of a shared generator id is returned twice, by whatever workers, in any
      interleaving of starts, takeovers, renewals, delayed initialisations and allocations
      whose allocations without a bound are harmless; with a bound there is no condition. */
  lemma NoTimestampTwiceAcrossWorkers(who: Identity, actions: seq<Action>)
    requires who.Valid() && CarefulRun(who, EMPTY, actions)
    ensures Distinct(who, Run(who, EMPTY, actions).log)
  {
    hide Run, CarefulRun, Distinct;
    RunKeepsInv(who, EMPTY, actions);
    InvDistinct(who, Run(who, EMPTY, actions));
  }

  /** In particular, passing a bound every time is enough. */
  lemma NoTimestampTwiceWhenBounded(who: Identity, actions: seq<Action>)
    requires who.Valid() && AllBounded(actions)
    ensures Distinct(who, Run(who, EMPTY, actions).log)
  {
    hide Run, CarefulRun, Distinct;
    BoundedRunIsCareful(who, EMPTY, actions);
    NoTimestampTwiceAcrossWorkers(who, actions);
  }

  /** Everything ever returned stays at or below the record's recovery floor, and that floor
      never decreases along such a run. */
  lemma {:induction false} FloorCoversRun(who: Identity, c: Cluster, actions: seq<Action>)
    requires who.Valid() && Inv(who, c) && CarefulRun(who, c, actions)
    ensures AtMost(Floor(c), Floor(Run(who, c, actions)))
    ensures Covered(who, Run(who, c, actions))
    decreases |actions|
  {
    hide Covered, Revisions, HoldersLead, FuturesDisjoint, PastSafe, LogApart, Next, Floor, Careful;
    if actions != [] {
      NextKeepsInv(who, c, actions[0]);
      FloorMonotone(who, c, actions[0]);
      FloorCoversRun(who, Next(who, c, actions[0]), actions[1..]);
    }
  }

  // --------------------------------------------- what each write achieves

  /** Nothing but worker `w`, the record and the waiting initialisations changed. */
  ghost predicate OnlyWorker(c: Cluster, c': Cluster, w: nat) {
    c'.log == c.log && c'.workers - {w} == c.workers - {w}
  }

  /** The creator holds the current lease and may allocate up to the bound it wrote. */
  lemma CreateWrites(who: Identity, c: Cluster, w: nat, bound: Option<u64>)
    requires who.Valid() && w in c.workers && c.stored.None?
    ensures var c' := Next(who, c, CreateRecord(w, bound));
            && OnlyWorker(c, c', w) && Holds(c', w) && c'.stored.value.revision == 1
            && Floor(c') == bound && MayPass(c'.workers[w], bound)
  {
    var c' := Next(who, c, CreateRecord(w, bound));
    assert LeaseOf(c'.stored.value, None) in c'.workers[w].leases;
  }

  /** A takeover keeps the old floor as the last issued timestamp, writes the new bound and ends every current lease. */
  lemma TakeOverWrites(who: Identity, c: Cluster, w: nat, bound: Option<u64>)
    requires who.Valid() && Revisions(c) && w in c.workers && c.stored.Some?
    ensures var c' := Next(who, c, TakeOver(w, bound));
            && c'.workers == c.workers && c'.log == c.log
            && c'.stored.value.revision == c.stored.value.revision + 1
            && c'.stored.value.record == GeneratorRecord(Floor(c), bound)
            && (forall x :: x in c.workers ==> !Holds(c', x))
            && Pending(w, c'.stored.value, Floor(c)) in c'.pending
  {
    var c' := Next(who, c, TakeOver(w, bound));
    forall x | x in c.workers ensures !Holds(c', x) {
      assert forall l :: l in c.workers[x].leases ==> LeaseOk(c.stored, l);
    }
  }

  /** Adopting one's own record, or finishing a takeover, makes the worker a holder past the record's floor. */
  lemma InitialiseHolds(who: Identity, c: Cluster, p: Pending)
    requires who.Valid() && p in c.pending && p.worker in c.workers
    requires RecoveryFloor(p.source.record).Some? ==> InitIndex(who, RecoveryFloor(p.source.record).value).Ok?
    ensures var c', bound := Next(who, c, Initialise(p)), p.source.record.issuedUpperBound;
            && OnlyWorker(c, c', p.worker) && c'.stored == c.stored
            && (c.stored == Some(p.source) ==> Holds(c', p.worker)) && MayPass(c'.workers[p.worker], bound)
            && Lease(p.source.revision, p.lastPersistedTso, bound) in c'.workers[p.worker].leases
            && c'.workers[p.worker].nextIndex ==
               Max(c.workers[p.worker].nextIndex,
                   if RecoveryFloor(p.source.record).None? then 0
                   else InitIndex(who, RecoveryFloor(p.source.record).value).value)
  {
    hide InitIndex, RecoveryFloor;
    var c' := Next(who, c, Initialise(p));
    assert LeaseOf(p.source, p.lastPersistedTso) in c'.workers[p.worker].leases;
  }

  /** A generator that cannot start past the record's floor leaves its worker without a lease. */
  lemma InitialiseFails(who: Identity, c: Cluster, p: Pending)
    requires who.Valid() && p in c.pending && p.worker in c.workers && RecoveryFloor(p.source.record).Some?
    requires who.Tso(U64_MAX) <= RecoveryFloor(p.source.record).value
    ensures Next(who, c, Initialise(p)) == c.(pending := c.pending - {p})
  {
    hide InitIndex, RecoveryFloor, TsoAt;
    var floor := RecoveryFloor(p.source.record).value;
    FloorIndexExact(who, floor, U64_MAX);
  }

  /**
   * An allocation issues exactly what was asked for, from the first position there
   * is, if and only if the bound is one the worker was granted, or none after a
   * lease, and the generator admits the request; otherwise nothing happens.
   */
  lemma AllocateIssues(who: Identity, c: Cluster, w: nat, request: Request)
    requires who.Valid() && w in c.workers && request.count >= 1 && FloorIndex(who, request.floor).Ok?
    ensures var c', worker, bound := Next(who, c, Allocate(w, request)), c.workers[w], request.issuedUpperBound;
            var floorIndex := FloorIndex(who, request.floor).value;
            var start := StartOf(who, worker.nextIndex, floorIndex, request.nowMs);
            if && (bound.Some? ==> bound.value in worker.caps) && (bound.None? ==> worker.leases != {})
               && Admissible(who, worker.nextIndex, floorIndex, request)
            then && start + request.count <= U64_MAX
                 && c'.workers == c.workers[w := worker.(nextIndex := start + request.count)]
                 && c' == c.(workers := c'.workers, log := c'.log)
                 && c'.log == c.log + if Encodable(who, start + request.count - 1)
                                      then [Issue(w, Plan(start, start + request.count - 1))] else []
            else c' == c
  {
    hide Attempt, FloorIndex, Encodable, Admissible, StartOf;
    var loaded, floorIndex := c.workers[w].nextIndex, FloorIndex(who, request.floor).value;
    AttemptExact(who, loaded, floorIndex, request);
    if Attempt(who, loaded, floorIndex, request).Ok? {
      AttemptShape(who, loaded, floorIndex, request);
    }
  }

  lemma AdoptWaits(who: Identity, c: Cluster, w: nat)
    requires who.Valid() && w in c.workers && c.stored.Some?
    ensures var c' := Next(who, c, AdoptOwnRecord(w));
            && c' == c.(pending := c'.pending) && c.pending <= c'.pending
            && Pending(w, c.stored.value, Floor(c)) in c'.pending
  {}

  /**
   * A refresh by a holder persists what it has seen issued, raises the bound to the
   * larger one exactly when it extends, and leaves its writer the one holder.
   */
  lemma RefreshWrites(who: Identity, c: Cluster, w: nat, lease: Lease, observedLast: Option<u64>, bound: Option<u64>,
                      extend: bool)
    requires who.Valid() && Revisions(c) && w in c.workers && lease in c.workers[w].leases
    requires c.stored.Some? && c.stored.value.revision == lease.revision
    ensures var c' := Next(who, c, Refresh(w, lease, observedLast, bound, extend));
            var before, now := c.stored.value.record, c'.stored.value.record;
            && OnlyWorker(c, c', w) && c'.stored.value.revision == c.stored.value.revision + 1
            && AtMost(observedLast, now.lastIssuedTso) && AtMost(observedLast, Floor(c'))
            && now.lastIssuedTso in {lease.lastPersistedTso, observedLast}
            && (if extend then && AtMost(bound, now.issuedUpperBound)
                               && AtMost(before.issuedUpperBound, now.issuedUpperBound)
                               && now.issuedUpperBound in {before.issuedUpperBound, bound}
                else now.issuedUpperBound == before.issuedUpperBound)
            && MayPass(c'.workers[w], now.issuedUpperBound)
            && (forall x :: x in c.workers ==> (Holds(c', x) <==> x == w))
  {
    var c' := Next(who, c, Refresh(w, lease, observedLast, bound, extend));
    assert LeaseOk(c.stored, lease);
    assert LeaseOf(c'.stored.value, c'.stored.value.record.lastIssuedTso) in c'.workers[w].leases;
    forall x | x in c.workers && x != w ensures !Holds(c', x) {
      assert forall l :: l in c.workers[x].leases ==> LeaseOk(c.stored, l);
    }
  }

  /** The floor written at shutdown covers everything observed and leaves the bound alone. */
  lemma PersistFloorWrites(who: Identity, c: Cluster, observedLast: Option<u64>)
    requires who.Valid() && c.stored.Some?
    ensures var c' := Next(who, c, PersistFloor(observedLast));
            && c'.workers == c.workers && c'.log == c.log && c'.pending == c.pending
            && AtMost(observedLast, Floor(c')) && AtMost(Floor(c), Floor(c'))
            && Floor(c') in {Floor(c), observedLast}
            && c'.stored.value.record.issuedUpperBound == c.stored.value.record.issuedUpperBound
            && c'.stored.value.record.lastIssuedTso in {c.stored.value.record.lastIssuedTso, observedLast}
            && AtMost(observedLast, c'.stored.value.record.lastIssuedTso)
            && (c' == c || c'.stored.value.revision == c.stored.value.revision + 1)
            && (c' == c <==> AtMost(observedLast, c.stored.value.record.lastIssuedTso))
  {}

  // ------------------------------------- allocations without a bound, exactly

  lemma Shares(who: Identity, p: Plan, q: Plan, k: nat)
    requires p.start <= k <= p.last && q.start <= k <= q.last
    ensures InBoth(who, p, q, who.Tso(k))
  {
    hide TsoAt;
    assert PlanTsos(who, p)[k - p.start] == who.Tso(k);
    assert PlanTsos(who, q)[k - q.start] == who.Tso(k);
  }

  /** A worker with a cap at or above an issued position it has not passed can issue it again. */
  lemma IssueAgain(who: Identity, c: Cluster, v: nat, cap: u64, k: u64, i: nat) returns (action: Action)
    requires who.Valid() && HasCap(c, v, cap) && c.workers[v].nextIndex <= k < U64_MAX
    requires Encodable(who, k) && who.Tso(k) <= cap
    requires i < |c.log| && c.log[i].plan.start <= k <= c.log[i].plan.last
    ensures Bounded(action) && !Distinct(who, Next(who, c, action).log)
  {
    hide Attempt, TsoAt, Encodable, RequestUpTo, InBoth;
    var next := c.workers[v].nextIndex;
    var request := RequestUpTo(who, next, k, Some(cap));
    ReachesUpTo(who, next, k, Some(cap));
    AttemptShape(who, next, 0, request);
    action := Allocate(v, request);
    var plan := Planned(who, c, v, request).value;
    assert plan.last == k;
    var log := Next(who, c, action).log;
    assert log == c.log + [Issue(v, plan)];
    Shares(who, c.log[i].plan, plan, k);
    assert InBoth(who, log[i].plan, log[|c.log|].plan, who.Tso(k));
  }

  lemma TsoFits(who: Identity, k: nat)
    requires who.Valid() && Encodable(who, k)
    ensures who.Tso(k) <= U64_MAX
  {
    hide Div, Mod, Pow2, TimestampLayout.Compose;
    ComposeFits(who.layout, Div(k, who.Cap()), who.id, Mod(k, who.Cap()));
  }

  /** A holder of the current lease can extend the bound to any position and issue it. */
  lemma ExtendAndIssueAgain(who: Identity, c: Cluster, x: nat, k: u64, i: nat) returns (actions: seq<Action>)
    requires who.Valid() && Holds(c, x) && c.workers[x].nextIndex <= k < U64_MAX && Encodable(who, k)
    requires i < |c.log| && c.log[i].plan.start <= k <= c.log[i].plan.last
    ensures AllBounded(actions) && !Distinct(who, Run(who, c, actions).log)
  {
    hide TsoAt, Encodable, Distinct;
    TsoFits(who, k);
    var l :| l in c.workers[x].leases && l.revision == c.stored.value.revision;
    var extend := Refresh(x, l, None, Some(who.Tso(k)), true);
    var c' := Next(who, c, extend);
    var cap := MergeMax(l.issuedUpperBound, Some(who.Tso(k))).value;
    assert HasCap(c', x, cap);
    var again := IssueAgain(who, c', x, cap, k, i);
    actions := [extend, again];
    assert actions[1..] == [again] && [again][1..] == [];
    assert Run(who, c', [again]) == Next(who, c', again);
  }

  lemma {:induction false} UnusedId(ids: set<nat>) returns (v: nat)
    ensures forall x :: x in ids ==> x < v
    decreases |ids|
  {
    if ids == {} {
      v := 0;
    } else {
      var x :| x in ids;
      var u := UnusedId(ids - {x});
      v := if u > x then u else x + 1;
      assert forall y :: y in ids ==> y == x || y in ids - {x};
    }
  }

  /** A new worker takes over and starts from the old floor: it holds the current lease at or before `k`. */
  lemma TakeOverAt(who: Identity, c: Cluster, k: u64) returns (v: nat, actions: seq<Action>)
    requires who.Valid() && c.stored.Some? && !BelowFloor(c, who.Tso(k))
    ensures AllBounded(actions)
    ensures var c' := Run(who, c, actions);
            Holds(c', v) && c'.workers[v].nextIndex <= k && c'.log == c.log
  {
    hide TsoAt, InitIndex, BelowFloor;
    v := UnusedId(c.workers.Keys);
    var c1 := Next(who, c, StartWorker(v));
    var c2 := Next(who, c1, TakeOver(v, None));
    var p := Pending(v, c2.stored.value, c2.stored.value.record.lastIssuedTso);
    assert RecoveryFloor(p.source.record) == Floor(c);
    InitAtOrBefore(who, c, k);
    var c3 := Next(who, c2, Initialise(p));
    assert LeaseOf(p.source, p.lastPersistedTso) in c3.workers[v].leases;
    assert Holds(c3, v);
    actions := [StartWorker(v), TakeOver(v, None), Initialise(p)];
    RunThree(who, c, actions);
  }

  lemma RunThree(who: Identity, c: Cluster, actions: seq<Action>)
    requires who.Valid() && |actions| == 3
    ensures Run(who, c, actions) == Next(who, Next(who, Next(who, c, actions[0]), actions[1]), actions[2])
  {
    hide Next;
    var c1 := Next(who, c, actions[0]);
    var c2 := Next(who, c1, actions[1]);
    assert actions[1..][0] == actions[1] && actions[1..][1..][0] == actions[2];
    assert Run(who, c, actions) == Run(who, c1, actions[1..]);
    assert Run(who, c1, actions[1..]) == Run(who, c2, actions[1..][1..]);
    assert actions[1..][1..][1..] == [];
    assert Run(who, c2, actions[1..][1..]) == Next(who, c2, actions[2]);
  }

  lemma InitAtOrBefore(who: Identity, c: Cluster, k: u64)
    requires who.Valid() && !BelowFloor(c, who.Tso(k))
    ensures Floor(c).Some? ==> InitIndex(who, Floor(c).value).Ok? && InitIndex(who, Floor(c).value).value <= k
  {
    hide CursorWord, TsoAt, NextCursorAfter, RecoveryFloor;
    if Floor(c).Some? {
      var floor := Floor(c).value;
      CursorWordExact(who, floor);
      NextCursorIsLeast(who.layout, floor, who.id, k);
    }
  }

  lemma {:induction false} RunConcat(who: Identity, c: Cluster, a: seq<Action>, b: seq<Action>)
    requires who.Valid()
    ensures Run(who, c, a + b) == Run(who, Run(who, c, a), b)
    decreases |a|
  {
    hide Next;
    if a == [] {
      assert a + b == b;
    } else {
      assert (a + b)[1..] == a[1..] + b;
      RunConcat(who, Next(who, c, a[0]), a[1..], b);
    }
  }

  /** An interval above the persisted floor is issued again after one takeover. */
  lemma AboveFloorCollides(who: Identity, c: Cluster, k: u64, i: nat) returns (actions: seq<Action>)
    requires who.Valid() && c.stored.Some? && !BelowFloor(c, who.Tso(k)) && k < U64_MAX && Encodable(who, k)
    requires i < |c.log| && c.log[i].plan.start <= k <= c.log[i].plan.last
    ensures AllBounded(actions) && !Distinct(who, Run(who, c, actions).log)
  {
    hide TsoAt, Encodable, Distinct, Run, BelowFloor, Holds;
    var v, first := TakeOverAt(who, c, k);
    var rest := ExtendAndIssueAgain(who, Run(who, c, first), v, k, i);
    RunConcat(who, c, first, rest);
    actions := first + rest;
  }

  /** A harmful interval leads to a second issue by actions that all pass their bounds. */
  lemma HarmfulCollides(who: Identity, c: Cluster, w: nat, p: Plan) returns (actions: seq<Action>)
    requires who.Valid() && Inv(who, c) && c.stored.Some? && Encodable(who, p.last)
    requires w in c.workers && c.workers[w].nextIndex <= p.start <= p.last < U64_MAX && !Harmless(who, c, w, p)
    ensures AllBounded(actions) && !Distinct(who, Run(who, WithIssue(c, w, p), actions).log)
  {
    hide TsoAt, Encodable, Distinct, Next, HoldersLead, FuturesDisjoint, PastSafe, Spent, RecoveryFloor;
    var c', n := WithIssue(c, w, p), |c.log|;
    if !BelowFloor(c, who.Tso(p.last)) {
      actions := AboveFloorCollides(who, c', p.last, n);
    } else if !Unreachable(who, c, w, p) {
      actions := ReachableCollides(who, c, w, p);
    } else if !Fresh(c, p) {
      OverlapCollides(who, c, w, p);
      actions := [];
    } else {
      var x :| Holds(c, x) && x != w && !(p.last < c.workers[x].nextIndex);
      assert Holds(c', x);
      actions := ExtendAndIssueAgain(who, c', x, p.last, n);
    }
  }

  lemma OverlapCollides(who: Identity, c: Cluster, w: nat, p: Plan)
    requires who.Valid() && LogApart(c) && w in c.workers && p.start <= p.last < U64_MAX && !Fresh(c, p)
    ensures !Distinct(who, WithIssue(c, w, p).log)
  {
    hide InBoth;
    var i :| 0 <= i < |c.log| && !Apart(c.log[i].plan, p);
    var q, log := c.log[i].plan, WithIssue(c, w, p).log;
    Shares(who, q, p, Max(q.start, p.start));
    assert InBoth(who, log[i].plan, log[|c.log|].plan, who.Tso(Max(q.start, p.start)));
  }

  lemma ReachableCollides(who: Identity, c: Cluster, w: nat, p: Plan) returns (actions: seq<Action>)
    requires who.Valid() && Covered(who, c) && Encodable(who, p.last)
    requires w in c.workers && p.start <= p.last < U64_MAX && !Unreachable(who, c, w, p)
    ensures AllBounded(actions) && !Distinct(who, Run(who, WithIssue(c, w, p), actions).log)
  {
    hide TsoAt, Distinct, Next;
    var c' := WithIssue(c, w, p);
    var v: nat, cap: nat :| HasCap(c, v, cap) && v != w
      && !(p.last < c.workers[v].nextIndex || who.Tso(p.start) > cap || Spent(who, c.workers[v], cap));
    assert HasCap(c', v, cap) && BelowFloor(c, cap);
    var k := Max(p.start, c.workers[v].nextIndex);
    DivMonotone(k, p.last, who.Cap());
    var again := IssueAgain(who, c', v, cap, k, |c.log|);
    actions := [again];
    assert Run(who, c', actions) == Run(who, Next(who, c', again), actions[1..]) && actions[1..] == [];
  }

  /** Whatever bounded actions follow, no timestamp is returned twice. */
  ghost predicate StaysDistinct(who: Identity, c: Cluster)
    requires who.Valid()
  {
    forall actions: seq<Action> :: AllBounded(actions) ==> Distinct(who, Run(who, c, actions).log)
  }

  /**
   * The exact condition for an allocation without a bound: in any state careful
   * runs lead to, it leaves the protocol safe if and only if its interval is
   * harmless.
   */
  lemma UnboundedSafeIffHarmless(who: Identity, c: Cluster, w: nat, request: Request)
    requires who.Valid() && Inv(who, c) && request.issuedUpperBound.None?
    requires Planned(who, c, w, request).Some? && Encodable(who, Planned(who, c, w, request).value.last)
    ensures StaysDistinct(who, Next(who, c, Allocate(w, request)))
            <==> Harmless(who, c, w, Planned(who, c, w, request).value)
  {
    hide Encodable, Harmless, Inv, Distinct, Run, WithIssue, Attempt, FloorIndex;
    var p := Planned(who, c, w, request).value;
    var c' := WithIssue(c, w, p);
    if Harmless(who, c, w, p) {
      IssuedKeepsInv(who, c, w, p);
      forall actions: seq<Action> | AllBounded(actions) ensures Distinct(who, Run(who, c', actions).log) {
        BoundedRunIsCareful(who, c', actions);
        RunKeepsInv(who, c', actions);
        InvDistinct(who, Run(who, c', actions));
      }
    } else {
      LeasedHasRecord(who, c, w);
      var actions := HarmfulCollides(who, c, w, p);
    }
  }

  lemma LeasedHasRecord(who: Identity, c: Cluster, w: nat)
    requires Inv(who, c) && w in c.workers && c.workers[w].leases != {}
    ensures c.stored.Some?
  {
    hide Covered, HoldersLead, FuturesDisjoint, PastSafe, LogApart;
    var l :| l in c.workers[w].leases;
    assert LeaseOk(c.stored, l);
  }

  /** Worker 0 creates the record without a bound and worker 1 takes it over: both have had a lease. */
  lemma TwoLeaseholders(who: Identity) returns (actions: seq<Action>)
    requires who.Valid()
    ensures forall i :: 0 <= i < |actions| ==> !actions[i].Allocate?
    ensures var c := Run(who, EMPTY, actions);
            && c.log == [] && c.workers.Keys == {0, 1}
            && (forall w :: w in c.workers ==> c.workers[w].nextIndex == 0 && c.workers[w].leases != {})
  {
    hide Run;
    var c1 := Next(who, Next(who, Next(who, EMPTY, StartWorker(0)), StartWorker(1)), CreateRecord(0, None));
    assert LeaseOf(c1.stored.value, None) in c1.workers[0].leases;
    var c2 := Next(who, c1, TakeOver(1, None));
    var p := Pending(1, c2.stored.value, None);
    var c3 := Next(who, c2, Initialise(p));
    assert LeaseOf(p.source, None) in c3.workers[1].leases;
    var a := [StartWorker(0), StartWorker(1), CreateRecord(0, None)];
    RunThree(who, EMPTY, a);
    RunLast(who, c1, TakeOver(1, None));
    RunConcat(who, EMPTY, a, [TakeOver(1, None)]);
    RunLast(who, c2, Initialise(p));
    RunConcat(who, EMPTY, a + [TakeOver(1, None)], [Initialise(p)]);
    actions := a + [TakeOver(1, None)] + [Initialise(p)];
  }

  /** An allocation without a bound, from position 0 up to `k`. */
  lemma AllocatesUpTo(who: Identity, c: Cluster, w: nat, k: u64)
    requires who.Valid() && k < U64_MAX && Encodable(who, k)
    requires w in c.workers && c.workers[w].nextIndex == 0 && c.workers[w].leases != {}
    ensures var p := Plan(who.Millisecond(k) * who.Cap(), k);
            && p.start <= k
            && Next(who, c, Allocate(w, RequestUpTo(who, 0, k, None))) == WithIssue(c, w, p)
  {
    hide Attempt, TsoAt, RequestUpTo, Encodable;
    ReachesUpTo(who, 0, k, None);
    AttemptShape(who, 0, 0, RequestUpTo(who, 0, k, None));
  }

  /**
   * Such a run: no bound could be computed, worker 1 takes over after worker 0's
   * lease was checked and before it allocates, and both return position `k`,
   * reading their clocks in `k`'s own millisecond. Any position will do.
   */
  lemma UnboundedRunCollides(who: Identity, k: u64) returns (actions: seq<Action>)
    requires who.Valid() && k < U64_MAX && Encodable(who, k)
    ensures !Distinct(who, Run(who, EMPTY, actions).log)
    ensures forall i :: 0 <= i < |actions| && actions[i].Allocate? ==>
              actions[i].request.nowMs == who.Millisecond(k) && forall j :: i < j < |actions| ==> !actions[j].TakeOver?
  {
    hide Next, TsoAt, RequestUpTo, InBoth, Run, Encodable, Identity.Millisecond;
    var before := TwoLeaseholders(who);
    var c, request := Run(who, EMPTY, before), RequestUpTo(who, 0, k, None);
    var plan := Plan(who.Millisecond(k) * who.Cap(), k);
    AllocatesUpTo(who, c, 1, k);
    var c1 := Next(who, c, Allocate(1, request));
    AllocatesUpTo(who, c1, 0, k);
    var c2 := Next(who, c1, Allocate(0, request));
    assert c2.log[0] == Issue(1, plan) && c2.log[1] == Issue(0, plan);
    Shares(who, plan, plan, k);
    assert InBoth(who, c2.log[0].plan, c2.log[1].plan, who.Tso(k));
    RunLast(who, c, Allocate(1, request));
    RunConcat(who, EMPTY, before, [Allocate(1, request)]);
    RunLast(who, c1, Allocate(0, request));
    RunConcat(who, EMPTY, before + [Allocate(1, request)], [Allocate(0, request)]);
    actions := before + [Allocate(1, request)] + [Allocate(0, request)];
  }

  lemma RunLast(who: Identity, c: Cluster, action: Action)
    requires who.Valid()
    ensures Run(who, c, [action]) == Next(who, c, action)
  {
    hide Next;
    assert [action][1..] == [];
    assert Run(who, Next(who, c, action), []) == Next(who, c, action);
  }

  /** A takeover initialises its generator past the very bound it has just written, so no
      request under that bound succeeds before a refresh extends it. */
  lemma TakeoverBoundUnusable(who: Identity, record: GeneratorRecord, bound: u64, nextIndex: u64, request: Request)
    requires who.Valid() && request.count >= 1 && FloorIndex(who, request.floor).Ok?
    requires var written := TakeOverRecord(record, Some(bound));
             InitIndex(who, RecoveryFloor(written).value).Ok?
             && InitIndex(who, RecoveryFloor(written).value).value <= nextIndex
    requires request.issuedUpperBound == Some(bound)
    ensures Attempt(who, nextIndex, FloorIndex(who, request.floor).value, request).Err?
  {
    hide TsoAt, Attempt, FloorIndex, InitIndex;
    var written, floorIndex := TakeOverRecord(record, Some(bound)), FloorIndex(who, request.floor).value;
    if Attempt(who, nextIndex, floorIndex, request).Ok? {
      var p := Attempt(who, nextIndex, floorIndex, request).value;
      InitPassesFloor(who, RecoveryFloor(written).value, p.last) by {
        AttemptShape(who, nextIndex, floorIndex, request);
      }
      AttemptCapped(who, nextIndex, floorIndex, request);
    }
  }
}
