/**
 * Timeline records of the in-memory metadata store: revisions, the cached
 * sorted key listing, and the route updates published to subscribers.
 */
module TimelineRecords {
  import opened Common
  import opened ByteStrings
  import opened RevisionedMap
  import opened Pages

  datatype LifecycleState = Creating | Active | Draining | Locked | Recovering

  datatype ResourceTier = Shared | Warm | Dedicated

  datatype Route = Route(
    timelineKey: Bytes,
    generatorId: nat,
    epoch: nat,
    routeVersion: nat,
    resourceTier: ResourceTier,
    ownerWorkerEndpoint: Bytes)

  datatype TimelineRecord = TimelineRecord(
    schemaVersion: nat,
    route: Route,
    state: LifecycleState,
    recoveryFloorTso: Option<u64>,
    issuedUpperBound: Option<u64>,
    lastGracefulIssued: Option<u64>,
    leaseExpireAtMs: Option<u64>,
    updatedAtMs: u64)
  {
    function Stamped(): TimelineRecord {
      this.(schemaVersion := CURRENT_SCHEMA)
    }
  }

  type Entries = map<Bytes, Versioned<TimelineRecord>>

  type Batch = seq<BatchOp<Bytes, TimelineRecord>>

  datatype Store = Store(records: Entries, sortedKeys: Option<seq<Bytes>>, published: seq<Route>)

  const EMPTY: Store := Store(map[], None, [])

  predicate Supported(record: TimelineRecord) {
    record.schemaVersion == CURRENT_SCHEMA
  }

  /** `timeline_route_update_from_routes`: a route is announced when it is new or differs. */
  function RouteUpdates(previous: Option<Route>, next: Route): seq<Route> {
    if previous == Some(next) then [] else [next]
  }

  // ---- What the operations do ----

  function Created(s: Store, key: Bytes, record: TimelineRecord): Store {
    Store(s.records[key := Versioned(record.Stamped(), 1)], None, s.published + [record.route])
  }

  function Create(s: Store, key: Bytes, record: TimelineRecord): (Store, Result<nat>) {
    if !Supported(record) then (s, Err(Internal))
    else if key in s.records then (s, Err(MetadataAlreadyExists))
    else (Created(s, key, record), Ok(1))
  }

  function CreateWithLimit(s: Store, key: Bytes, record: TimelineRecord, max: nat): (Store, Result<nat>) {
    if key in s.records then (s, Err(MetadataAlreadyExists))
    else if |s.records| >= max then (s, Err(TimelineLimitReached(max)))
    else if !Supported(record) then (s, Err(Internal))
    else (Created(s, key, record), Ok(1))
  }

  function CompareExchange(s: Store, key: Bytes, expected: nat, record: TimelineRecord): (Store, Result<nat>) {
    if !Supported(record) then (s, Err(Internal))
    else
      var (records, r) := CasEntry(s.records, key, expected, record.Stamped());
      if r.Err? then (s, r)
      else (Store(records, if record.route.timelineKey != key then None else s.sortedKeys,
                  s.published + RouteUpdates(Some(s.records[key].record.route), record.route)), r)
  }

  /** The announcements of the first `n` operations, each against the record it replaces. */
  function BatchUpdates(m: Entries, ops: Batch, n: nat): seq<Route>
    requires n <= |ops| && forall i :: 0 <= i < |ops| ==> ops[i].key in m
  {
    if n == 0 then []
    else BatchUpdates(m, ops, n - 1) + RouteUpdates(Some(m[ops[n - 1].key].record.route), ops[n - 1].record.route)
  }

  predicate KeyChanged(ops: Batch) {
    exists i :: 0 <= i < |ops| && ops[i].record.route.timelineKey != ops[i].key
  }

  ghost function Committed(s: Store, ops: Batch): Store
    requires AllCurrent(s.records, ops)
  {
    Store(Written(s.records, ops, |ops|), if KeyChanged(ops) then None else s.sortedKeys,
          s.published + BatchUpdates(s.records, ops, |ops|))
  }

  // ---- What a listing answers ----

  datatype RecordPage = RecordPage(records: seq<TimelineRecord>, next: Option<Bytes>)

  ghost function Lookup(records: Entries, keys: seq<Bytes>): (found: seq<TimelineRecord>)
    requires forall i :: 0 <= i < |keys| ==> keys[i] in records
    ensures |found| == |keys|
  {
    seq(|keys|, i requires 0 <= i < |keys| => records[keys[i]].record)
  }

  ghost predicate Aligned(records: Entries) {
    forall key :: key in records ==> records[key].record.route.timelineKey == key
  }

  function RouteKey(records: Entries, key: Bytes): Bytes
    requires key in records
  {
    records[key].record.route.timelineKey
  }

  /** Every stored route but the last names its key or something between its key and the next one. */
  ghost predicate Spaced(records: Entries) {
    forall k: Bytes, l: Bytes :: k in records && l in records && Less(k, l) ==>
      !Less(RouteKey(records, k), k) && Less(RouteKey(records, k), l)
  }

  /** Every record under these keys has the supported schema. */
  ghost predicate AllReadable(records: Entries, keys: seq<Bytes>) {
    forall i :: 0 <= i < |keys| ==> keys[i] in records && records[keys[i]].record.schemaVersion == 1
  }

  ghost predicate AllSupported(records: Entries) {
    forall key :: key in records ==> Supported(records[key].record)
  }

  /** The records found under the page's keys; the cursor is the key that the last one's route names. */
  ghost predicate Answers(records: Entries, page: RecordPage, keyPage: KeyPage) {
    && (forall i :: 0 <= i < |keyPage.keys| ==> keyPage.keys[i] in records)
    && page.records == Lookup(records, keyPage.keys)
    && (keyPage.next.None? ==> page.next.None?)
    && (keyPage.next.Some? ==> && keyPage.next.value in records
                               && page.next == Some(records[keyPage.next.value].record.route.timelineKey))
  }

  /** The status filter; endpoint equality is passed in. */
  datatype Filter = Filter(states: seq<LifecycleState>, owner: Option<Bytes>)

  predicate Matches(record: TimelineRecord, filter: Filter, sameEndpoint: (Bytes, Bytes) -> bool) {
    && (filter.states == [] || record.state in filter.states)
    && (filter.owner.None? || sameEndpoint(record.route.ownerWorkerEndpoint, filter.owner.value))
  }

  /** A listed state, if states are listed, and an equal endpoint, if an owner is given. */
  ghost predicate Wanted(record: TimelineRecord, filter: Filter, sameEndpoint: (Bytes, Bytes) -> bool) {
    && (filter.states != [] ==> exists i :: 0 <= i < |filter.states| && filter.states[i] == record.state)
    && (filter.owner.Some? ==> sameEndpoint(record.route.ownerWorkerEndpoint, filter.owner.value))
  }

  lemma MatchesIsWanted(record: TimelineRecord, filter: Filter, sameEndpoint: (Bytes, Bytes) -> bool)
    ensures Matches(record, filter, sameEndpoint) <==> Wanted(record, filter, sameEndpoint)
  {}

  ghost function Chosen(records: Entries, filter: Filter, sameEndpoint: (Bytes, Bytes) -> bool): set<Bytes> {
    set key | key in records && Matches(records[key].record, filter, sameEndpoint)
  }

  /** The cache is empty or is exactly a fresh sort of the keys. */
  ghost predicate CacheFresh(s: Store) {
    s.sortedKeys.Some? ==> Sorts(s.sortedKeys.value, s.records.Keys)
  }

  /** Listing a page may fill the cache and changes nothing else. */
  ghost predicate Listed(s: Store, s': Store) {
    || s' == s
    || (s.sortedKeys.None? && s'.sortedKeys.Some? && Sorts(s'.sortedKeys.value, s.records.Keys)
        && s' == s.(sortedKeys := s'.sortedKeys))
  }

  /** The operation's record has the supported schema, is stored at the expected revision, and is named once. */
  ghost predicate Due(m: Entries, ops: Batch, i: nat)
    requires i < |ops|
  {
    && ops[i].record.schemaVersion == 1
    && ops[i].key in m && m[ops[i].key].revision == ops[i].previousRevision
    && forall j :: 0 <= j < |ops| && j != i ==> ops[j].key != ops[i].key
  }

  lemma DueIffCommittable(m: Entries, ops: Batch)
    ensures (forall i :: 0 <= i < |ops| ==> Due(m, ops, i)) <==> Committable(m, ops, Supported)
  {
    if Committable(m, ops, Supported) {
      forall i | 0 <= i < |ops| ensures Due(m, ops, i) {
        forall j | 0 <= j < |ops| && j != i ensures ops[j].key != ops[i].key {
          assert Current(m, ops, i) && Current(m, ops, j);
        }
      }
    }
    if forall i :: 0 <= i < |ops| ==> Due(m, ops, i) {
      forall i | 0 <= i < |ops| ensures Supported(ops[i].record) && Current(m, ops, i) {
        assert Due(m, ops, i);
      }
    }
  }

  /** The routes a batch changes, in order: those that differ from what is stored. */
  function ChangedRoutes(m: Entries, ops: Batch): seq<Route>
    requires forall i :: 0 <= i < |ops| ==> ops[i].key in m
  {
    if ops == [] then []
    else if m[ops[0].key].record.route != ops[0].record.route then [ops[0].record.route] + ChangedRoutes(m, ops[1..])
    else ChangedRoutes(m, ops[1..])
  }

  lemma {:induction false} UpdatesFrom(m: Entries, ops: Batch, n: nat)
    requires n <= |ops| && forall i :: 0 <= i < |ops| ==> ops[i].key in m
    ensures BatchUpdates(m, ops, n) + ChangedRoutes(m, ops[n..]) == ChangedRoutes(m, ops)
  {
    if n == 0 {
      assert ops[0..] == ops;
      assert BatchUpdates(m, ops, 0) == [];
    } else {
      UpdatesFrom(m, ops, n - 1);
      assert ops[n - 1..][1..] == ops[n..] && ops[n - 1..][0] == ops[n - 1];
      Regroup(BatchUpdates(m, ops, n - 1),
        RouteUpdates(Some(m[ops[n - 1].key].record.route), ops[n - 1].record.route), ChangedRoutes(m, ops[n..]));
    }
  }

  /** A batch announces exactly the routes it changes. */
  lemma UpdatesAreChanges(m: Entries, ops: Batch)
    requires forall i :: 0 <= i < |ops| ==> ops[i].key in m
    ensures BatchUpdates(m, ops, |ops|) == ChangedRoutes(m, ops)
  {
    hide BatchUpdates;
    UpdatesFrom(m, ops, |ops|);
    assert ops[|ops|..] == [] && ChangedRoutes(m, []) == [];
  }

  class TimelineStore {
    var records: Entries
    var sortedTimelineKeys: Option<seq<Bytes>>
    var published: seq<Route>

    function State(): Store
      reads this
    {
      Store(records, sortedTimelineKeys, published)
    }

    constructor ()
      ensures State() == EMPTY
    {
      records, sortedTimelineKeys, published := map[], None, [];
    }

    method CreateTimeline(key: Bytes, record: TimelineRecord) returns (r: Result<nat>)
      modifies this
      ensures (State(), r) == Create(old(State()), key, record)
      ensures r.Ok? <==> record.schemaVersion == 1 && key !in old(records)
      ensures r.Ok? ==> && records == old(records)[key := Versioned(record, 1)]
                        && published == old(published) + [record.route]
    {
      if record.schemaVersion != CURRENT_SCHEMA {
        return Err(Internal);
      }
      var stamped := record.Stamped();
      if key in records {
        return Err(MetadataAlreadyExists);
      }
      records := records[key := Versioned(stamped, 1)];
      sortedTimelineKeys := None;
      published := published + RouteUpdates(None, stamped.route);
      return Ok(1);
    }

    method CreateTimelineWithLimit(key: Bytes, record: TimelineRecord, maxTimelines: nat) returns (r: Result<nat>)
      modifies this
      ensures (State(), r) == CreateWithLimit(old(State()), key, record, maxTimelines)
      ensures r.Ok? ==> |records| <= maxTimelines
      ensures r.Ok? <==> record.schemaVersion == 1 && key !in old(records) && |old(records)| < maxTimelines
      ensures r.Ok? ==> && records == old(records)[key := Versioned(record, 1)]
                        && published == old(published) + [record.route]
    {
      if key in records {
        return Err(MetadataAlreadyExists);
      }
      if |records| >= maxTimelines {
        return Err(TimelineLimitReached(maxTimelines));
      }
      if record.schemaVersion != CURRENT_SCHEMA {
        return Err(Internal);
      }
      var stamped := record.Stamped();
      records := records[key := Versioned(stamped, 1)];
      sortedTimelineKeys := None;
      published := published + [stamped.route];
      return Ok(1);
    }

    method CompareExchangeTimeline(key: Bytes, expected: nat, record: TimelineRecord) returns (r: Result<nat>)
      modifies this
      ensures (State(), r) == CompareExchange(old(State()), key, expected, record)
      ensures r.Ok? <==> record.schemaVersion == 1 && key in old(records) && old(records)[key].revision == expected
      ensures r.Ok? ==> && records == old(records)[key := Versioned(record, expected + 1)]
                        && published == if old(records)[key].record.route == record.route then old(published)
                                        else old(published) + [record.route]
    {
      if record.schemaVersion != CURRENT_SCHEMA {
        return Err(Internal);
      }
      var stamped := record.Stamped();
      if key !in records {
        return Err(NotFound);
      }
      var current := records[key];
      if current.revision != expected {
        return Err(CasFailed);
      }
      var updates := RouteUpdates(Some(current.record.route), stamped.route);
      records := records[key := Versioned(stamped, current.revision + 1)];
      if stamped.route.timelineKey != key {
        sortedTimelineKeys := None;
      }
      published := published + updates;
      return Ok(current.revision + 1);
    }

    /** `compare_exchange_timelines`: validates every operation before it writes any. */
    method CompareExchangeTimelines(ops: Batch) returns (r: Result<seq<nat>>)
      modifies this
      ensures r.Ok? <==> Committable(old(records), ops, Supported)
      ensures r.Ok? <==> forall i :: 0 <= i < |ops| ==> Due(old(records), ops, i)
      ensures r.Ok? ==> && (forall i :: 0 <= i < |ops| ==> ops[i].key in old(records))
                        && published == old(published) + ChangedRoutes(old(records), ops)
      ensures r.Ok? ==> && State() == Committed(old(State()), ops)
                        && |r.value| == |ops|
                        && forall i :: 0 <= i < |ops| ==> r.value[i] == ops[i].previousRevision + 1
      ensures r.Err? ==> State() == old(State())
      ensures r.Err? ==> exists i :: 0 <= i < |ops| && Fault(old(records), ops, i, Supported) == Some(r.error)
                                     && forall j :: 0 <= j < i ==> Fault(old(records), ops, j, Supported).None?
    {
      hide Fault, Written, BatchUpdates, ChangedRoutes;
      DueIffCommittable(records, ops);
      var fault := ValidateBatch(records, ops, Supported);
      NoFaultIffCommittable(records, ops, Supported);
      if fault.Some? {
        return Err(fault.value);
      }
      AllPresent(records, ops);
      UpdatesAreChanges(records, ops);
      var revisions, updates, keyChanged := WriteBatch(ops);
      if keyChanged {
        sortedTimelineKeys := None;
      }
      published := published + updates;
      return Ok(revisions);
    }

    /** The write loop of a validated batch. */
    method WriteBatch(ops: Batch) returns (revisions: seq<nat>, updates: seq<Route>, keyChanged: bool)
      requires AllCurrent(records, ops)
      modifies this`records
      ensures records == Written(old(records), ops, |ops|) && updates == BatchUpdates(old(records), ops, |ops|)
      ensures |revisions| == |ops| && forall i :: 0 <= i < |ops| ==> revisions[i] == ops[i].previousRevision + 1
      ensures keyChanged == KeyChanged(ops)
    {
      hide AllCurrent, Written;
      ghost var was := records;
      AllPresent(was, ops);
      WrittenNone(was, ops);
      revisions, updates, keyChanged := [], [], false;
      for i := 0 to |ops|
        invariant records == Written(was, ops, i) && updates == BatchUpdates(was, ops, i)
        invariant |revisions| == i && forall j :: 0 <= j < i ==> revisions[j] == ops[j].previousRevision + 1
        invariant keyChanged <==> exists j :: 0 <= j < i && ops[j].record.route.timelineKey != ops[j].key
      {
        var op := ops[i];
        StillCurrent(was, ops, i);
        WrittenNext(was, ops, i);
        var current := records[op.key];
        updates := updates + RouteUpdates(Some(current.record.route), op.record.route);
        keyChanged := keyChanged || op.record.route.timelineKey != op.key;
        records := records[op.key := Versioned(op.record, current.revision + 1)];
        revisions := revisions + [current.revision + 1];
      }
    }

    /** `sorted_timeline_keys`: the cached listing, or a fresh sort that then becomes the cache. */
    method SortedTimelineKeys() returns (keys: seq<Bytes>)
      requires CacheFresh(State())
      modifies this`sortedTimelineKeys
      ensures Sorts(keys, records.Keys) && CacheFresh(State()) && Listed(old(State()), State())
    {
      if sortedTimelineKeys.Some? {
        return sortedTimelineKeys.value;
      }
      keys := SortKeys(records.Keys);
      sortedTimelineKeys := Some(keys);
    }

    /** `list_timelines_page`. */
    method ListTimelinesPage(start: Option<Bytes>, limit: nat) returns (r: Result<RecordPage>, ghost keys: seq<Bytes>)
      requires CacheFresh(State())
      modifies this`sortedTimelineKeys
      ensures Sorts(keys, records.Keys) && CacheFresh(State()) && Listed(old(State()), State())
      ensures r.Ok? ==> Answers(records, r.value, Take(After(keys, start), limit))
      ensures AllSupported(records) ==> r.Ok?
      ensures limit > 0 ==> (r.Ok? <==> AllReadable(records, Capped(After(keys, start), limit + 1)))
    {
      hide Sorts, After, Answers, Take, AllSupported, Supported, AllReadable;
      if limit == 0 {
        keys := SortedListing(records.Keys);
        r := Ok(RecordPage([], None));
        TakeNone(records, After(keys, start));
        return;
      }
      var timelineKeys := SortedTimelineKeys();
      keys := timelineKeys;
      SortsAscending(timelineKeys, records.Keys);
      PresentAll(records, timelineKeys);
      AfterNone(timelineKeys);
      var startIndex: nat := 0;
      if start.Some? {
        startIndex := PartitionPoint(timelineKeys, start.value);
        AfterIsSuffix(timelineKeys, start.value, startIndex);
      }
      var fetched := FetchRecords(records, Capped(timelineKeys[startIndex..], limit + 1));
      if fetched.Err? {
        return Err(fetched.error), keys;
      }
      var page := CutPage(fetched.value, limit);
      FetchedAnswers(records, timelineKeys[startIndex..], fetched.value, limit, page);
      return Ok(page), keys;
    }

    /** `list_timelines_by_status_filter_page`: scans unfiltered pages until one more match than asked for is found. */
    method ListTimelinesByStatusFilterPage(filter: Filter, sameEndpoint: (Bytes, Bytes) -> bool,
                                           start: Option<Bytes>, limit: nat)
      returns (r: Result<RecordPage>, ghost keys: seq<Bytes>)
      requires CacheFresh(State()) && Spaced(records)
      modifies this`sortedTimelineKeys
      ensures Sorts(keys, records.Keys) && CacheFresh(State()) && Listed(old(State()), State())
      ensures r.Ok? ==>
        Answers(records, r.value, Take(After(Select(keys, Chosen(records, filter, sameEndpoint)), start), limit))
      ensures AllSupported(records) ==> r.Ok?
      ensures r.Ok? ==> forall record :: record in r.value.records ==> Wanted(record, filter, sameEndpoint)
    {
      hide Sorts, After, Answers, Take, Spaced, AllSupported, Select, Chosen, Scanned, CacheFresh, Listed, Wanted;
      if filter.states == [] && filter.owner.None? {
        r, keys := ListTimelinesPage(start, limit);
        SelectEverything(records, keys, filter, sameEndpoint);
        if r.Ok? { AnswerWanted(records, r.value, keys, filter, sameEndpoint, start, limit); }
        return;
      }
      if limit == 0 {
        keys := SortedListing(records.Keys);
        TakeNone(records, After(Select(keys, Chosen(records, filter, sameEndpoint)), start));
        ListedSame(State());
        return Ok(RecordPage([], None)), keys;
      }
      keys := SortedListing(records.Keys);
      SortsAscending(keys, records.Keys);
      PresentAll(records, keys);
      ListedSame(State());
      ghost var rest := After(keys, start);
      ghost var c: nat := 0;
      var scanCursor := start;
      var matched: seq<TimelineRecord> := [];
      ScanStart(records, keys, start, filter, sameEndpoint, limit);
      while |matched| <= limit
        invariant CacheFresh(State()) && Listed(old(State()), State())
        invariant Scanned(records, rest, c, filter, sameEndpoint, limit, matched)
        invariant |matched| <= limit ==> c <= |rest| && After(keys, scanCursor) == rest[c..]
        decreases |rest| - c + (if |matched| <= limit then 1 else 0)
      {
        label before:
        ghost var again: seq<Bytes>;
        var page: Result<RecordPage>;
        page, again := ListTimelinesPage(scanCursor, limit);
        SortsUnique(keys, again, records.Keys);
        ListedTwice(old(State()), old@before(State()), State());
        if page.Err? {
          return Err(page.error), keys;
        }
        PageTaken(records, keys, start, c, limit, page.value);
        if page.value.records == [] {
          break;
        }
        scanCursor := page.value.next;
        var more := AddMatches(matched, page.value.records, filter, sameEndpoint, limit);
        ScanAdvance(records, rest, c, filter, sameEndpoint, limit, matched, page.value, more);
        matched := more;
        c := c + |page.value.records|;
        if scanCursor.None? {
          break;
        }
      }
      var page := CutPage(matched, limit);
      ScanDone(records, keys, start, c, filter, sameEndpoint, limit, matched, page);
      AnswerWanted(records, page, keys, filter, sameEndpoint, start, limit);
      return Ok(page), keys;
    }
  }

  // ---- Filtered scans ----

  function FilterRecords(found: seq<TimelineRecord>, filter: Filter, sameEndpoint: (Bytes, Bytes) -> bool)
    : seq<TimelineRecord>
  {
    if found == [] then []
    else if Matches(found[0], filter, sameEndpoint) then [found[0]] + FilterRecords(found[1..], filter, sameEndpoint)
    else FilterRecords(found[1..], filter, sameEndpoint)
  }

  /** The inner loop: appends matches, stopping once there is one more than the limit. */
  method AddMatches(matched: seq<TimelineRecord>, found: seq<TimelineRecord>, filter: Filter,
                    sameEndpoint: (Bytes, Bytes) -> bool, limit: nat)
    returns (more: seq<TimelineRecord>)
    requires |matched| <= limit
    ensures more == Capped(matched + FilterRecords(found, filter, sameEndpoint), limit + 1)
  {
    hide Matches;
    more := matched;
    for i := 0 to |found|
      invariant |more| <= limit
      invariant more + FilterRecords(found[i..], filter, sameEndpoint)
             == matched + FilterRecords(found, filter, sameEndpoint)
    {
      assert found[i..][1..] == found[i + 1..];
      if Matches(found[i], filter, sameEndpoint) {
        ghost var rest := FilterRecords(found[i + 1..], filter, sameEndpoint);
        assert more + ([found[i]] + rest) == more + [found[i]] + rest;
        more := more + [found[i]];
        if |more| > limit {
          assert (more + rest)[..limit + 1] == more;
          return;
        }
      }
    }
    assert more + [] == more;
  }

  lemma {:induction false} FilterConcat(a: seq<TimelineRecord>, b: seq<TimelineRecord>, filter: Filter,
                                        sameEndpoint: (Bytes, Bytes) -> bool)
    ensures FilterRecords(a + b, filter, sameEndpoint)
         == FilterRecords(a, filter, sameEndpoint) + FilterRecords(b, filter, sameEndpoint)
  {
    hide Matches;
    if a == [] {
      assert a + b == b;
    } else {
      FilterConcat(a[1..], b, filter, sameEndpoint);
      assert (a + b)[1..] == a[1..] + b;
    }
  }

  /** Filtering the records found is looking up the keys chosen. */
  lemma {:induction false} FilterIsSelect(records: Entries, keys: seq<Bytes>, filter: Filter,
                                          sameEndpoint: (Bytes, Bytes) -> bool)
    requires forall i :: 0 <= i < |keys| ==> keys[i] in records
    ensures var some := Select(keys, Chosen(records, filter, sameEndpoint));
            && (forall i :: 0 <= i < |some| ==> some[i] in records)
            && FilterRecords(Lookup(records, keys), filter, sameEndpoint) == Lookup(records, some)
  {
    hide Matches;
    if keys == [] {
      assert Lookup(records, []) == [];
    } else {
      FilterIsSelect(records, keys[1..], filter, sameEndpoint);
      assert Lookup(records, keys)[1..] == Lookup(records, keys[1..]);
      assert Lookup(records, keys)[0] == records[keys[0]].record;
      var some := Select(keys[1..], Chosen(records, filter, sameEndpoint));
      assert keys[0] in Chosen(records, filter, sameEndpoint) ==>
        Lookup(records, [keys[0]] + some) == [records[keys[0]].record] + Lookup(records, some);
    }
  }

  /** What a scan has gathered from the first `c` keys, one record more than the limit at most. */
  ghost predicate Scanned(records: Entries, rest: seq<Bytes>, c: nat, filter: Filter,
                          sameEndpoint: (Bytes, Bytes) -> bool, limit: nat, matched: seq<TimelineRecord>)
  {
    && c <= |rest| && (forall i :: 0 <= i < |rest| ==> rest[i] in records)
    && matched == Capped(FilterRecords(Lookup(records, rest[..c]), filter, sameEndpoint), limit + 1)
  }

  /** A page of the filtered listing holds wanted records only. */
  lemma AnswerWanted(records: Entries, page: RecordPage, keys: seq<Bytes>, filter: Filter,
                     sameEndpoint: (Bytes, Bytes) -> bool, start: Option<Bytes>, limit: nat)
    requires Answers(records, page, Take(After(Select(keys, Chosen(records, filter, sameEndpoint)), start), limit))
    ensures forall record :: record in page.records ==> Wanted(record, filter, sameEndpoint)
  {
    hide Wanted, Matches, After, Select;
    var some := Select(keys, Chosen(records, filter, sameEndpoint));
    var n := Skipped(some, start);
    var taken := Take(After(some, start), limit).keys;
    forall i | 0 <= i < |taken| ensures Wanted(page.records[i], filter, sameEndpoint) {
      assert taken[i] == some[n + i] && some[n + i] in some;
      SelectMembers(keys, Chosen(records, filter, sameEndpoint));
      assert page.records[i] == records[taken[i]].record;
      MatchesIsWanted(records[taken[i]].record, filter, sameEndpoint);
    }
  }

  lemma RestPresent(records: Entries, keys: seq<Bytes>, start: Option<Bytes>)
    requires Sorts(keys, records.Keys)
    ensures forall i :: 0 <= i < |After(keys, start)| ==> After(keys, start)[i] in records
  {
    hide After, Sorts;
    PresentAll(records, keys);
    var n := Skipped(keys, start);
  }

  lemma ScanStart(records: Entries, keys: seq<Bytes>, start: Option<Bytes>, filter: Filter,
                  sameEndpoint: (Bytes, Bytes) -> bool, limit: nat)
    requires Sorts(keys, records.Keys)
    ensures Scanned(records, After(keys, start), 0, filter, sameEndpoint, limit, [])
    ensures After(keys, start) == After(keys, start)[0..]
  {
    hide Sorts, After;
    RestPresent(records, keys, start);
    assert Lookup(records, After(keys, start)[..0]) == [];
  }

  lemma PageTaken(records: Entries, keys: seq<Bytes>, start: Option<Bytes>, c: nat, limit: nat, page: RecordPage)
    requires Ascending(keys) && limit > 0 && c <= |After(keys, start)| && Spaced(records)
    requires forall i :: 0 <= i < |keys| ==> keys[i] in records
    requires Answers(records, page, Take(After(keys, start)[c..], limit))
    ensures |page.records| <= |After(keys, start)| - c
    ensures page.records == [] <==> c == |After(keys, start)|
    ensures page.next.None? <==> c + |page.records| == |After(keys, start)|
    ensures After(keys, start)[c..][..|page.records|] == Take(After(keys, start)[c..], limit).keys
    ensures page.next.Some? ==> After(keys, page.next) == After(keys, start)[c + |page.records|..]
  {
    hide After;
    var rest := After(keys, start);
    if |rest[c..]| > limit {
      assert rest[c..][limit - 1] == rest[c + limit - 1];
      RouteContinues(records, keys, start, c + limit - 1);
    }
  }

  lemma ScanAdvance(records: Entries, rest: seq<Bytes>, c: nat, filter: Filter, sameEndpoint: (Bytes, Bytes) -> bool,
                    limit: nat, matched: seq<TimelineRecord>, page: RecordPage, more: seq<TimelineRecord>)
    requires Scanned(records, rest, c, filter, sameEndpoint, limit, matched) && |matched| <= limit
    requires c + |page.records| <= |rest|
    requires Answers(records, page, Take(rest[c..], limit))
    requires rest[c..][..|page.records|] == Take(rest[c..], limit).keys
    requires more == Capped(matched + FilterRecords(page.records, filter, sameEndpoint), limit + 1)
    ensures Scanned(records, rest, c + |page.records|, filter, sameEndpoint, limit, more)
  {
    hide Take, FilterRecords;
    var n := |page.records|;
    var a, b := Lookup(records, rest[..c]), page.records;
    FilterConcat(a, b, filter, sameEndpoint);
    assert rest[..c + n] == rest[..c] + rest[c..][..n];
    assert Lookup(records, rest[..c + n]) == a + b;
  }

  lemma CappedLookup(records: Entries, keys: seq<Bytes>, n: nat)
    requires forall i :: 0 <= i < |keys| ==> keys[i] in records
    ensures Capped(Lookup(records, keys), n) == Lookup(records, Capped(keys, n))
  {}

  lemma ScanComplete(records: Entries, rest: seq<Bytes>, c: nat, filter: Filter, sameEndpoint: (Bytes, Bytes) -> bool,
                     limit: nat, matched: seq<TimelineRecord>)
    requires Scanned(records, rest, c, filter, sameEndpoint, limit, matched)
    requires c == |rest| || |matched| > limit
    ensures matched == Capped(FilterRecords(Lookup(records, rest), filter, sameEndpoint), limit + 1)
  {
    hide FilterRecords;
    var a, b := Lookup(records, rest[..c]), Lookup(records, rest[c..]);
    assert Lookup(records, rest) == a + b;
    FilterConcat(a, b, filter, sameEndpoint);
    if c == |rest| {
      assert rest[..c] == rest;
    }
  }

  lemma ScanDone(records: Entries, keys: seq<Bytes>, start: Option<Bytes>, c: nat, filter: Filter,
                 sameEndpoint: (Bytes, Bytes) -> bool, limit: nat, matched: seq<TimelineRecord>, page: RecordPage)
    requires Sorts(keys, records.Keys) && limit > 0
    requires Scanned(records, After(keys, start), c, filter, sameEndpoint, limit, matched)
    requires c == |After(keys, start)| || |matched| > limit
    requires page == CutPage(matched, limit)
    ensures Answers(records, page, Take(After(Select(keys, Chosen(records, filter, sameEndpoint)), start), limit))
  {
    hide After, Take, Answers, Select, Chosen, FilterRecords, Capped, CutPage, Sorts, Scanned, Lookup;
    var rest, chosen := After(keys, start), Chosen(records, filter, sameEndpoint);
    RestPresent(records, keys, start);
    ScanComplete(records, rest, c, filter, sameEndpoint, limit, matched);
    FilterIsSelect(records, rest, filter, sameEndpoint);
    CappedLookup(records, Select(rest, chosen), limit + 1);
    FetchedAnswers(records, Select(rest, chosen), matched, limit, page);
    SortsAscending(keys, records.Keys);
    SelectAfter(keys, chosen, start);
  }

  lemma SelectEverything(records: Entries, keys: seq<Bytes>, filter: Filter, sameEndpoint: (Bytes, Bytes) -> bool)
    requires Sorts(keys, records.Keys) && filter.states == [] && filter.owner.None?
    ensures Select(keys, Chosen(records, filter, sameEndpoint)) == keys
  {
    PresentAll(records, keys);
    SelectAll(keys, Chosen(records, filter, sameEndpoint));
  }

  lemma {:induction false} SelectAll(keys: seq<Bytes>, chosen: set<Bytes>)
    requires forall i :: 0 <= i < |keys| ==> keys[i] in chosen
    ensures Select(keys, chosen) == keys
  {
    if keys != [] {
      SelectAll(keys[1..], chosen);
    }
  }

  lemma ListedSame(s: Store)
    ensures Listed(s, s)
  {}

  lemma ListedTwice(s: Store, m: Store, s': Store)
    requires Listed(s, m) && Listed(m, s')
    ensures Listed(s, s')
  {
    hide Sorts;
  }

  /**
   * A client's walk over the store itself: filtered pages asked for until no
   * cursor comes back give the matching records in key order.
   */
  method WalkFilteredPages(store: TimelineStore, filter: Filter, sameEndpoint: (Bytes, Bytes) -> bool, limit: nat)
    returns (r: Result<seq<TimelineRecord>>, ghost list: seq<Bytes>)
    requires CacheFresh(store.State()) && Spaced(store.records) && limit >= 1
    modifies store`sortedTimelineKeys
    ensures CacheFresh(store.State()) && Listed(old(store.State()), store.State())
    ensures Sorts(list, Chosen(store.records, filter, sameEndpoint))
    ensures forall key :: key in list <==>
              key in store.records && Wanted(store.records[key].record, filter, sameEndpoint)
    ensures r.Ok? ==> && (forall i :: 0 <= i < |list| ==> list[i] in store.records)
                      && r.value == Lookup(store.records, list)
    ensures AllSupported(store.records) ==> r.Ok?
  {
    hide Sorts, After, Answers, Take, Spaced, AllSupported, Select, Chosen, CacheFresh, Listed, Walked;
    ghost var keys := SortedListing(store.records.Keys);
    ghost var chosen := Chosen(store.records, filter, sameEndpoint);
    list := Select(keys, chosen);
    SelectSorts(store.records, keys, filter, sameEndpoint);
    SelectWanted(store.records, list, filter, sameEndpoint);
    ListedSame(store.State());
    WalkedNone(store.records, list);
    var cursor: Option<Bytes> := None;
    var found: seq<TimelineRecord> := [];
    while true
      invariant CacheFresh(store.State()) && Listed(old(store.State()), store.State())
      invariant Walked(store.records, list, cursor, found)
      decreases |list| - |found|
    {
      label before:
      ghost var again: seq<Bytes>;
      var page: Result<RecordPage>;
      page, again := store.ListTimelinesByStatusFilterPage(filter, sameEndpoint, cursor, limit);
      SortsUnique(keys, again, store.records.Keys);
      ListedTwice(old(store.State()), old@before(store.State()), store.State());
      if page.Err? {
        return Err(page.error), list;
      }
      WalkedMore(store.records, list, cursor, found, limit, page.value);
      found := found + page.value.records;
      cursor := page.value.next;
      if cursor.None? {
        return Ok(found), list;
      }
    }
  }

  /** The records found are those of the keys before the cursor. */
  ghost predicate Walked(records: Entries, list: seq<Bytes>, cursor: Option<Bytes>, found: seq<TimelineRecord>) {
    && Ascending(list) && (forall i :: 0 <= i < |list| ==> list[i] in records) && |found| <= |list|
    && found == Lookup(records, list[..|found|]) && After(list, cursor) == list[|found|..]
  }

  lemma WalkedNone(records: Entries, list: seq<Bytes>)
    requires Ascending(list) && (forall i :: 0 <= i < |list| ==> list[i] in records)
    ensures Walked(records, list, None, [])
  {
    AfterNone(list);
    assert Lookup(records, list[..0]) == [];
  }

  lemma WalkedMore(records: Entries, list: seq<Bytes>, cursor: Option<Bytes>, found: seq<TimelineRecord>, limit: nat,
                   page: RecordPage)
    requires Walked(records, list, cursor, found) && limit >= 1 && Spaced(records)
    requires Answers(records, page, Take(After(list, cursor), limit))
    ensures |found + page.records| <= |list| && found + page.records == Lookup(records, list[..|found + page.records|])
    ensures page.next.Some? ==> Walked(records, list, page.next, found + page.records) && |page.records| > 0
    ensures page.next.None? ==> found + page.records == Lookup(records, list)
  {
    hide After, Lookup, Spaced, Ascending, RouteKey;
    var n, rest := |found|, After(list, cursor);
    var more := Take(rest, limit).keys;
    assert list[..n + |more|] == list[..n] + more;
    LookupConcat(records, list[..n], more);
    if |rest| > limit {
      RouteContinues(records, list, cursor, limit - 1);
      RouteOf(records, rest[limit - 1]);
      assert list[n..][limit..] == list[n + limit..];
    } else {
      assert list[..n + |more|] == list;
    }
  }

  lemma SelectWanted(records: Entries, list: seq<Bytes>, filter: Filter, sameEndpoint: (Bytes, Bytes) -> bool)
    requires Sorts(list, Chosen(records, filter, sameEndpoint))
    ensures forall key :: key in list <==> key in records && Wanted(records[key].record, filter, sameEndpoint)
  {
    forall key: Bytes ensures key in list <==> key in records && Wanted(records[key].record, filter, sameEndpoint) {
      if key in records { MatchesIsWanted(records[key].record, filter, sameEndpoint); }
    }
  }

  lemma LookupConcat(records: Entries, a: seq<Bytes>, b: seq<Bytes>)
    requires (forall i :: 0 <= i < |a| ==> a[i] in records) && (forall i :: 0 <= i < |b| ==> b[i] in records)
    ensures Lookup(records, a + b) == Lookup(records, a) + Lookup(records, b)
  {}

  lemma RouteOf(records: Entries, key: Bytes)
    requires key in records
    ensures RouteKey(records, key) == records[key].record.route.timelineKey
  {}

  lemma SelectSorts(records: Entries, keys: seq<Bytes>, filter: Filter, sameEndpoint: (Bytes, Bytes) -> bool)
    requires Sorts(keys, records.Keys)
    ensures var list := Select(keys, Chosen(records, filter, sameEndpoint));
            && Sorts(list, Chosen(records, filter, sameEndpoint)) && Ascending(list)
            && (forall i :: 0 <= i < |list| ==> list[i] in records)
  {
    var chosen := Chosen(records, filter, sameEndpoint);
    var list := Select(keys, chosen);
    SelectAscending(keys, chosen);
    SelectMembers(keys, chosen);
    forall i | 0 <= i < |list| ensures list[i] in records {
      assert list[i] in list;
    }
  }

  // ---- Exactly when cursors work ----

  lemma AlignedIsSpaced(records: Entries)
    requires Aligned(records)
    ensures Spaced(records)
  {
    forall k: Bytes | k in records ensures !Less(RouteKey(records, k), k) {
      LessIrreflexive(k);
    }
  }

  /** The cursor made from one key leads to exactly the keys after it. */
  ghost predicate StepsOn(records: Entries, keys: seq<Bytes>, i: nat)
    requires i < |keys| && keys[i] in records
  {
    After(keys, Some(RouteKey(records, keys[i]))) == keys[i + 1..]
  }

  lemma SpacedStepsOn(records: Entries, keys: seq<Bytes>, i: nat)
    requires Ascending(keys) && (forall j :: 0 <= j < |keys| ==> keys[j] in records)
    requires Spaced(records) && i + 1 < |keys|
    ensures StepsOn(records, keys, i)
  {
    hide After, RouteKey;
    var route := RouteKey(records, keys[i]);
    assert Less(keys[i], keys[i + 1]);
    forall j | 0 <= j < i + 1 ensures !Less(route, keys[j]) {
      if j < i && Less(route, keys[j]) {
        LessTransitive(route, keys[j], keys[i]);
      }
    }
    forall j | i + 1 <= j < |keys| ensures Less(route, keys[j]) {
      assert Less(keys[i], keys[j]);
    }
    AfterIsSuffix(keys, route, i + 1);
  }

  lemma RouteContinues(records: Entries, keys: seq<Bytes>, start: Option<Bytes>, i: nat)
    requires Ascending(keys) && (forall j :: 0 <= j < |keys| ==> keys[j] in records)
    requires Spaced(records) && i + 1 < |After(keys, start)|
    ensures After(keys, start)[i] in records
    ensures After(keys, Some(RouteKey(records, After(keys, start)[i]))) == After(keys, start)[i + 1..]
  {
    hide After, RouteKey, Spaced;
    var n := Skipped(keys, start);
    SpacedStepsOn(records, keys, n + i);
    assert keys[n..][i + 1..] == keys[n + i + 1..];
  }

  /** Steps that all lead on leave no room for a route outside its gap. */
  lemma StepsOnSpaced(records: Entries, keys: seq<Bytes>)
    requires Sorts(keys, records.Keys) && (forall j :: 0 <= j < |keys| ==> keys[j] in records)
    requires forall i :: 0 <= i < |keys| - 1 ==> StepsOn(records, keys, i)
    ensures Spaced(records)
  {
    hide After, RouteKey;
    forall k: Bytes, l: Bytes | k in records && l in records && Less(k, l)
      ensures !Less(RouteKey(records, k), k) && Less(RouteKey(records, k), l)
    {
      assert k in keys && l in keys;
      var i :| 0 <= i < |keys| && keys[i] == k;
      var j :| 0 <= j < |keys| && keys[j] == l;
      IndexOrder(keys, i, j);
      assert StepsOn(records, keys, i);
      StepBounds(keys, RouteKey(records, k), i, j);
    }
  }

  lemma IndexOrder(keys: seq<Bytes>, i: nat, j: nat)
    requires Ascending(keys) && i < |keys| && j < |keys| && Less(keys[i], keys[j])
    ensures i < j
  {
    LessAsymmetric(keys[i], keys[j]);
  }

  lemma StepBounds(keys: seq<Bytes>, route: Bytes, i: nat, j: nat)
    requires Ascending(keys) && i < j < |keys| && After(keys, Some(route)) == keys[i + 1..]
    ensures !Less(route, keys[i]) && Less(route, keys[j])
  {
    hide After;
    BehindOrAfter(keys, Some(route), keys[i]);
    BeyondCursor(keys, Some(route));
    var tail := keys[i + 1..];
    assert tail[j - i - 1] == keys[j];
    LessIrreflexive(keys[i]);
    assert forall m :: 0 <= m < |tail| ==> tail[m] == keys[i + 1 + m];
  }

  /** Every page that returns a cursor is continued exactly where it ended. */
  ghost predicate PagesContinue(records: Entries, keys: seq<Bytes>)
    requires forall j :: 0 <= j < |keys| ==> keys[j] in records
  {
    forall start: Option<Bytes>, limit: nat :: 1 <= limit < |After(keys, start)| ==>
      Continues(records, keys, start, limit)
  }

  ghost predicate Continues(records: Entries, keys: seq<Bytes>, start: Option<Bytes>, limit: nat)
    requires 1 <= limit < |After(keys, start)|
  {
    && After(keys, start)[limit - 1] in records
    && After(keys, Some(RouteKey(records, After(keys, start)[limit - 1]))) == After(keys, start)[limit..]
  }

  /** Pages of every size from every start are continued rightly if and only if routes are spaced. */
  lemma PagesContinueIffSpaced(records: Entries, keys: seq<Bytes>)
    requires Sorts(keys, records.Keys) && (forall j :: 0 <= j < |keys| ==> keys[j] in records)
    ensures PagesContinue(records, keys) <==> Spaced(records)
  {
    hide After, RouteKey, Spaced;
    if Spaced(records) {
      forall start: Option<Bytes>, limit: nat | 1 <= limit < |After(keys, start)|
        ensures Continues(records, keys, start, limit)
      {
        RouteContinues(records, keys, start, limit - 1);
      }
    }
    if PagesContinue(records, keys) {
      AfterNone(keys);
      forall i | 0 <= i < |keys| - 1 ensures StepsOn(records, keys, i) {
        assert Continues(records, keys, None, i + 1);
      }
      StepsOnSpaced(records, keys);
    }
  }

  /** Pages of the store asked for one after another; the cursor is what the last record's route names. */
  ghost predicate StoreWalk(records: Entries, keys: seq<Bytes>, limit: nat, start: Option<Bytes>, pages: seq<KeyPage>)
    decreases |pages|
  {
    && |pages| > 0 && pages[0] == Take(After(keys, start), limit)
    && (if pages[0].next.None? then |pages| == 1
        else pages[0].next.value in records
             && StoreWalk(records, keys, limit, Some(RouteKey(records, pages[0].next.value)), pages[1..]))
  }

  /** Some finite walk from the beginning reads exactly these keys, in order. */
  ghost predicate WalksWhole(records: Entries, keys: seq<Bytes>, limit: nat) {
    exists pages: seq<KeyPage> :: StoreWalk(records, keys, limit, None, pages) && Concat(pages) == keys
  }

  lemma {:induction false} SpacedWalks(records: Entries, keys: seq<Bytes>, limit: nat, start: Option<Bytes>)
    returns (pages: seq<KeyPage>)
    requires Ascending(keys) && (forall j :: 0 <= j < |keys| ==> keys[j] in records)
    requires Spaced(records) && limit >= 1
    ensures StoreWalk(records, keys, limit, start, pages) && Concat(pages) == After(keys, start)
    decreases |After(keys, start)|
  {
    hide After, RouteKey, Spaced;
    var rest := After(keys, start);
    var page := Take(rest, limit);
    if page.next.None? {
      pages := [page];
      assert pages[1..] == [] && page.keys + [] == rest;
    } else {
      RouteContinues(records, keys, start, limit - 1);
      var more := SpacedWalks(records, keys, limit, Some(RouteKey(records, rest[limit - 1])));
      pages := [page] + more;
      assert pages[1..] == more;
      assert rest == rest[..limit] + rest[limit..];
    }
  }

  /** A walk one key at a time that reads everything in order steps on from every key. */
  lemma {:induction false} WholeWalkSteps(records: Entries, keys: seq<Bytes>, start: Option<Bytes>,
                                          pages: seq<KeyPage>, i: nat, j: nat)
    requires Ascending(keys) && (forall m :: 0 <= m < |keys| ==> keys[m] in records) && i <= j && j + 1 < |keys|
    requires StoreWalk(records, keys, 1, start, pages) && After(keys, start) == keys[i..] == Concat(pages)
    ensures StepsOn(records, keys, j)
    decreases |pages|
  {
    hide After, RouteKey;
    var route := RouteKey(records, keys[i]);
    assert pages[0] == KeyPage([keys[i]], Some(keys[i])) by {
      assert keys[i..][..1] == [keys[i]];
    }
    assert Concat(pages[1..]) == Concat(pages)[1..] == keys[i + 1..];
    var n := Skipped(keys, Some(route));
    FirstOfWalk(records, keys, Some(route), pages[1..]);
    assert keys[n..][0] == keys[n] == keys[i + 1];
    SameIndex(keys, n, i + 1);
    if j > i {
      WholeWalkSteps(records, keys, Some(route), pages[1..], i + 1, j);
    }
  }

  lemma SameIndex(keys: seq<Bytes>, i: nat, j: nat)
    requires Ascending(keys) && i < |keys| && j < |keys| && keys[i] == keys[j]
    ensures i == j
  {
    LessIrreflexive(keys[i]);
  }

  lemma FirstOfWalk(records: Entries, keys: seq<Bytes>, start: Option<Bytes>, pages: seq<KeyPage>)
    requires StoreWalk(records, keys, 1, start, pages) && Concat(pages) != []
    ensures After(keys, start) != [] && After(keys, start)[0] == Concat(pages)[0]
  {
    hide After, RouteKey;
    assert pages[0].next.None? ==> pages[1..] == [] && Concat(pages) == pages[0].keys + [];
  }

  /**
   * The exact condition for the listing's promise: walks of every page size, over
   * all records and over every selection of them, are finite and read everything in
   * order once if and only if the stored routes are spaced. One key at a time over
   * all records already fails otherwise.
   */
  lemma WalksWholeIffSpaced(records: Entries, keys: seq<Bytes>)
    requires Sorts(keys, records.Keys) && (forall j :: 0 <= j < |keys| ==> keys[j] in records)
    ensures Spaced(records) <==>
              forall chosen: set<Bytes>, limit: nat :: limit >= 1 ==> WalksWhole(records, Select(keys, chosen), limit)
    ensures Spaced(records) <==> WalksWhole(records, keys, 1)
  {
    hide After, RouteKey, Spaced, Select, StoreWalk, Concat;
    if Spaced(records) {
      forall chosen: set<Bytes>, limit: nat | limit >= 1 ensures WalksWhole(records, Select(keys, chosen), limit) {
        SelectAscending(keys, chosen);
        SelectInRecords(records, keys, chosen);
        var pages := SpacedWalks(records, Select(keys, chosen), limit, None);
        AfterNone(Select(keys, chosen));
      }
      var pages := SpacedWalks(records, keys, 1, None);
      AfterNone(keys);
    }
    if WalksWhole(records, keys, 1) {
      var pages: seq<KeyPage> :| StoreWalk(records, keys, 1, None, pages) && Concat(pages) == keys;
      AfterNone(keys);
      forall j | 0 <= j < |keys| - 1 ensures StepsOn(records, keys, j) {
        WholeWalkSteps(records, keys, None, pages, 0, j);
      }
      StepsOnSpaced(records, keys);
    }
    SelectAll(keys, records.Keys);
    assert Select(keys, records.Keys) == keys;
  }

  lemma SelectInRecords(records: Entries, keys: seq<Bytes>, chosen: set<Bytes>)
    requires forall j :: 0 <= j < |keys| ==> keys[j] in records
    ensures forall j :: 0 <= j < |Select(keys, chosen)| ==> Select(keys, chosen)[j] in records
  {
    SelectMembers(keys, chosen);
    forall j | 0 <= j < |Select(keys, chosen)| ensures Select(keys, chosen)[j] in records {
      assert Select(keys, chosen)[j] in Select(keys, chosen);
    }
  }

  /** Where routes are spaced, their cursors do what cursors made from the keys would do. */
  lemma {:induction false} StoreWalkIsWalk(records: Entries, keys: seq<Bytes>, limit: nat, start: Option<Bytes>,
                                           at: Option<Bytes>, pages: seq<KeyPage>)
    requires Ascending(keys) && (forall j :: 0 <= j < |keys| ==> keys[j] in records)
    requires Spaced(records) && limit >= 1 && After(keys, start) == After(keys, at)
    requires StoreWalk(records, keys, limit, start, pages)
    ensures Walk(keys, limit, at, pages)
    decreases |pages|
  {
    hide After, RouteKey, Spaced;
    if pages[0].next.Some? {
      RouteContinues(records, keys, start, limit - 1);
      CursorContinues(keys, at, limit - 1);
      var key := pages[0].next.value;
      StoreWalkIsWalk(records, keys, limit, Some(RouteKey(records, key)), Some(key), pages[1..]);
    }
  }

  /**
   * The promise of the listing: walking filtered pages by the cursors the store
   * hands out, with any page size, reads exactly the matching timelines in key order.
   */
  lemma FilteredWalkIsWhole(records: Entries, keys: seq<Bytes>, filter: Filter, sameEndpoint: (Bytes, Bytes) -> bool,
                            limit: nat, pages: seq<KeyPage>)
    requires Sorts(keys, records.Keys) && Spaced(records) && limit >= 1
    requires StoreWalk(records, Select(keys, Chosen(records, filter, sameEndpoint)), limit, None, pages)
    ensures Sorts(Concat(pages), Chosen(records, filter, sameEndpoint))
    ensures forall key :: key in Concat(pages) <==>
              key in records && Wanted(records[key].record, filter, sameEndpoint)
  {
    hide Walk, Concat, StoreWalk, Select, Chosen, Sorts, Spaced, After;
    var list := Select(keys, Chosen(records, filter, sameEndpoint));
    SelectSorts(records, keys, filter, sameEndpoint);
    StoreWalkIsWalk(records, list, limit, None, None, pages);
    WalkReadsAll(list, limit, None, pages);
    AfterNone(list);
    SelectWanted(records, list, filter, sameEndpoint);
  }

  /**
   * One way to fail, in any store: a route that names something just before its own
   * key hands the scan its own page again, so no walk from there ever ends.
   */
  lemma {:induction false} FallingBackNeverEnds(records: Entries, keys: seq<Bytes>, i: nat, start: Option<Bytes>,
                                                pages: seq<KeyPage>)
    requires i + 1 < |keys| && keys[i] in records && After(keys, start) == keys[i..]
    requires After(keys, Some(RouteKey(records, keys[i]))) == keys[i..]
    ensures !StoreWalk(records, keys, 1, start, pages)
    decreases |pages|
  {
    hide After, RouteKey;
    if |pages| > 0 {
      assert keys[i..][0] == keys[i];
      FallingBackNeverEnds(records, keys, i, Some(RouteKey(records, keys[i])), pages[1..]);
    }
  }

  // ---- Cutting pages ----

  function Capped<T>(keys: seq<T>, n: nat): seq<T> {
    if |keys| > n then keys[..n] else keys
  }

  /** Fetches the records one by one and stops at one with an unsupported schema. */
  method FetchRecords(records: Entries, keys: seq<Bytes>) returns (r: Result<seq<TimelineRecord>>)
    requires forall i :: 0 <= i < |keys| ==> keys[i] in records
    ensures r.Ok? ==> r.value == Lookup(records, keys)
    ensures AllSupported(records) ==> r.Ok?
    ensures r.Ok? <==> AllReadable(records, keys)
  {
    var found: seq<TimelineRecord> := [];
    for i := 0 to |keys|
      invariant AllReadable(records, keys[..i])
      invariant found == Lookup(records, keys)[..i]
    {
      var record := records[keys[i]].record;
      if !Supported(record) {
        return Err(Internal);
      }
      found := found + [record];
    }
    return Ok(found);
  }

  /** The page and cursor made from up to `limit + 1` records. */
  function CutPage(found: seq<TimelineRecord>, limit: nat): RecordPage
    requires limit > 0
  {
    RecordPage(Capped(found, limit), if |found| > limit then Some(found[limit - 1].route.timelineKey) else None)
  }

  lemma TakeNone(records: Entries, rest: seq<Bytes>)
    ensures Answers(records, RecordPage([], None), Take(rest, 0))
  {
    assert Lookup(records, []) == [];
  }

  lemma FetchedAnswers(records: Entries, rest: seq<Bytes>, found: seq<TimelineRecord>, limit: nat, page: RecordPage)
    requires limit > 0 && forall i :: 0 <= i < |rest| ==> rest[i] in records
    requires found == Lookup(records, Capped(rest, limit + 1)) && page == CutPage(found, limit)
    ensures Answers(records, page, Take(rest, limit))
  {
    var keyPage := Take(rest, limit);
    assert page.records == Lookup(records, keyPage.keys);
    assert |rest| > limit ==> found[limit - 1] == records[rest[limit - 1]].record;
  }

  lemma SortsAscending(keys: seq<Bytes>, s: set<Bytes>)
    requires Sorts(keys, s)
    ensures Ascending(keys)
  {}

  lemma AfterNone(keys: seq<Bytes>)
    ensures After(keys, None) == keys[0..]
  {}

  lemma PresentAll(records: Entries, keys: seq<Bytes>)
    requires Sorts(keys, records.Keys)
    ensures forall i :: 0 <= i < |keys| ==> keys[i] in records
  {
    forall i | 0 <= i < |keys| ensures keys[i] in records {
      assert keys[i] in keys;
    }
  }

  // ---- Replaying the announcements ----

  function Replay(updates: seq<Route>): map<Bytes, Route> {
    if updates == [] then map[]
    else
      var last := updates[|updates| - 1];
      Replay(updates[..|updates| - 1])[last.timelineKey := last]
  }

  function Routes(records: Entries): map<Bytes, Route> {
    map key | key in records :: records[key].record.route
  }

  /** A subscriber that applied every announcement in order holds the stored routes. */
  ghost predicate Rebuilt(s: Store) {
    Replay(s.published) == Routes(s.records)
  }

  lemma ReplayOne(updates: seq<Route>, route: Route)
    ensures Replay(updates + [route]) == Replay(updates)[route.timelineKey := route]
  {
    assert (updates + [route])[..|updates|] == updates;
  }

  /** Writing a route and announcing the change keeps a subscriber in step, exactly when the route names its key. */
  lemma WriteRebuiltIff(records: Entries, published: seq<Route>, key: Bytes, record: TimelineRecord, revision: nat)
    requires Replay(published) == Routes(records)
    requires key in records ==> records[key].record.route.timelineKey == key
    ensures var previous := if key in records then Some(records[key].record.route) else None;
            Replay(published + RouteUpdates(previous, record.route))
            == Routes(records[key := Versioned(record, revision)])
            <==> record.route.timelineKey == key
  {
    var previous := if key in records then Some(records[key].record.route) else None;
    var after := Routes(records[key := Versioned(record, revision)]);
    assert after == Routes(records)[key := record.route];
    if previous == Some(record.route) {
      assert published + [] == published;
      assert after == Routes(records);
    } else {
      ReplayOne(published, record.route);
      if record.route.timelineKey != key {
        assert key in Routes(records) ==> Routes(records)[key] != record.route;
        assert after[key] == record.route;
      }
    }
  }

  /** A create keeps subscribers in step exactly when the record's route names the key it is stored under. */
  lemma CreateRebuiltIff(s: Store, key: Bytes, record: TimelineRecord)
    requires Rebuilt(s) && key !in s.records
    ensures Rebuilt(Created(s, key, record)) <==> record.route.timelineKey == key
  {
    WriteRebuiltIff(s.records, s.published, key, record.Stamped(), 1);
  }

  /** So does an update that took effect. */
  lemma ExchangeRebuiltIff(s: Store, key: Bytes, expected: nat, record: TimelineRecord)
    requires Rebuilt(s) && Aligned(s.records) && CompareExchange(s, key, expected, record).1.Ok?
    ensures Rebuilt(CompareExchange(s, key, expected, record).0) <==> record.route.timelineKey == key
  {
    WriteRebuiltIff(s.records, s.published, key, record.Stamped(), expected + 1);
  }

  ghost predicate OpsAligned(ops: Batch) {
    forall i :: 0 <= i < |ops| ==> ops[i].record.route.timelineKey == ops[i].key
  }

  lemma StartRebuilt(s: Store)
    requires Rebuilt(s)
    ensures Replay(s.published + []) == Routes(s.records)
  {
    assert s.published + [] == s.published;
  }

  lemma Regroup(a: seq<Route>, b: seq<Route>, c: seq<Route>)
    ensures a + b + c == a + (b + c)
  {}

  lemma UpdatesStep(s: Store, ops: Batch, n: nat)
    requires AllCurrent(s.records, ops) && n < |ops|
    ensures var before, op := Written(s.records, ops, n), ops[n];
            && op.key in before
            && s.published + BatchUpdates(s.records, ops, n + 1)
               == s.published + BatchUpdates(s.records, ops, n)
                  + RouteUpdates(Some(before[op.key].record.route), op.record.route)
  {
    hide AllCurrent, RouteUpdates, Written;
    AllPresent(s.records, ops);
    StillCurrent(s.records, ops, n);
    Regroup(s.published, BatchUpdates(s.records, ops, n),
      RouteUpdates(Some(s.records[ops[n].key].record.route), ops[n].record.route));
  }

  lemma WriteKeepsRebuilt(records: Entries, published: seq<Route>, op: BatchOp<Bytes, TimelineRecord>,
                          records': Entries, published': seq<Route>)
    requires Replay(published) == Routes(records) && Aligned(records) && op.key in records
    requires op.record.route.timelineKey == op.key
    requires records' == records[op.key := Versioned(op.record, records[op.key].revision + 1)]
    requires published' == published + RouteUpdates(Some(records[op.key].record.route), op.record.route)
    ensures Replay(published') == Routes(records') && Aligned(records')
  {
    hide RouteUpdates, Routes, Replay;
    WriteRebuiltIff(records, published, op.key, op.record, records[op.key].revision + 1);
  }

  lemma {:induction false} BatchPrefixRebuilt(s: Store, ops: Batch, n: nat)
    requires Rebuilt(s) && Aligned(s.records) && AllCurrent(s.records, ops) && OpsAligned(ops) && n <= |ops|
    ensures Replay(s.published + BatchUpdates(s.records, ops, n)) == Routes(Written(s.records, ops, n))
    ensures Aligned(Written(s.records, ops, n))
  {
    hide AllCurrent, Rebuilt, RouteUpdates, Routes, Replay, Aligned, Written;
    AllPresent(s.records, ops);
    if n == 0 {
      WrittenNone(s.records, ops);
      StartRebuilt(s);
    } else {
      BatchPrefixRebuilt(s, ops, n - 1);
      UpdatesStep(s, ops, n - 1);
      WrittenNext(s.records, ops, n - 1);
      WriteKeepsRebuilt(Written(s.records, ops, n - 1), s.published + BatchUpdates(s.records, ops, n - 1), ops[n - 1],
        Written(s.records, ops, n), s.published + BatchUpdates(s.records, ops, n));
    }
  }

  // ---- Runs ----

  datatype Op =
    | DoCreate(key: Bytes, record: TimelineRecord)
    | DoCreateLimited(key: Bytes, record: TimelineRecord, max: nat)
    | DoExchange(key: Bytes, expected: nat, record: TimelineRecord)
    | DoBatch(ops: Batch)
    | DoList
  {
    /** The records it writes carry routes that name their keys. */
    ghost predicate Aligned() {
      match this
      case DoCreate(key, record) => record.route.timelineKey == key
      case DoCreateLimited(key, record, _) => record.route.timelineKey == key
      case DoExchange(key, _, record) => record.route.timelineKey == key
      case DoBatch(ops) => OpsAligned(ops)
      case DoList => true
    }
  }

  ghost predicate Step(s: Store, op: Op, s': Store) {
    match op
    case DoCreate(key, record) => s' == Create(s, key, record).0
    case DoCreateLimited(key, record, max) => s' == CreateWithLimit(s, key, record, max).0
    case DoExchange(key, expected, record) => s' == CompareExchange(s, key, expected, record).0
    case DoBatch(ops) => if Committable(s.records, ops, Supported) then s' == Committed(s, ops) else s' == s
    case DoList => Listed(s, s')
  }

  ghost predicate Run(states: seq<Store>, ops: seq<Op>) {
    && |states| == |ops| + 1 && states[0] == EMPTY
    && forall i :: 0 <= i < |ops| ==> Step(states[i], ops[i], states[i + 1])
  }

  lemma StepKeepsCache(s: Store, op: Op, s': Store)
    requires CacheFresh(s) && Step(s, op, s')
    ensures CacheFresh(s')
  {
    hide Sorts;
    if op.DoExchange? {
      var r := CasEntry(s.records, op.key, op.expected, op.record.Stamped());
      assert r.0.Keys == s.records.Keys;
    }
  }

  /** Over every run the cached listing agrees with a fresh sort. */
  lemma {:induction false} RunKeepsCache(states: seq<Store>, ops: seq<Op>, k: nat)
    requires Run(states, ops) && k < |states|
    ensures CacheFresh(states[k])
  {
    hide Step;
    if k > 0 {
      RunKeepsCache(states, ops, k - 1);
      StepKeepsCache(states[k - 1], ops[k - 1], states[k]);
    }
  }

  lemma StepKeepsSupported(s: Store, op: Op, s': Store)
    requires AllSupported(s.records) && Step(s, op, s')
    ensures AllSupported(s'.records)
  {
    if op.DoBatch? && Committable(s.records, op.ops, Supported) {
      BatchSupported(s.records, op.ops);
    }
  }

  lemma BatchSupported(m: Entries, ops: Batch)
    requires AllSupported(m) && Committable(m, ops, Supported)
    ensures AllSupported(Written(m, ops, |ops|))
  {
    WrittenExactly(m, ops, |ops|);
    var after := Written(m, ops, |ops|);
    forall key | key in after ensures Supported(after[key].record) {
      if i :| 0 <= i < |ops| && ops[i].key == key {
        assert Supported(ops[i].record);
      }
    }
  }

  /** Over every run every stored record has the supported schema, so no listing fails. */
  lemma {:induction false} RunKeepsSupported(states: seq<Store>, ops: seq<Op>, k: nat)
    requires Run(states, ops) && k < |states|
    ensures AllSupported(states[k].records)
    ensures forall key :: key in states[k].records ==> states[k].records[key].record.schemaVersion == 1
  {
    hide Step;
    if k > 0 {
      RunKeepsSupported(states, ops, k - 1);
      StepKeepsSupported(states[k - 1], ops[k - 1], states[k]);
    }
  }

  /** The revisions a step takes records away from. */
  ghost function ConsumedIn(s: Store, op: Op): Consumed<Bytes> {
    match op
    case DoExchange(key, expected, record) =>
      if CompareExchange(s, key, expected, record).1.Ok? then {(key, expected)} else {}
    case DoBatch(ops) => if Committable(s.records, ops, Supported) then ConsumedBy(ops) else {}
    case _ => {}
  }

  lemma StepAdvances(s: Store, op: Op, s': Store)
    requires Step(s, op, s')
    ensures Advances(s.records, s'.records, ConsumedIn(s, op))
  {
    match op
    case DoCreate(key, record) => CreateAdvances(s.records, key, record.Stamped());
    case DoCreateLimited(key, record, max) => CreateAdvances(s.records, key, record.Stamped());
    case DoExchange(key, expected, record) => CasAdvances(s.records, key, expected, record.Stamped());
    case DoBatch(ops) => if Committable(s.records, ops, Supported) { BatchAdvances(s.records, ops); }
    case DoList =>
  }

  /** Over every run each revision of each timeline is consumed by at most one committed update. */
  lemma RunConsumesOnce(states: seq<Store>, ops: seq<Op>, i: nat, j: nat)
    requires Run(states, ops) && i < j < |ops|
    ensures ConsumedIn(states[i], ops[i]) !! ConsumedIn(states[j], ops[j])
  {
    hide Step, ConsumedIn;
    var maps := seq(|states|, k requires 0 <= k < |states| => states[k].records);
    var consumed := seq(|ops|, k requires 0 <= k < |ops| => ConsumedIn(states[k], ops[k]));
    forall k | 0 <= k < |consumed| ensures Advances(maps[k], maps[k + 1], consumed[k]) {
      StepAdvances(states[k], ops[k], states[k + 1]);
    }
    ConsumedOnce(maps, consumed, i, j);
  }

  lemma StepKeepsRebuilt(s: Store, op: Op, s': Store)
    requires Rebuilt(s) && Aligned(s.records) && op.Aligned() && Step(s, op, s')
    ensures Rebuilt(s') && Aligned(s'.records)
  {
    hide Rebuilt;
    match op
    case DoCreate(key, record) => if s' != s { CreateRebuiltIff(s, key, record); }
    case DoCreateLimited(key, record, max) => if s' != s { CreateRebuiltIff(s, key, record); }
    case DoExchange(key, expected, record) =>
      if CompareExchange(s, key, expected, record).1.Ok? { ExchangeRebuiltIff(s, key, expected, record); }
    case DoBatch(ops) => if Committable(s.records, ops, Supported) { BatchRebuiltIff(s, ops); }
    case DoList => ListRebuilt(s, s');
  }

  /** A committed batch keeps subscribers in step exactly when every route it writes names its key. */
  lemma BatchRebuiltIff(s: Store, ops: Batch)
    requires Rebuilt(s) && Aligned(s.records) && AllCurrent(s.records, ops)
    ensures Rebuilt(Committed(s, ops)) <==> OpsAligned(ops)
    ensures OpsAligned(ops) ==> Aligned(Committed(s, ops).records)
  {
    hide AllCurrent, Written, Replay, BatchUpdates, Current;
    AllPresent(s.records, ops);
    if OpsAligned(ops) {
      BatchPrefixRebuilt(s, ops, |ops|);
    }
    if Rebuilt(Committed(s, ops)) {
      var after := Committed(s, ops);
      ReplayNamesKeys(after.published);
      WrittenExactly(s.records, ops, |ops|);
      forall i | 0 <= i < |ops| ensures ops[i].record.route.timelineKey == ops[i].key {
        assert Routes(after.records)[ops[i].key] == ops[i].record.route;
      }
    }
  }

  lemma {:induction false} ReplayNamesKeys(updates: seq<Route>)
    ensures forall key :: key in Replay(updates) ==> Replay(updates)[key].timelineKey == key
  {
    if updates != [] {
      ReplayNamesKeys(updates[..|updates| - 1]);
    }
  }

  lemma ListRebuilt(s: Store, s': Store)
    requires Rebuilt(s) && Aligned(s.records) && Listed(s, s')
    ensures Rebuilt(s') && Aligned(s'.records)
  {}

  /** Over every run whose records name their keys, the published updates rebuild every stored route. */
  lemma {:induction false} RunRebuilds(states: seq<Store>, ops: seq<Op>, k: nat)
    requires Run(states, ops) && k < |states|
    requires forall i :: 0 <= i < |ops| ==> ops[i].Aligned()
    ensures Rebuilt(states[k]) && Aligned(states[k].records)
  {
    hide Step;
    if k == 0 {
      assert Routes(map[]) == map[];
    } else {
      RunRebuilds(states, ops, k - 1);
      StepKeepsRebuilt(states[k - 1], ops[k - 1], states[k]);
    }
  }
}
