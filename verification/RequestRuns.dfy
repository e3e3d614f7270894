/** What pruning guarantees, and what every run of request-record operations keeps. */
module RequestRuns {
  import opened Common
  import opened ByteStrings
  import opened MetadataKeys
  import opened RequestRecords

  // ---- Pruning ----

  /** A prune removes eligible records only, as many as the limit allows. */
  lemma PruneCount(s: Store, s': Store, olderThanMs: u64, limit: nat, count: nat,
                   rows: seq<Bytes>, done: nat, swept: set<Bytes>)
    requires Pruned(s, s', olderThanMs, limit, count, rows, done, swept)
    ensures count == Min(limit, |Eligible(s, olderThanMs)|)
    ensures s'.records.Keys <= s.records.Keys && |s.records.Keys - s'.records.Keys| == count
    ensures forall key :: key in s'.records ==> s'.records[key] == s.records[key]
    ensures s.records.Keys - s'.records.Keys <= Eligible(s, olderThanMs)
  {
    hide Sorts, ScanRows, Prunable, Hit, RowsLeft;
    var hit := Hit(s, olderThanMs, rows[..done]);
    var all := Eligible(s, olderThanMs);
    assert |hit + swept| == |hit| + |swept|;
    SubsetSize(hit + swept, all);
    assert s.records.Keys - s'.records.Keys == hit + swept;
  }

  /** Whatever goes was completed before the cutoff, and below the limit nothing of that kind is left. */
  lemma PruneRemovesDue(s: Store, s': Store, olderThanMs: u64, limit: nat, count: nat,
                        rows: seq<Bytes>, done: nat, swept: set<Bytes>, key: Bytes)
    requires Pruned(s, s', olderThanMs, limit, count, rows, done, swept) && key in s.records
    ensures key !in s'.records ==>
              s.records[key].record.state == Completed && s.records[key].record.updatedAtMs < olderThanMs
    ensures key in s'.records && count < limit ==>
              s.records[key].record.state == Pending || s.records[key].record.updatedAtMs >= olderThanMs
  {
    hide Sorts, ScanRows, Hit, RowsLeft, Eligible;
    EligibleIff(s, olderThanMs, key);
  }

  lemma {:induction false} SubsetSize<T>(a: set<T>, b: set<T>)
    requires a <= b
    ensures |a| <= |b|
  {
    if x :| x in a {
      SubsetSize(a - {x}, b - {x});
    }
  }

  /** A completed current record is due exactly when its row is among those scanned. */
  lemma RowScannedIff(s: Store, olderThanMs: u64, row: Bytes, tk: Bytes, rid: Bytes)
    requires RowOf(s, row, tk, rid)
    ensures row in ScanRows(s, olderThanMs) <==> Prunable(s.records[V2(tk, rid)].record, olderThanMs)
  {
    hide CleanupIndexKey, CleanupIndexCutoff, CleanupIndexPrefix, V2;
    CleanupCutoffExact([], s.records[V2(tk, rid)].record.updatedAtMs, tk, rid, olderThanMs);
  }

  /** The rows followed lead to exactly the records removed through the index. */
  lemma HitIffFollowed(s: Store, olderThanMs: u64, path: seq<Bytes>, row: Bytes, tk: Bytes, rid: Bytes)
    requires Inv(s) && RowOf(s, row, tk, rid)
    requires forall i :: 0 <= i < |path| ==> path[i] in ScanRows(s, olderThanMs)
    ensures V2(tk, rid) in Hit(s, olderThanMs, path) <==> row in path
  {
    hide V2, Row, Prunable, NoTwins, RowsComplete, Stamps, ScanRows;
    var key := V2(tk, rid);
    EligibleIff(s, olderThanMs, key);
    if row in path {
      RowScannedIff(s, olderThanMs, row, tk, rid);
    } else if key in Hit(s, olderThanMs, path) {
      var i :| 0 <= i < |path| && path[i] in s.index && s.index[path[i]] == key;
      ScannedRow(s, olderThanMs, path[i]);
      var a: Bytes, b: Bytes :| RowOf(s, path[i], a, b);
      KeysApart(tk, rid, a, b);
      assert false;
    }
  }

  lemma ScannedRow(s: Store, olderThanMs: u64, row: Bytes)
    requires row in ScanRows(s, olderThanMs)
    ensures row in s.index && InScan(row)
  {}

  lemma PathScanned(s: Store, olderThanMs: u64, rows: seq<Bytes>, done: nat)
    requires Sorts(rows, ScanRows(s, olderThanMs)) && done <= |rows|
    ensures forall i :: 0 <= i < |rows[..done]| ==> rows[..done][i] in ScanRows(s, olderThanMs)
  {
    hide ScanRows;
    forall i | 0 <= i < done ensures rows[i] in ScanRows(s, olderThanMs) {
      assert rows[i] in rows;
    }
  }

  /** Where the removal of a current record came from, and where a kept one stands. */
  lemma PruneByRow(s: Store, s': Store, olderThanMs: u64, limit: nat, count: nat,
                   rows: seq<Bytes>, done: nat, swept: set<Bytes>, row: Bytes, tk: Bytes, rid: Bytes)
    requires Inv(s) && RowOf(s, row, tk, rid)
    requires Pruned(s, s', olderThanMs, limit, count, rows, done, swept)
    ensures V2(tk, rid) in s'.records <==> row !in rows[..done]
    ensures V2(tk, rid) !in swept
  {
    hide V2, Row, Inv, Sorts, ScanRows, Hit, RowsLeft, Eligible, Prunable;
    var path := rows[..done];
    var key := V2(tk, rid);
    PathScanned(s, olderThanMs, rows, done);
    HitIffFollowed(s, olderThanMs, path, row, tk, rid);
    EligibleIff(s, olderThanMs, key);
    RowScannedIff(s, olderThanMs, row, tk, rid);
    InSorted(rows, ScanRows(s, olderThanMs), row);
    assert done == |rows| ==> path == rows;
  }

  lemma InSorted(rows: seq<Bytes>, all: set<Bytes>, row: Bytes)
    requires Sorts(rows, all)
    ensures row in rows <==> row in all
  {}

  /** Through the index, older records go first. */
  lemma PruneOldestFirst(s: Store, s': Store, olderThanMs: u64, limit: nat, count: nat,
                         rows: seq<Bytes>, done: nat, swept: set<Bytes>,
                         tk: Bytes, rid: Bytes, tk': Bytes, rid': Bytes)
    requires Inv(s) && Pruned(s, s', olderThanMs, limit, count, rows, done, swept)
    requires V2(tk, rid) in s.records && V2(tk, rid) !in s'.records
    requires V2(tk', rid') in s'.records && Prunable(s'.records[V2(tk', rid')].record, olderThanMs)
    ensures s.records[V2(tk, rid)].record.updatedAtMs <= s'.records[V2(tk', rid')].record.updatedAtMs
  {
    hide V2, Row, Inv, Sorts, ScanRows, Hit, RowsLeft, Eligible, Prunable, Pruned, RowOf;
    PruneCount(s, s', olderThanMs, limit, count, rows, done, swept);
    EligibleIff(s, olderThanMs, V2(tk, rid));
    var row := RowFor(s, olderThanMs, tk, rid);
    var row' := RowFor(s, olderThanMs, tk', rid');
    PruneByRow(s, s', olderThanMs, limit, count, rows, done, swept, row, tk, rid);
    PruneByRow(s, s', olderThanMs, limit, count, rows, done, swept, row', tk', rid');
    RowScannedIff(s, olderThanMs, row', tk', rid');
    PrunedSorts(s, s', olderThanMs, limit, count, rows, done, swept);
    InSorted(rows, ScanRows(s, olderThanMs), row');
    FirstPartLess(rows, ScanRows(s, olderThanMs), done, row, row');
    RowsOrder(s, row, tk, rid, row', tk', rid');
  }

  lemma PrunedSorts(s: Store, s': Store, olderThanMs: u64, limit: nat, count: nat,
                    rows: seq<Bytes>, done: nat, swept: set<Bytes>)
    requires Pruned(s, s', olderThanMs, limit, count, rows, done, swept)
    ensures Sorts(rows, ScanRows(s, olderThanMs)) && done <= |rows|
  {
    hide Sorts, ScanRows, Hit, RowsLeft, Eligible;
  }

  lemma RowFor(s: Store, olderThanMs: u64, tk: Bytes, rid: Bytes) returns (row: Bytes)
    requires Inv(s) && V2(tk, rid) in s.records && Prunable(s.records[V2(tk, rid)].record, olderThanMs)
    ensures RowOf(s, row, tk, rid)
  {
    hide V2, Row, NoTwins, RowsSound, Stamps;
    row := Row(s.records[V2(tk, rid)].record, tk, rid);
  }

  lemma FirstPartLess(rows: seq<Bytes>, all: set<Bytes>, done: nat, row: Bytes, row': Bytes)
    requires Sorts(rows, all) && done <= |rows|
    requires row in rows[..done] && row' in rows && row' !in rows[..done]
    ensures Less(row, row')
  {
    var i :| 0 <= i < done && rows[i] == row;
    var j :| 0 <= j < |rows| && rows[j] == row';
    assert forall k :: 0 <= k < done ==> rows[k] in rows[..done];
  }

  lemma RowsOrder(s: Store, row: Bytes, tk: Bytes, rid: Bytes, row': Bytes, tk': Bytes, rid': Bytes)
    requires RowOf(s, row, tk, rid) && RowOf(s, row', tk', rid') && Less(row, row')
    ensures s.records[V2(tk, rid)].record.updatedAtMs <= s.records[V2(tk', rid')].record.updatedAtMs
  {
    hide V2, CleanupIndexKey;
    var a, b := s.records[V2(tk, rid)].record, s.records[V2(tk', rid')].record;
    CleanupOrder([], a.updatedAtMs, tk, rid, b.updatedAtMs, tk', rid');
  }

  /** A legacy record is touched only once every due current record is gone. */
  lemma PruneLegacyLast(s: Store, s': Store, olderThanMs: u64, limit: nat, count: nat,
                                 rows: seq<Bytes>, done: nat, swept: set<Bytes>, key: Bytes, tk: Bytes, rid: Bytes)
    requires Inv(s) && Pruned(s, s', olderThanMs, limit, count, rows, done, swept)
    requires key in s.records && key !in s'.records && forall a: Bytes, b: Bytes :: V2(a, b) != key
    requires V2(tk, rid) in s.records && Prunable(s.records[V2(tk, rid)].record, olderThanMs)
    ensures V2(tk, rid) !in s'.records
  {
    hide V2, Row, Inv, Sorts, ScanRows, RowsLeft, Eligible, Prunable, RowOf;
    assert key in swept by {
      PathScanned(s, olderThanMs, rows, done);
      LegacyNotHit(s, olderThanMs, rows[..done], key);
    }
    assert done == |rows| && rows[..done] == rows;
    var row := RowFor(s, olderThanMs, tk, rid);
    PruneByRow(s, s', olderThanMs, limit, count, rows, done, swept, row, tk, rid);
    RowScannedIff(s, olderThanMs, row, tk, rid);
    InSorted(rows, ScanRows(s, olderThanMs), row);
  }

  lemma LegacyNotHit(s: Store, olderThanMs: u64, path: seq<Bytes>, key: Bytes)
    requires Inv(s) && forall a: Bytes, b: Bytes :: V2(a, b) != key
    requires forall i :: 0 <= i < |path| ==> path[i] in ScanRows(s, olderThanMs)
    ensures key !in Hit(s, olderThanMs, path)
  {
    hide Eligible, V2, Row, ScanRows, InScan, NoTwins, RowsComplete, Stamps;
    forall i | 0 <= i < |path| && path[i] in s.index ensures s.index[path[i]] != key {
      ScannedRow(s, olderThanMs, path[i]);
      var a: Bytes, b: Bytes :| RowOf(s, path[i], a, b);
    }
  }

  /** After a prune there is still exactly one row per completed current record. */
  lemma PruneKeepsInv(s: Store, s': Store, olderThanMs: u64, limit: nat, count: nat,
                      rows: seq<Bytes>, done: nat, swept: set<Bytes>)
    requires Inv(s) && Pruned(s, s', olderThanMs, limit, count, rows, done, swept)
    ensures Inv(s')
  {
    hide V2, Old, Row, InScan, Sorts, ScanRows, Hit, Eligible, Prunable, Pruned;
    PruneCount(s, s', olderThanMs, limit, count, rows, done, swept);
    PrunedRowsLeft(s, s', olderThanMs, limit, count, rows, done, swept);
    forall row: Bytes, a: Bytes, b: Bytes | RowOf(s, row, a, b)
      ensures V2(a, b) in s'.records ==> RowOf(s', row, a, b)
      ensures row in s'.index ==> V2(a, b) in s'.records
    {
      PruneByRow(s, s', olderThanMs, limit, count, rows, done, swept, row, a, b);
    }
    PrunedRowsExact(s, s');
  }

  lemma PrunedRowsLeft(s: Store, s': Store, olderThanMs: u64, limit: nat, count: nat,
                       rows: seq<Bytes>, done: nat, swept: set<Bytes>)
    requires Pruned(s, s', olderThanMs, limit, count, rows, done, swept)
    ensures done <= |rows| && RowsLeft(s, s', rows[..done], swept)
  {
    hide Sorts, ScanRows, Hit, Eligible, RowsLeft;
  }

  lemma PrunedRowsExact(s: Store, s': Store)
    requires Inv(s)
    requires forall key :: key in s'.records ==> key in s.records && s'.records[key] == s.records[key]
    requires forall row :: row in s'.index ==> row in s.index
    requires forall row: Bytes, a: Bytes, b: Bytes :: RowOf(s, row, a, b) ==>
               && (V2(a, b) in s'.records ==> RowOf(s', row, a, b))
               && (row in s'.index ==> V2(a, b) in s'.records)
    ensures Inv(s')
  {
    hide V2, Old, Row, InScan, RowOf;
    forall row: Bytes | row in s'.index && InScan(row) ensures exists a: Bytes, b: Bytes :: RowOf(s', row, a, b) {
      var a: Bytes, b: Bytes :| RowOf(s, row, a, b);
      assert RowOf(s', row, a, b);
    }
  }

  // ---- Runs ----

  datatype Op =
    | DoCreate(tk: Bytes, rid: Bytes, record: RequestRecord)
    | DoExchange(tk: Bytes, rid: Bytes, expected: u64, record: RequestRecord)
    | DoDelete(tk: Bytes, rid: Bytes, expected: u64)
    | DoPrune(olderThanMs: u64, limit: nat)

  ghost predicate SomePrune(s: Store, s': Store, olderThanMs: u64, limit: nat) {
    exists count: nat, rows: seq<Bytes>, done: nat, swept: set<Bytes> ::
      Pruned(s, s', olderThanMs, limit, count, rows, done, swept)
  }

  ghost predicate Step(s: Store, op: Op, s': Store) {
    match op
    case DoCreate(tk, rid, record) => s' == Create(s, tk, rid, record).0
    case DoExchange(tk, rid, expected, record) => s' == CompareExchange(s, tk, rid, expected, record).0
    case DoDelete(tk, rid, expected) => s' == CompareDelete(s, tk, rid, expected).0
    case DoPrune(olderThanMs, limit) => SomePrune(s, s', olderThanMs, limit)
  }

  ghost predicate Run(states: seq<Store>, ops: seq<Op>) {
    && |states| == |ops| + 1 && Seeded(states[0])
    && forall i :: 0 <= i < |ops| ==> Step(states[i], ops[i], states[i + 1])
  }

  lemma StepKeepsInv(s: Store, op: Op, s': Store)
    requires Inv(s) && Step(s, op, s')
    ensures Inv(s')
  {
    hide Inv, Create, CompareExchange, CompareDelete, Pruned;
    match op
    case DoCreate(tk, rid, record) => CreateIsRegisterCreate(s, tk, rid, record);
    case DoExchange(tk, rid, expected, record) => CompareExchangeKeepsInv(s, tk, rid, expected, record);
    case DoDelete(tk, rid, expected) => CompareDeleteKeepsInv(s, tk, rid, expected);
    case DoPrune(olderThanMs, limit) =>
      var count: nat, rows: seq<Bytes>, done: nat, swept: set<Bytes> :|
        Pruned(s, s', olderThanMs, limit, count, rows, done, swept);
      PruneKeepsInv(s, s', olderThanMs, limit, count, rows, done, swept);
  }

  /** In every run: no unambiguous pair has two records, and rows and completed records correspond one to one. */
  lemma {:induction false} RunKeepsInv(states: seq<Store>, ops: seq<Op>, k: nat)
    requires Run(states, ops) && k < |states|
    ensures Inv(states[k])
  {
    hide Inv, Step, Seeded;
    if k == 0 {
      SeededInv(states[0]);
    } else {
      RunKeepsInv(states, ops, k - 1);
      StepKeepsInv(states[k - 1], ops[k - 1], states[k]);
    }
  }

  /** In no run are both a current and a legacy record of the pair present. */
  ghost predicate NeverTwins(tk: Bytes, rid: Bytes) {
    forall states: seq<Store>, ops: seq<Op>, k: nat :: Run(states, ops) && k < |states| ==>
      !(V2(tk, rid) in states[k].records && Old(tk, rid) in states[k].records)
  }

  /** That holds for exactly the pairs the slash guard accepts: any other needs one legacy record and one create. */
  lemma NeverTwinsIffUnambiguous(tk: Bytes, rid: Bytes)
    ensures NeverTwins(tk, rid) <==> Unambiguous(tk, rid)
  {
    hide V2, Old, Row, InScan, Seeded, RowsSound, RowsComplete, Stamps, WithRow, WithoutRow;
    if Unambiguous(tk, rid) {
      forall states: seq<Store>, ops: seq<Op>, k: nat | Run(states, ops) && k < |states|
        ensures !(V2(tk, rid) in states[k].records && Old(tk, rid) in states[k].records)
      {
        RunKeepsInv(states, ops, k);
      }
    } else {
      var s, record := OneLegacy(tk, rid), RequestRecord(CURRENT_SCHEMA, Pending, 0, []);
      OneLegacySeeded(tk, rid);
      var states, ops := [s, Create(s, tk, rid, record).0], [DoCreate(tk, rid, record)];
      assert Step(states[0], ops[0], states[1]);
      assert Run(states, ops);
      assert V2(tk, rid) in states[1].records && Old(tk, rid) in states[1].records;
    }
  }

  /** The operation is a compare-exchange of this pair that took effect. */
  ghost predicate Bumps(s: Store, op: Op, tk: Bytes, rid: Bytes) {
    && op.DoExchange? && op.tk == tk && op.rid == rid
    && CompareExchange(s, tk, rid, op.expected, op.record).1.Ok?
  }

  /** While a pair keeps its record, only its own exchanges move the revision, by one each. */
  lemma StepRevision(s: Store, op: Op, s': Store, tk: Bytes, rid: Bytes)
    requires Inv(s) && Step(s, op, s')
    requires Register(s, tk, rid).Some? && Register(s', tk, rid).Some?
    ensures Register(s', tk, rid).value.revision ==
            Register(s, tk, rid).value.revision + (if Bumps(s, op, tk, rid) then 1 else 0)
  {
    hide Inv, Create, CompareExchange, CompareDelete, Pruned, Register;
    match op
    case DoCreate(a, b, record) => CreateIsRegisterCreate(s, a, b, record);
    case DoExchange(a, b, expected, record) =>
      ExchangeRevision(s, a, b, expected, record, tk, rid);
    case DoDelete(a, b, expected) => DeleteRevision(s, a, b, expected, tk, rid);
    case DoPrune(olderThanMs, limit) =>
      var count: nat, rows: seq<Bytes>, done: nat, swept: set<Bytes> :|
        Pruned(s, s', olderThanMs, limit, count, rows, done, swept);
      PruneCount(s, s', olderThanMs, limit, count, rows, done, swept);
      ShrunkRegister(s, s', tk, rid);
  }

  lemma ExchangeRevision(s: Store, a: Bytes, b: Bytes, expected: u64, record: RequestRecord, tk: Bytes, rid: Bytes)
    requires Inv(s) && Register(s, tk, rid).Some?
    ensures var (s', r) := CompareExchange(s, a, b, expected, record);
            Register(s', tk, rid).Some? ==>
              Register(s', tk, rid).value.revision ==
              Register(s, tk, rid).value.revision + (if r.Ok? && a == tk && b == rid then 1 else 0)
  {
    hide Inv, V2, Old, Put, DropLegacy, RowsSound, RowsComplete, Stamps;
    var (s', r) := CompareExchange(s, a, b, expected, record);
    if r.Ok? {
      ExchangedRegister(s, a, b, expected, record);
      if a == tk && b == rid {
        ExchangedFrom(s, tk, rid, expected, record);
      }
    }
  }

  lemma ExchangedFrom(s: Store, tk: Bytes, rid: Bytes, expected: u64, record: RequestRecord)
    requires Inv(s) && Register(s, tk, rid).Some?
    requires CompareExchange(s, tk, rid, expected, record).1.Ok?
    ensures CompareExchange(s, tk, rid, expected, record).1.value == Register(s, tk, rid).value.revision + 1
  {
    hide V2, Old, Put, DropLegacy;
  }

  lemma DeleteRevision(s: Store, a: Bytes, b: Bytes, expected: u64, tk: Bytes, rid: Bytes)
    requires Inv(s) && Register(s, tk, rid).Some?
    ensures var s' := CompareDelete(s, a, b, expected).0;
            Register(s', tk, rid).Some? ==> Register(s', tk, rid) == Register(s, tk, rid)
  {
    hide V2, Old, Inv, Register, Unambiguous, CompareDelete, Names;
    CompareDeleteIsRegisterDelete(s, a, b, expected);
  }

  lemma ShrunkRegister(s: Store, s': Store, tk: Bytes, rid: Bytes)
    requires Inv(s) && Register(s', tk, rid).Some?
    requires forall key :: key in s'.records ==> key in s.records && s'.records[key] == s.records[key]
    ensures Register(s', tk, rid) == Register(s, tk, rid)
  {
    hide V2, Old, RowsSound, RowsComplete, Stamps;
    assert NoTwins(s);
  }

  /** How many exchanges of the pair took effect in steps `i` to `j`. */
  ghost function Bumped(states: seq<Store>, ops: seq<Op>, tk: Bytes, rid: Bytes, i: nat, j: nat): nat
    requires |states| == |ops| + 1 && i <= j <= |ops|
    decreases j
  {
    if j == i then 0
    else Bumped(states, ops, tk, rid, i, j - 1) + (if Bumps(states[j - 1], ops[j - 1], tk, rid) then 1 else 0)
  }

  /**
   * One revision chain: over any stretch of any run in which the pair keeps a
   * record, its revision grows by exactly the number of exchanges that took
   * effect, wherever the record was kept meanwhile.
   */
  lemma {:induction false} RevisionCountsExchanges(states: seq<Store>, ops: seq<Op>, tk: Bytes, rid: Bytes,
                                                   i: nat, j: nat)
    requires Run(states, ops) && i <= j < |states|
    requires forall k :: i <= k <= j ==> Register(states[k], tk, rid).Some?
    ensures Register(states[j], tk, rid).value.revision ==
            Register(states[i], tk, rid).value.revision + Bumped(states, ops, tk, rid, i, j)
    decreases j
  {
    hide Step, Register, Bumps, Inv, Seeded;
    if i < j {
      RevisionCountsExchanges(states, ops, tk, rid, i, j - 1);
      RunKeepsInv(states, ops, j - 1);
      StepRevision(states[j - 1], ops[j - 1], states[j], tk, rid);
    }
  }
}
