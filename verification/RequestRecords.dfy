/**
 * Request records of the in-memory metadata store: one record per (timeline,
 * request id) pair, kept under a current ("v2") key or still under a legacy
 * key, beside an index of cleanup rows for the completed ones.
 */
module RequestRecords {
  import opened Common
  import opened ByteStrings
  import opened MetadataKeys

  /** `LEGACY_REQUEST_REVISION_FLAG`, bit 63. */
  const LEGACY_FLAG: nat := 0x8000_0000_0000_0000

  datatype RequestState = Pending | Completed

  /** The fingerprint and response are carried along and never inspected here. */
  datatype RequestRecord = RequestRecord(schemaVersion: nat, state: RequestState, updatedAtMs: u64, payload: Bytes) {
    function Stamped(): RequestRecord {
      this.(schemaVersion := CURRENT_SCHEMA)
    }
  }

  datatype Versioned = Versioned(record: RequestRecord, revision: u64)

  datatype Store = Store(records: map<Bytes, Versioned>, index: map<Bytes, Bytes>)

  function V2(tk: Bytes, rid: Bytes): Bytes {
    RequestKey([], tk, rid)
  }

  function Old(tk: Bytes, rid: Bytes): Bytes {
    LegacyRequestKey([], tk, rid)
  }

  function Row(record: RequestRecord, tk: Bytes, rid: Bytes): Bytes {
    CleanupIndexKey([], record.updatedAtMs, tk, rid)
  }

  function OldRow(record: RequestRecord, tk: Bytes, rid: Bytes): Bytes {
    LegacyCleanupIndexKey([], record.updatedAtMs, tk, rid)
  }

  predicate InScan(row: Bytes) {
    CleanupIndexPrefix([]) <= row
  }

  predicate Flagged(expected: u64) {
    expected >= LEGACY_FLAG
  }

  /** `expected & !LEGACY_REQUEST_REVISION_FLAG`. */
  function Unflagged(expected: u64): (r: u64)
    ensures r < LEGACY_FLAG
  {
    if expected >= LEGACY_FLAG then expected - LEGACY_FLAG else expected
  }

  /** `revision | LEGACY_REQUEST_REVISION_FLAG`. */
  function WithFlag(revision: u64): u64 {
    if revision >= LEGACY_FLAG then revision else revision + LEGACY_FLAG
  }

  /** The flag is bit 63: the marked half of the words, with the rest of the word untouched. */
  lemma FlagIsTopBit(word: u64)
    ensures Flagged(word) <==> word / 0x8000_0000_0000_0000 == 1
    ensures Unflagged(word) == word % 0x8000_0000_0000_0000
    ensures Flagged(WithFlag(word)) && Unflagged(WithFlag(word)) == Unflagged(word)
    ensures Flagged(word) ==> WithFlag(word) == word
  {}

  // ---- What the operations do to the store ----

  function WithoutRow(index: map<Bytes, Bytes>, tk: Bytes, rid: Bytes, record: RequestRecord): map<Bytes, Bytes> {
    if record.state.Completed? then index - {Row(record, tk, rid)} else index
  }

  function WithRow(index: map<Bytes, Bytes>, tk: Bytes, rid: Bytes, record: RequestRecord): map<Bytes, Bytes> {
    if record.state.Completed? then index[Row(record, tk, rid) := V2(tk, rid)] else index
  }

  /** Sets or clears the current record of a pair and moves its cleanup row along. */
  function Put(s: Store, tk: Bytes, rid: Bytes, next: Option<Versioned>): Store {
    var key := V2(tk, rid);
    var index := if key in s.records then WithoutRow(s.index, tk, rid, s.records[key].record) else s.index;
    match next
    case Some(v) => Store(s.records[key := v], WithRow(index, tk, rid, v.record))
    case None => Store(s.records - {key}, index)
  }

  /** Removes the legacy record of a pair and its legacy cleanup row. */
  function DropLegacy(s: Store, tk: Bytes, rid: Bytes): Store
    requires Old(tk, rid) in s.records
  {
    var record := s.records[Old(tk, rid)].record;
    Store(s.records - {Old(tk, rid)},
      if record.state.Completed? then s.index - {OldRow(record, tk, rid)} else s.index)
  }

  function Create(s: Store, tk: Bytes, rid: Bytes, record: RequestRecord): (Store, Result<u64>) {
    if record.schemaVersion != CURRENT_SCHEMA then (s, Err(Internal))
    else if (Unambiguous(tk, rid) && Old(tk, rid) in s.records) || V2(tk, rid) in s.records then
      (s, Err(MetadataAlreadyExists))
    else (Put(s, tk, rid, Some(Versioned(record.Stamped(), 1))), Ok(1))
  }

  function SourceKey(tk: Bytes, rid: Bytes, expected: u64): Bytes {
    if Flagged(expected) then Old(tk, rid) else V2(tk, rid)
  }

  function CompareExchange(s: Store, tk: Bytes, rid: Bytes, expected: u64, record: RequestRecord)
    : (Store, Result<u64>)
  {
    var key := SourceKey(tk, rid, expected);
    if record.schemaVersion != CURRENT_SCHEMA then (s, Err(Internal))
    else if key !in s.records then (s, Err(NotFound))
    else if s.records[key].revision != Unflagged(expected) then (s, Err(CasFailed))
    else if Flagged(expected) && V2(tk, rid) in s.records then (s, Err(CasFailed))
    else
      var revision := s.records[key].revision + 1;
      var base := if Flagged(expected) then DropLegacy(s, tk, rid) else s;
      (Put(base, tk, rid, Some(Versioned(record.Stamped(), revision))), Ok(revision))
  }

  function CompareDelete(s: Store, tk: Bytes, rid: Bytes, expected: u64): (Store, Result<()>) {
    var key := SourceKey(tk, rid, expected);
    if key !in s.records then (s, Err(NotFound))
    else if s.records[key].revision != Unflagged(expected) then (s, Err(CasFailed))
    else (if Flagged(expected) then DropLegacy(s, tk, rid) else Put(s, tk, rid, None), Ok(()))
  }

  // ---- What callers see ----

  /** The one record a pair has, wherever it is kept. */
  function Register(s: Store, tk: Bytes, rid: Bytes): Option<Versioned> {
    if V2(tk, rid) in s.records then Some(s.records[V2(tk, rid)])
    else if Unambiguous(tk, rid) && Old(tk, rid) in s.records then Some(s.records[Old(tk, rid)])
    else None
  }

  /** The revision `load_request_record` hands out, marked when the record is a legacy one. */
  function Token(s: Store, tk: Bytes, rid: Bytes): Option<u64> {
    if V2(tk, rid) in s.records then Some(s.records[V2(tk, rid)].revision)
    else if Unambiguous(tk, rid) && Old(tk, rid) in s.records then Some(WithFlag(s.records[Old(tk, rid)].revision))
    else None
  }

  // ---- The invariant ----

  ghost predicate NoTwins(s: Store) {
    forall tk: Bytes, rid: Bytes ::
      Unambiguous(tk, rid) && V2(tk, rid) in s.records ==> Old(tk, rid) !in s.records
  }

  ghost predicate RowOf(s: Store, row: Bytes, tk: Bytes, rid: Bytes) {
    && V2(tk, rid) in s.records
    && s.records[V2(tk, rid)].record.state.Completed?
    && row == Row(s.records[V2(tk, rid)].record, tk, rid)
    && row in s.index && s.index[row] == V2(tk, rid)
  }

  ghost predicate RowsSound(s: Store) {
    forall row: Bytes :: row in s.index && InScan(row) ==> exists tk: Bytes, rid: Bytes :: RowOf(s, row, tk, rid)
  }

  ghost predicate RowsComplete(s: Store) {
    forall tk: Bytes, rid: Bytes ::
      V2(tk, rid) in s.records && s.records[V2(tk, rid)].record.state.Completed?
      ==> RowOf(s, Row(s.records[V2(tk, rid)].record, tk, rid), tk, rid)
  }

  /** Every current record was stamped and carries a revision the flag bit at most just reaches. */
  ghost predicate Stamps(s: Store) {
    forall tk: Bytes, rid: Bytes ::
      V2(tk, rid) in s.records
      ==> && s.records[V2(tk, rid)].record.schemaVersion == CURRENT_SCHEMA
          && s.records[V2(tk, rid)].revision <= LEGACY_FLAG
  }

  /** Exactly one cleanup row per completed current record; no unambiguous pair has two records. */
  ghost predicate Inv(s: Store) {
    NoTwins(s) && RowsSound(s) && RowsComplete(s) && Stamps(s)
  }

  /** A store that an older release may have left behind: legacy records and legacy rows only. */
  ghost predicate Seeded(s: Store) {
    && (forall tk: Bytes, rid: Bytes :: V2(tk, rid) !in s.records)
    && (forall row: Bytes :: row in s.index ==> !InScan(row))
  }

  lemma SeededInv(s: Store)
    requires Seeded(s)
    ensures Inv(s)
  {
    hide V2, Old, Row, InScan;
  }

  lemma KeysApart(tk: Bytes, rid: Bytes, tk': Bytes, rid': Bytes)
    ensures V2(tk, rid) == V2(tk', rid') ==> tk == tk' && rid == rid'
    ensures V2(tk, rid) != Old(tk', rid')
    ensures Unambiguous(tk, rid) && Old(tk, rid) == Old(tk', rid') ==> tk == tk' && rid == rid'
  {
    hide RequestKey, LegacyRequestKey;
    LegacyAndCurrentDisjoint([], tk, rid, tk', rid');
    if V2(tk, rid) == V2(tk', rid') {
      RequestKeyInjective([], tk, rid, tk', rid');
    }
    UnambiguousIffOwned([], tk, rid);
    assert LegacyRequestKey([], tk', rid') == Old(tk', rid');
  }

  lemma RowsApart(a: RequestRecord, tk: Bytes, rid: Bytes, b: RequestRecord, tk': Bytes, rid': Bytes)
    ensures Row(a, tk, rid) == Row(b, tk', rid') ==> a.updatedAtMs == b.updatedAtMs && tk == tk' && rid == rid'
    ensures InScan(Row(a, tk, rid)) && !InScan(OldRow(a, tk, rid))
  {
    hide CleanupIndexKey, LegacyCleanupIndexKey, CleanupIndexPrefix;
    CleanupCutoffExact([], a.updatedAtMs, tk, rid, 0);
    LegacyCleanupOutside([], a.updatedAtMs, tk, rid);
    if Row(a, tk, rid) == Row(b, tk', rid') {
      CleanupInjective([], a.updatedAtMs, tk, rid, b.updatedAtMs, tk', rid');
    }
  }

  // ---- Put and DropLegacy keep the rows exact ----

  lemma PutRowsSound(s: Store, tk: Bytes, rid: Bytes, next: Option<Versioned>)
    requires RowsSound(s)
    ensures RowsSound(Put(s, tk, rid, next))
  {
    hide V2, Old, Row, InScan;
    var s' := Put(s, tk, rid, next);
    forall row: Bytes | row in s'.index && InScan(row) ensures exists a: Bytes, b: Bytes :: RowOf(s', row, a, b) {
      if next.Some? && next.value.record.state.Completed? && row == Row(next.value.record, tk, rid) {
        assert RowOf(s', row, tk, rid);
      } else {
        var a: Bytes, b: Bytes :| RowOf(s, row, a, b);
        KeysApart(tk, rid, a, b);
        assert RowOf(s', row, a, b);
      }
    }
  }

  lemma PutRowsComplete(s: Store, tk: Bytes, rid: Bytes, next: Option<Versioned>)
    requires RowsComplete(s)
    ensures RowsComplete(Put(s, tk, rid, next))
  {
    hide V2, Old, Row, InScan;
    var s' := Put(s, tk, rid, next);
    forall a: Bytes, b: Bytes | V2(a, b) in s'.records && s'.records[V2(a, b)].record.state.Completed?
      ensures RowOf(s', Row(s'.records[V2(a, b)].record, a, b), a, b)
    {
      KeysApart(tk, rid, a, b);
      if a != tk || b != rid {
        var record := s.records[V2(a, b)].record;
        assert RowOf(s, Row(record, a, b), a, b);
        if V2(tk, rid) in s.records { RowsApart(s.records[V2(tk, rid)].record, tk, rid, record, a, b); }
        if next.Some? { RowsApart(next.value.record, tk, rid, record, a, b); }
      }
    }
  }

  lemma PutKeepsInv(s: Store, tk: Bytes, rid: Bytes, next: Option<Versioned>)
    requires Inv(s)
    requires next.Some? ==> next.value.record.schemaVersion == CURRENT_SCHEMA && next.value.revision <= LEGACY_FLAG
    requires next.Some? && Unambiguous(tk, rid) ==> Old(tk, rid) !in s.records
    ensures Inv(Put(s, tk, rid, next))
  {
    hide V2, Old, Row, InScan, RowsSound, RowsComplete;
    PutRowsSound(s, tk, rid, next);
    PutRowsComplete(s, tk, rid, next);
    var s' := Put(s, tk, rid, next);
    forall a: Bytes, b: Bytes | V2(a, b) in s'.records
      ensures s'.records[V2(a, b)].record.schemaVersion == CURRENT_SCHEMA
      ensures s'.records[V2(a, b)].revision <= LEGACY_FLAG
      ensures Unambiguous(a, b) ==> Old(a, b) !in s'.records
    {
      KeysApart(a, b, tk, rid);
      KeysApart(tk, rid, a, b);
    }
  }

  lemma DropLegacyKeepsInv(s: Store, tk: Bytes, rid: Bytes)
    requires Inv(s) && Old(tk, rid) in s.records
    ensures Inv(DropLegacy(s, tk, rid))
  {
    hide V2, Old, Row, OldRow, InScan;
    var s' := DropLegacy(s, tk, rid);
    RowsApart(s.records[Old(tk, rid)].record, tk, rid, s.records[Old(tk, rid)].record, tk, rid);
    forall a: Bytes, b: Bytes | V2(a, b) in s.records ensures V2(a, b) in s'.records {
      KeysApart(a, b, tk, rid);
    }
    forall row: Bytes, a: Bytes, b: Bytes | RowOf(s, row, a, b) ensures RowOf(s', row, a, b) {
      RowsApart(s.records[V2(a, b)].record, a, b, s.records[V2(a, b)].record, a, b);
    }
  }

  // ---- The operations as one compare-and-set register per pair ----

  /** `s'` agrees with `s` on every pair but one. */
  ghost predicate OthersKept(s: Store, s': Store, tk: Bytes, rid: Bytes) {
    forall a: Bytes, b: Bytes :: (a != tk || b != rid) ==> Register(s', a, b) == Register(s, a, b)
  }

  lemma PutRegister(s: Store, tk: Bytes, rid: Bytes, next: Option<Versioned>)
    requires Unambiguous(tk, rid) ==> Old(tk, rid) !in s.records
    ensures Register(Put(s, tk, rid, next), tk, rid) == next
    ensures OthersKept(s, Put(s, tk, rid, next), tk, rid)
  {
    hide V2, Old, Row, InScan;
    var s' := Put(s, tk, rid, next);
    KeysApart(tk, rid, tk, rid);
    forall a: Bytes, b: Bytes | a != tk || b != rid ensures Register(s', a, b) == Register(s, a, b) {
      KeysApart(tk, rid, a, b);
    }
  }

  lemma DropLegacyRegister(s: Store, tk: Bytes, rid: Bytes)
    requires Old(tk, rid) in s.records
    ensures OthersKept(s, DropLegacy(s, tk, rid), tk, rid)
    ensures V2(tk, rid) !in s.records ==> Register(DropLegacy(s, tk, rid), tk, rid) == None
    ensures V2(tk, rid) !in s.records ==> V2(tk, rid) !in DropLegacy(s, tk, rid).records
  {
    hide V2, Old, Row, OldRow, InScan;
    var s' := DropLegacy(s, tk, rid);
    forall a: Bytes, b: Bytes | a != tk || b != rid ensures Register(s', a, b) == Register(s, a, b) {
      KeysApart(a, b, tk, rid);
    }
  }

  /** A record can be created exactly when the pair has none, legacy ones included. */
  lemma CreateIsRegisterCreate(s: Store, tk: Bytes, rid: Bytes, record: RequestRecord)
    requires Inv(s)
    ensures var (s', r) := Create(s, tk, rid, record);
            && Inv(s') && OthersKept(s, s', tk, rid)
            && (r.Ok? <==> record.schemaVersion == CURRENT_SCHEMA && Register(s, tk, rid).None?)
            && (r.Ok? ==> r.value == 1 && Register(s', tk, rid) == Some(Versioned(record, 1)))
            && (r.Err? ==> s' == s)
  {
    hide Inv, Put, V2, Old;
    if Create(s, tk, rid, record).1.Ok? {
      PutKeepsInv(s, tk, rid, Some(Versioned(record.Stamped(), 1)));
      PutRegister(s, tk, rid, Some(Versioned(record.Stamped(), 1)));
    }
  }

  /** The token names the pair's record, and its revision is one the flag bit leaves readable. */
  ghost predicate Names(s: Store, tk: Bytes, rid: Bytes, expected: u64) {
    Token(s, tk, rid) == Some(expected) && Register(s, tk, rid).value.revision < LEGACY_FLAG
  }

  /** The key a token points at holds the revision it expects; a marked token also needs the current key free. */
  ghost predicate Reaches(s: Store, tk: Bytes, rid: Bytes, expected: u64) {
    && SourceKey(tk, rid, expected) in s.records
    && s.records[SourceKey(tk, rid, expected)].revision == Unflagged(expected)
    && (Flagged(expected) ==> V2(tk, rid) !in s.records)
  }

  /** Tokens reach what they name, except marked ones of an ambiguous pair, which name nothing. */
  lemma NamesIffReaches(s: Store, tk: Bytes, rid: Bytes, expected: u64)
    requires Inv(s)
    ensures Unambiguous(tk, rid) || !Flagged(expected) ==>
              (Names(s, tk, rid, expected) <==> Reaches(s, tk, rid, expected))
    ensures Names(s, tk, rid, expected) ==>
              && Reaches(s, tk, rid, expected)
              && Register(s, tk, rid) == Some(s.records[SourceKey(tk, rid, expected)])
    ensures !Unambiguous(tk, rid) && Flagged(expected) ==>
              !Names(s, tk, rid, expected) && (Reaches(s, tk, rid, expected) ==> Register(s, tk, rid).None?)
  {
    hide V2, Old, RowsSound, RowsComplete;
    assert Unambiguous(tk, rid) && V2(tk, rid) in s.records ==> Old(tk, rid) !in s.records;
  }

  /**
   * Compare-exchange with a loaded token succeeds exactly while the record is
   * unchanged, and continues its revision count across the move to the current key.
   * A marked token of an ambiguous pair, which no load returns, succeeds exactly when
   * it hits the revision of some legacy record under the shared key, and takes that.
   */
  lemma CompareExchangeIsRegisterCas(s: Store, tk: Bytes, rid: Bytes, expected: u64, record: RequestRecord)
    requires Inv(s)
    ensures var (s', r) := CompareExchange(s, tk, rid, expected, record);
            && Inv(s') && OthersKept(s, s', tk, rid) && (r.Err? ==> s' == s)
            && (r.Ok? <==> record.schemaVersion == CURRENT_SCHEMA && Reaches(s, tk, rid, expected))
            && (Unambiguous(tk, rid) || !Flagged(expected) ==>
                  (Reaches(s, tk, rid, expected) <==> Names(s, tk, rid, expected)))
            && (r.Ok? ==> && Register(s', tk, rid) == Some(Versioned(record, r.value))
                          && Token(s', tk, rid) == Some(r.value)
                          && r.value == Unflagged(expected) + 1)
            && (r.Ok? && Names(s, tk, rid, expected) ==> r.value == Register(s, tk, rid).value.revision + 1)
            && (r.Ok? && !Names(s, tk, rid, expected) ==> Register(s, tk, rid).None?)
  {
    hide Inv, Put, DropLegacy, V2, Old, Names, OthersKept;
    NamesIffReaches(s, tk, rid, expected);
    CompareExchangeKeepsInv(s, tk, rid, expected, record);
    if CompareExchange(s, tk, rid, expected, record).1.Ok? {
      ExchangedRegister(s, tk, rid, expected, record);
    } else {
      SameKept(s, tk, rid);
    }
  }

  lemma SameKept(s: Store, tk: Bytes, rid: Bytes)
    ensures OthersKept(s, s, tk, rid)
  {}

  lemma CompareExchangeKeepsInv(s: Store, tk: Bytes, rid: Bytes, expected: u64, record: RequestRecord)
    requires Inv(s)
    ensures Inv(CompareExchange(s, tk, rid, expected, record).0)
  {
    hide V2, Old, Put, DropLegacy, RowsSound, RowsComplete, Stamps;
    var (s', r) := CompareExchange(s, tk, rid, expected, record);
    if r.Ok? {
      if Flagged(expected) {
        DropLegacyKeepsInv(s, tk, rid);
        DroppedKey(s, tk, rid);
        PutKeepsInv(DropLegacy(s, tk, rid), tk, rid, Some(Versioned(record.Stamped(), r.value)));
      } else {
        PutKeepsInv(s, tk, rid, Some(Versioned(record.Stamped(), r.value)));
      }
    }
  }

  lemma DroppedKey(s: Store, tk: Bytes, rid: Bytes)
    requires Old(tk, rid) in s.records
    ensures Old(tk, rid) !in DropLegacy(s, tk, rid).records
  {
    hide Old;
  }

  lemma ExchangedRegister(s: Store, tk: Bytes, rid: Bytes, expected: u64, record: RequestRecord)
    requires CompareExchange(s, tk, rid, expected, record).1.Ok?
    requires Inv(s)
    ensures var (s', r) := CompareExchange(s, tk, rid, expected, record);
            && OthersKept(s, s', tk, rid)
            && Register(s', tk, rid) == Some(Versioned(record, r.value))
            && Token(s', tk, rid) == Some(r.value)
  {
    hide V2, Old, DropLegacy, RowsSound, RowsComplete, Stamps, WithRow, WithoutRow, OthersKept;
    var (s', r) := CompareExchange(s, tk, rid, expected, record);
    var next := Some(Versioned(record.Stamped(), r.value));
    if Flagged(expected) {
      DroppedKey(s, tk, rid);
      DropLegacyRegister(s, tk, rid);
      PutRegister(DropLegacy(s, tk, rid), tk, rid, next);
      KeptTwice(s, DropLegacy(s, tk, rid), s', tk, rid);
    } else {
      assert NoTwins(s);
      assert Unambiguous(tk, rid) && V2(tk, rid) in s.records ==> Old(tk, rid) !in s.records;
      PutRegister(s, tk, rid, next);
    }
    assert V2(tk, rid) in s'.records;
  }

  lemma KeptTwice(s: Store, m: Store, s': Store, tk: Bytes, rid: Bytes)
    requires OthersKept(s, m, tk, rid) && OthersKept(m, s', tk, rid)
    ensures OthersKept(s, s', tk, rid)
  {
    hide Register;
  }

  lemma CompareDeleteKeepsInv(s: Store, tk: Bytes, rid: Bytes, expected: u64)
    requires Inv(s)
    ensures Inv(CompareDelete(s, tk, rid, expected).0)
  {
    hide V2, Old, Put, DropLegacy, Inv;
    if CompareDelete(s, tk, rid, expected).1.Ok? {
      if Flagged(expected) {
        DropLegacyKeepsInv(s, tk, rid);
      } else {
        PutKeepsInv(s, tk, rid, None);
      }
    }
  }

  /**
   * Compare-delete with a loaded token succeeds exactly while the record is
   * unchanged, and clears the pair. A marked token of an ambiguous pair, which no
   * load returns, never changes what the pair itself has.
   */
  lemma CompareDeleteIsRegisterDelete(s: Store, tk: Bytes, rid: Bytes, expected: u64)
    requires Inv(s)
    ensures var (s', r) := CompareDelete(s, tk, rid, expected);
            && Inv(s') && OthersKept(s, s', tk, rid) && (r.Err? ==> s' == s)
            && (Unambiguous(tk, rid) || !Flagged(expected) ==>
                  && (r.Ok? <==> Names(s, tk, rid, expected))
                  && (r.Ok? ==> Register(s', tk, rid) == None))
            && (!Unambiguous(tk, rid) && Flagged(expected) ==>
                  && (r.Ok? <==> Old(tk, rid) in s.records && s.records[Old(tk, rid)].revision == Unflagged(expected))
                  && Register(s', tk, rid) == Register(s, tk, rid))
  {
    hide V2, Old, Put, DropLegacy, RowsSound, RowsComplete, Stamps, Names, OthersKept, Register;
    NamesIffReaches(s, tk, rid, expected);
    CompareDeleteKeepsInv(s, tk, rid, expected);
    SameKept(s, tk, rid);
    assert NoTwins(s);
    assert Unambiguous(tk, rid) && V2(tk, rid) in s.records ==> Old(tk, rid) !in s.records;
    if CompareDelete(s, tk, rid, expected).1.Ok? {
      if !Flagged(expected) {
        PutRegister(s, tk, rid, None);
      } else {
        DropLegacyRegister(s, tk, rid);
        if !Unambiguous(tk, rid) {
          AmbiguousDrop(s, tk, rid);
        }
      }
    }
  }

  lemma AmbiguousDrop(s: Store, tk: Bytes, rid: Bytes)
    requires !Unambiguous(tk, rid) && Old(tk, rid) in s.records
    ensures Register(DropLegacy(s, tk, rid), tk, rid) == Register(s, tk, rid)
  {
    hide V2, Old, OldRow;
    KeysApart(tk, rid, tk, rid);
  }

  /** Once a revision reaches bit 63 nothing but pruning can change the record again. */
  lemma RevisionBitExhausted(s: Store, tk: Bytes, rid: Bytes, expected: u64, record: RequestRecord)
    requires Inv(s)
    requires Register(s, tk, rid).Some? && Register(s, tk, rid).value.revision >= LEGACY_FLAG
    ensures CompareExchange(s, tk, rid, expected, record).1.Err?
    ensures Register(CompareDelete(s, tk, rid, expected).0, tk, rid) == Register(s, tk, rid)
    ensures Unambiguous(tk, rid) || !Flagged(expected) ==> CompareDelete(s, tk, rid, expected).1.Err?
  {
    hide V2, Old, Register, Inv, CompareExchange, CompareDelete;
    CompareExchangeIsRegisterCas(s, tk, rid, expected, record);
    CompareDeleteIsRegisterDelete(s, tk, rid, expected);
    NamesIffReaches(s, tk, rid, expected);
  }

  /** For this pair, a delete succeeds exactly when the caller holds the current token. */
  ghost predicate TokensDecideDeletes(tk: Bytes, rid: Bytes) {
    forall s: Store, expected: u64 :: Inv(s) ==>
      (CompareDelete(s, tk, rid, expected).1.Ok? <==> Names(s, tk, rid, expected))
  }

  /** The same for an exchange with a record of the current schema. */
  ghost predicate TokensDecideExchanges(tk: Bytes, rid: Bytes) {
    forall s: Store, expected: u64, record: RequestRecord :: Inv(s) && record.schemaVersion == CURRENT_SCHEMA ==>
      (CompareExchange(s, tk, rid, expected, record).1.Ok? <==> Names(s, tk, rid, expected))
  }

  /** A store holding one legacy record under this pair's legacy key. */
  function OneLegacy(tk: Bytes, rid: Bytes): Store {
    Store(map[Old(tk, rid) := Versioned(RequestRecord(CURRENT_SCHEMA, Pending, 0, []), 1)], map[])
  }

  lemma OneLegacySeeded(tk: Bytes, rid: Bytes)
    ensures Seeded(OneLegacy(tk, rid)) && Inv(OneLegacy(tk, rid))
    ensures V2(tk, rid) !in OneLegacy(tk, rid).records
  {
    hide V2, Old, Row, InScan, Inv;
    var s := OneLegacy(tk, rid);
    forall a: Bytes, b: Bytes ensures V2(a, b) !in s.records {
      KeysApart(a, b, tk, rid);
    }
    SeededInv(s);
  }

  /**
   * Tokens are trustworthy for exactly the pairs the slash guard accepts, for
   * deletes and for exchanges: for any other pair a marked token reaches a legacy
   * record that the pair cannot load and that some other pair shares.
   */
  lemma TokensDecideIffUnambiguous(tk: Bytes, rid: Bytes)
    ensures TokensDecideDeletes(tk, rid) <==> Unambiguous(tk, rid)
    ensures TokensDecideExchanges(tk, rid) <==> Unambiguous(tk, rid)
  {
    hide V2, Old, Row, InScan, Inv, Put, DropLegacy;
    if Unambiguous(tk, rid) {
      forall s: Store, expected: u64 | Inv(s)
        ensures CompareDelete(s, tk, rid, expected).1.Ok? <==> Names(s, tk, rid, expected)
      {
        CompareDeleteIsRegisterDelete(s, tk, rid, expected);
      }
      forall s: Store, expected: u64, record: RequestRecord | Inv(s) && record.schemaVersion == CURRENT_SCHEMA
        ensures CompareExchange(s, tk, rid, expected, record).1.Ok? <==> Names(s, tk, rid, expected)
      {
        CompareExchangeIsRegisterCas(s, tk, rid, expected, record);
      }
    } else {
      var s, marked := OneLegacy(tk, rid), LEGACY_FLAG + 1;
      OneLegacySeeded(tk, rid);
      assert !Names(s, tk, rid, marked);
      assert CompareDelete(s, tk, rid, marked).1.Ok?;
      assert CompareExchange(s, tk, rid, marked, RequestRecord(CURRENT_SCHEMA, Pending, 0, [])).1.Ok?;
    }
  }

  // ---- Pruning ----

  predicate Prunable(record: RequestRecord, olderThanMs: u64) {
    record.state.Completed? && record.updatedAtMs < olderThanMs
  }

  function Eligible(s: Store, olderThanMs: u64): set<Bytes> {
    set key | key in s.records && Prunable(s.records[key].record, olderThanMs)
  }

  /** The cleanup rows a prune collects before sorting them. */
  function ScanRows(s: Store, olderThanMs: u64): set<Bytes> {
    set row | row in s.index && InScan(row) && Less(row, CleanupIndexCutoff([], olderThanMs))
  }

  /** The records the rows lead to, stale rows leading nowhere. */
  ghost function Hit(s: Store, olderThanMs: u64, rows: seq<Bytes>): (hit: set<Bytes>)
    ensures hit <= Eligible(s, olderThanMs)
    ensures forall key: Bytes :: key in hit <==>
              exists i :: && 0 <= i < |rows| && rows[i] in s.index && s.index[rows[i]] == key
                          && key in Eligible(s, olderThanMs)
  {
    set key | key in Eligible(s, olderThanMs) &&
              exists i :: 0 <= i < |rows| && rows[i] in s.index && s.index[rows[i]] == key
  }

  ghost predicate PointsInto(s: Store, row: Bytes, keys: set<Bytes>) {
    row in s.index && s.index[row] in keys
  }

  /** The rows left are those neither followed nor pointing at a swept record. */
  ghost predicate RowsLeft(s: Store, s': Store, path: seq<Bytes>, swept: set<Bytes>) {
    && (forall row: Bytes :: row in s'.index <==> row in s.index && row !in path && !PointsInto(s, row, swept))
    && (forall row: Bytes :: row in s'.index ==> s'.index[row] == s.index[row])
  }

  /**
   * What a prune does: it follows the first `done` of the sorted rows, and only
   * when they are exhausted below the limit it sweeps further eligible records.
   */
  ghost predicate Pruned(s: Store, s': Store, olderThanMs: u64, limit: nat, count: nat,
                         rows: seq<Bytes>, done: nat, swept: set<Bytes>)
  {
    && Sorts(rows, ScanRows(s, olderThanMs)) && done <= |rows|
    && var hit := Hit(s, olderThanMs, rows[..done]);
    && swept <= Eligible(s, olderThanMs) - hit
    && s'.records == s.records - (hit + swept)
    && RowsLeft(s, s', rows[..done], swept)
    && count == |hit| + |swept| && count <= limit
    && (done < |rows| ==> swept == {} && count == limit)
    && (count < limit ==> hit + swept == Eligible(s, olderThanMs))
  }

  lemma HitStep(s: Store, olderThanMs: u64, rows: seq<Bytes>, row: Bytes)
    requires row in s.index
    ensures Hit(s, olderThanMs, rows + [row]) ==
            Hit(s, olderThanMs, rows) + (if s.index[row] in Eligible(s, olderThanMs) then {s.index[row]} else {})
  {
    hide Eligible;
    var more := rows + [row];
    forall key: Bytes | key in Hit(s, olderThanMs, rows) ensures key in Hit(s, olderThanMs, more) {
      var i :| 0 <= i < |rows| && rows[i] in s.index && s.index[rows[i]] == key;
      assert more[i] == rows[i];
    }
    assert more[|rows|] == row;
  }

  class RequestStore {
    var requestRecords: map<Bytes, Versioned>
    var requestCleanupIndex: map<Bytes, Bytes>

    function State(): Store
      reads this
    {
      Store(requestRecords, requestCleanupIndex)
    }

    constructor ()
      ensures State() == Store(map[], map[]) && Seeded(State())
    {
      requestRecords := map[];
      requestCleanupIndex := map[];
    }

    /** A store that starts with what an older release left behind. */
    constructor WithLegacy(seed: Store)
      requires Seeded(seed)
      ensures State() == seed
    {
      requestRecords := seed.records;
      requestCleanupIndex := seed.index;
    }

    /** `load_request_record`: the current record, else an unambiguous legacy one with a marked revision. */
    method LoadRequestRecord(tk: Bytes, rid: Bytes) returns (r: Result<Option<Versioned>>)
      ensures r.Ok? ==> (match r.value
                         case None => Register(State(), tk, rid).None?
                         case Some(v) => && Register(State(), tk, rid).Some?
                                         && v.record == Register(State(), tk, rid).value.record
                                         && Token(State(), tk, rid) == Some(v.revision))
      ensures r.Err? <==> Register(State(), tk, rid).Some?
                          && Register(State(), tk, rid).value.record.schemaVersion != CURRENT_SCHEMA
    {
      var key := V2(tk, rid);
      if key in requestRecords {
        var v := requestRecords[key];
        return if v.record.schemaVersion == CURRENT_SCHEMA then Ok(Some(v)) else Err(Internal);
      }
      if !Unambiguous(tk, rid) {
        return Ok(None);
      }
      key := Old(tk, rid);
      if key !in requestRecords {
        return Ok(None);
      }
      var v := requestRecords[key];
      return if v.record.schemaVersion == CURRENT_SCHEMA
        then Ok(Some(Versioned(v.record, WithFlag(v.revision)))) else Err(Internal);
    }

    method InsertRequestCleanupIndex(tk: Bytes, rid: Bytes, record: RequestRecord)
      modifies this`requestCleanupIndex
      ensures requestCleanupIndex == WithRow(old(requestCleanupIndex), tk, rid, record)
    {
      if record.state != Completed {
        return;
      }
      requestCleanupIndex := requestCleanupIndex[Row(record, tk, rid) := V2(tk, rid)];
    }

    method RemoveRequestCleanupIndex(tk: Bytes, rid: Bytes, record: RequestRecord)
      modifies this`requestCleanupIndex
      ensures requestCleanupIndex == WithoutRow(old(requestCleanupIndex), tk, rid, record)
    {
      if record.state != Completed {
        return;
      }
      requestCleanupIndex := requestCleanupIndex - {Row(record, tk, rid)};
    }

    method CreateRequestRecord(tk: Bytes, rid: Bytes, record: RequestRecord) returns (r: Result<u64>)
      modifies this
      ensures (State(), r) == Create(old(State()), tk, rid, record)
    {
      hide V2, Old, WithRow, WithoutRow;
      if record.schemaVersion != CURRENT_SCHEMA {
        return Err(Internal);
      }
      var stamped := record.Stamped();
      if Unambiguous(tk, rid) && Old(tk, rid) in requestRecords {
        return Err(MetadataAlreadyExists);
      }
      var key := V2(tk, rid);
      if key in requestRecords {
        return Err(MetadataAlreadyExists);
      }
      requestRecords := requestRecords[key := Versioned(stamped, 1)];
      InsertRequestCleanupIndex(tk, rid, stamped);
      return Ok(1);
    }

    method CompareExchangeRequestRecord(tk: Bytes, rid: Bytes, expected: u64, record: RequestRecord)
      returns (r: Result<u64>)
      modifies this
      ensures (State(), r) == CompareExchange(old(State()), tk, rid, expected, record)
    {
      hide V2, Old, WithRow, WithoutRow, OldRow;
      KeysApart(tk, rid, tk, rid);
      if record.schemaVersion != CURRENT_SCHEMA {
        return Err(Internal);
      }
      var stamped := record.Stamped();
      var legacy := Flagged(expected);
      var revision := Unflagged(expected);
      var key := if legacy then Old(tk, rid) else V2(tk, rid);
      var target := V2(tk, rid);
      if key !in requestRecords {
        return Err(NotFound);
      }
      var current := requestRecords[key];
      if current.revision != revision {
        return Err(CasFailed);
      }
      var newRevision := current.revision + 1;
      if legacy {
        if target in requestRecords {
          return Err(CasFailed);
        }
        requestRecords := requestRecords - {key};
        requestRecords := requestRecords[target := Versioned(stamped, newRevision)];
        if current.record.state == Completed {
          requestCleanupIndex := requestCleanupIndex - {OldRow(current.record, tk, rid)};
        }
      } else {
        requestRecords := requestRecords[key := Versioned(stamped, newRevision)];
        RemoveRequestCleanupIndex(tk, rid, current.record);
      }
      InsertRequestCleanupIndex(tk, rid, stamped);
      return Ok(newRevision);
    }

    method CompareDeleteRequestRecord(tk: Bytes, rid: Bytes, expected: u64) returns (r: Result<()>)
      modifies this
      ensures (State(), r) == CompareDelete(old(State()), tk, rid, expected)
    {
      hide V2, Old, WithRow, WithoutRow, OldRow;
      var legacy := Flagged(expected);
      var revision := Unflagged(expected);
      var key := if legacy then Old(tk, rid) else V2(tk, rid);
      if key !in requestRecords {
        return Err(NotFound);
      }
      if requestRecords[key].revision != revision {
        return Err(CasFailed);
      }
      var record := requestRecords[key].record;
      requestRecords := requestRecords - {key};
      if legacy {
        if record.state == Completed {
          requestCleanupIndex := requestCleanupIndex - {OldRow(record, tk, rid)};
        }
      } else {
        RemoveRequestCleanupIndex(tk, rid, record);
      }
      return Ok(());
    }

    /** The indexed half of a prune: follows the sorted rows until the limit is reached. */
    method PruneIndexed(olderThanMs: u64, limit: nat) returns (count: nat, rows: seq<Bytes>, done: nat)
      modifies this
      ensures Sorts(rows, ScanRows(old(State()), olderThanMs)) && done <= |rows|
      ensures Followed(old(State()), State(), olderThanMs, rows[..done], count)
      ensures count <= limit && (done < |rows| ==> count == limit)
    {
      hide InScan, Eligible, Sorts, CleanupIndexCutoff, Followed, ScanRows, Hit, Prunable;
      ghost var was := State();
      rows := SortKeys(ScanRows(State(), olderThanMs));
      var collected := requestCleanupIndex;
      ScanRowsIndexed(was, olderThanMs, rows);
      count, done := 0, 0;
      FollowedNone(was, olderThanMs);
      while done < |rows|
        invariant done <= |rows| && count <= limit
        invariant Followed(was, State(), olderThanMs, rows[..done], count)
      {
        if count >= limit {
          return;
        }
        var row := rows[done];
        var key := collected[row];
        FollowStep(was, State(), olderThanMs, rows[..done], row, count);
        assert rows[..done + 1] == rows[..done] + [row];
        if key in requestRecords && Prunable(requestRecords[key].record, olderThanMs) {
          requestRecords := requestRecords - {key};
          count := count + 1;
        }
        requestCleanupIndex := requestCleanupIndex - {row};
        done := done + 1;
      }
    }

    /** The fallback: removes further eligible records in any order, with the rows that point at them. */
    method SweepUnindexed(olderThanMs: u64, quota: nat) returns (count: nat, ghost swept: set<Bytes>)
      modifies this
      ensures swept <= Eligible(old(State()), olderThanMs) && count == |swept| <= quota
      ensures Swept(old(State()), State(), swept)
      ensures count < quota ==> swept == Eligible(old(State()), olderThanMs)
    {
      hide Eligible, Swept, RowsNotOf;
      ghost var was := State();
      var candidates := CollectEligible(State(), olderThanMs, quota);
      ghost var all := candidates;
      count, swept := 0, {};
      SweptNone(was);
      while candidates != {}
        invariant candidates + swept == all && candidates !! swept
        invariant count == |swept|
        invariant Swept(was, State(), swept)
        decreases |candidates|
      {
        var key :| key in candidates;
        SweepStep(was, State(), swept, key);
        requestRecords := requestRecords - {key};
        requestCleanupIndex := RowsNotOf(requestCleanupIndex, key);
        MoveOne(candidates, swept, key);
        candidates := candidates - {key};
        swept := swept + {key};
        count := count + 1;
      }
    }

    /** `prune_completed_request_records`. */
    method PruneCompletedRequestRecords(olderThanMs: u64, limit: nat)
      returns (count: nat, ghost rows: seq<Bytes>, ghost done: nat, ghost swept: set<Bytes>)
      modifies this
      ensures Pruned(old(State()), State(), olderThanMs, limit, count, rows, done, swept)
    {
      hide InScan, Prunable, ScanRows, Sorts, Followed, Swept, Eligible, Pruned;
      ghost var was := State();
      if limit == 0 {
        rows := SortKeys(ScanRows(State(), olderThanMs));
        count, done, swept := 0, 0, {};
        FollowedNone(was, olderThanMs);
        assert rows[..0] == [];
        FollowedIsPruned(was, was, olderThanMs, limit, count, rows, done);
        return;
      }
      count, rows, done := PruneIndexed(olderThanMs, limit);
      swept := {};
      if count >= limit {
        FollowedIsPruned(was, State(), olderThanMs, limit, count, rows, done);
        return;
      }
      ghost var mid := State();
      var more: nat;
      more, swept := SweepUnindexed(olderThanMs, limit - count);
      SweptIsPruned(was, mid, State(), olderThanMs, limit, count, rows, done, swept);
      count := count + more;
    }
  }

  lemma MoveOne(from: set<Bytes>, to: set<Bytes>, key: Bytes)
    requires key in from && from !! to
    ensures (from - {key}) + (to + {key}) == from + to && (from - {key}) !! (to + {key})
    ensures |to + {key}| == |to| + 1 && |from - {key}| < |from|
  {}

  function RowsNotOf(index: map<Bytes, Bytes>, key: Bytes): map<Bytes, Bytes> {
    map row | row in index && index[row] != key :: index[row]
  }

  /** The state after the rows in `path` have been followed. */
  ghost predicate Followed(s: Store, m: Store, olderThanMs: u64, path: seq<Bytes>, count: nat) {
    && m.records == s.records - Hit(s, olderThanMs, path)
    && m.index == s.index - Members(path)
    && count == |Hit(s, olderThanMs, path)|
  }

  lemma FollowedNone(s: Store, olderThanMs: u64)
    ensures Followed(s, s, olderThanMs, [], 0)
  {
    assert Hit(s, olderThanMs, []) == {};
  }

  lemma FollowStep(s: Store, m: Store, olderThanMs: u64, path: seq<Bytes>, row: Bytes, count: nat)
    requires Followed(s, m, olderThanMs, path, count) && row in s.index
    ensures var key := s.index[row];
            var prune := key in m.records && Prunable(m.records[key].record, olderThanMs);
            Followed(s, Store(if prune then m.records - {key} else m.records, m.index - {row}), olderThanMs,
                     path + [row], if prune then count + 1 else count)
  {
    hide Hit, Eligible, Prunable, Followed;
    var key := s.index[row];
    var hit := Hit(s, olderThanMs, path);
    FollowedFacts(s, m, olderThanMs, path, count);
    HitStep(s, olderThanMs, path, row);
    EligibleIff(s, olderThanMs, key);
    if key in s.records && key !in hit && Prunable(s.records[key].record, olderThanMs) {
      assert Hit(s, olderThanMs, path + [row]) == hit + {key};
      FollowedMore(s, m, olderThanMs, path, row, {key}, count);
      assert |hit + {key}| == |hit| + 1;
    } else {
      assert Hit(s, olderThanMs, path + [row]) == hit + {};
      FollowedMore(s, m, olderThanMs, path, row, {}, count);
      assert m.records - {} == m.records && |hit + {}| == |hit|;
    }
  }

  lemma FollowedFacts(s: Store, m: Store, olderThanMs: u64, path: seq<Bytes>, count: nat)
    requires Followed(s, m, olderThanMs, path, count)
    ensures m.records == s.records - Hit(s, olderThanMs, path) && count == |Hit(s, olderThanMs, path)|
  {
    hide Hit;
  }

  lemma FollowedMore(s: Store, m: Store, olderThanMs: u64, path: seq<Bytes>, row: Bytes, more: set<Bytes>, count: nat)
    requires Followed(s, m, olderThanMs, path, count)
    requires Hit(s, olderThanMs, path + [row]) == Hit(s, olderThanMs, path) + more
    ensures Followed(s, Store(m.records - more, m.index - {row}), olderThanMs, path + [row],
                     |Hit(s, olderThanMs, path) + more|)
  {
    hide Hit;
    RemoveMore(s.records, Hit(s, olderThanMs, path), more);
    RemoveMore(s.index, Members(path), {row});
    assert Members(path + [row]) == Members(path) + {row};
  }

  lemma RemoveMore<V>(m: map<Bytes, V>, a: set<Bytes>, b: set<Bytes>)
    ensures m - a - b == m - (a + b)
  {}

  function Members(path: seq<Bytes>): set<Bytes> {
    set row | row in path
  }

  /** The state after the records in `gone` and the rows pointing at them have been removed. */
  ghost predicate Swept(s: Store, m: Store, gone: set<Bytes>) {
    && m.records == s.records - gone
    && (forall row: Bytes :: row in m.index <==> row in s.index && s.index[row] !in gone)
    && (forall row: Bytes :: row in m.index ==> m.index[row] == s.index[row])
  }

  lemma SweptNone(s: Store)
    ensures Swept(s, s, {})
  {}

  lemma SweepStep(s: Store, m: Store, gone: set<Bytes>, key: Bytes)
    requires Swept(s, m, gone)
    ensures Swept(s, Store(m.records - {key}, RowsNotOf(m.index, key)), gone + {key})
  {
    RemoveMore(s.records, gone, {key});
  }

  lemma FollowedIsPruned(s: Store, s': Store, olderThanMs: u64, limit: nat, count: nat, rows: seq<Bytes>, done: nat)
    requires Sorts(rows, ScanRows(s, olderThanMs)) && done <= |rows|
    requires Followed(s, s', olderThanMs, rows[..done], count) && count == limit
    ensures Pruned(s, s', olderThanMs, limit, count, rows, done, {})
  {
    hide Eligible, ScanRows, Sorts;
    assert s.records - (Hit(s, olderThanMs, rows[..done]) + {}) == s'.records;
  }

  lemma SweptIsPruned(s: Store, m: Store, s': Store, olderThanMs: u64, limit: nat, count: nat,
                      rows: seq<Bytes>, done: nat, swept: set<Bytes>)
    requires Sorts(rows, ScanRows(s, olderThanMs)) && done <= |rows|
    requires Followed(s, m, olderThanMs, rows[..done], count) && Swept(m, s', swept)
    requires count < limit && (done < |rows| ==> count == limit)
    requires swept <= Eligible(m, olderThanMs) && count + |swept| <= limit
    requires count + |swept| < limit ==> swept == Eligible(m, olderThanMs)
    ensures Pruned(s, s', olderThanMs, limit, count + |swept|, rows, done, swept)
  {
    hide ScanRows, Sorts, Eligible, Hit, RowsLeft;
    var path := rows[..done];
    var hit := Hit(s, olderThanMs, path);
    EligibleAfter(s, m, olderThanMs, hit);
    RemoveMore(s.records, hit, swept);
    SweptRowsLeft(s, m, s', path, swept);
  }

  lemma SweptRowsLeft(s: Store, m: Store, s': Store, path: seq<Bytes>, swept: set<Bytes>)
    requires m.index == s.index - Members(path) && Swept(m, s', swept)
    ensures RowsLeft(s, s', path, swept)
  {}

  lemma EligibleAfter(s: Store, m: Store, olderThanMs: u64, hit: set<Bytes>)
    requires m.records == s.records - hit
    ensures Eligible(m, olderThanMs) == Eligible(s, olderThanMs) - hit
  {}

  /** Scans the records in any order and stops as soon as `quota` eligible ones are found. */
  method CollectEligible(s: Store, olderThanMs: u64, quota: nat) returns (found: set<Bytes>)
    ensures found <= Eligible(s, olderThanMs) && |found| <= quota
    ensures |found| < quota ==> found == Eligible(s, olderThanMs)
  {
    found := {};
    var rest := s.records.Keys;
    while rest != {} && |found| < quota
      invariant rest <= s.records.Keys && found !! rest
      invariant found <= Eligible(s, olderThanMs) <= found + rest && |found| <= quota
      decreases |rest|
    {
      var key :| key in rest;
      if Prunable(s.records[key].record, olderThanMs) {
        found := found + {key};
      }
      rest := rest - {key};
    }
  }

  lemma ScanRowsIndexed(s: Store, olderThanMs: u64, rows: seq<Bytes>)
    requires Sorts(rows, ScanRows(s, olderThanMs))
    ensures forall i :: 0 <= i < |rows| ==> rows[i] in s.index
  {
    forall i | 0 <= i < |rows| ensures rows[i] in s.index {
      assert rows[i] in rows;
    }
  }

  lemma EligibleIff(s: Store, olderThanMs: u64, key: Bytes)
    ensures key in Eligible(s, olderThanMs) <==> key in s.records && Prunable(s.records[key].record, olderThanMs)
  {}
}
