/** Records under revisions: create, compare-exchange and all-or-nothing batches of compare-exchanges. */
module RevisionedMap {
  import opened Common

  datatype Versioned<+V> = Versioned(record: V, revision: nat)

  datatype BatchOp<+K, +V> = BatchOp(key: K, previousRevision: nat, record: V)

  function CreateEntry<K, V>(m: map<K, Versioned<V>>, key: K, record: V): (map<K, Versioned<V>>, Result<nat>) {
    if key in m then (m, Err(MetadataAlreadyExists))
    else (m[key := Versioned(record, 1)], Ok(1))
  }

  function CasEntry<K, V>(m: map<K, Versioned<V>>, key: K, previousRevision: nat, record: V)
    : (map<K, Versioned<V>>, Result<nat>)
  {
    if key !in m then (m, Err(NotFound))
    else if m[key].revision != previousRevision then (m, Err(CasFailed))
    else (m[key := Versioned(record, previousRevision + 1)], Ok(previousRevision + 1))
  }

  // ---- Batches ----

  /** The operation finds the record it expects, and no earlier operation names the same one. */
  predicate Current<K(==), V>(m: map<K, Versioned<V>>, ops: seq<BatchOp<K, V>>, i: nat)
    requires i < |ops|
  {
    && ops[i].key in m && m[ops[i].key].revision == ops[i].previousRevision
    && forall j :: 0 <= j < i ==> ops[j].key != ops[i].key
  }

  ghost predicate AllCurrent<K, V>(m: map<K, Versioned<V>>, ops: seq<BatchOp<K, V>>) {
    forall i {:trigger ops[i]} :: 0 <= i < |ops| ==> Current(m, ops, i)
  }

  ghost predicate Committable<K, V(!new)>(m: map<K, Versioned<V>>, ops: seq<BatchOp<K, V>>, accepts: V -> bool) {
    AllCurrent(m, ops) && forall i :: 0 <= i < |ops| ==> accepts(ops[i].record)
  }

  /** The error reported for an operation that cannot go ahead, in the order the checks are made. */
  function Fault<K(==), V>(m: map<K, Versioned<V>>, ops: seq<BatchOp<K, V>>, i: nat, accepts: V -> bool)
    : Option<TsoError>
    requires i < |ops|
  {
    if !accepts(ops[i].record) then Some(Internal)
    else if exists j :: 0 <= j < i && ops[j].key == ops[i].key then Some(CasFailed)
    else if ops[i].key !in m then Some(NotFound)
    else if m[ops[i].key].revision != ops[i].previousRevision then Some(CasFailed)
    else None
  }

  /** The validation loop: the first fault found, if any. */
  method ValidateBatch<K(==), V>(m: map<K, Versioned<V>>, ops: seq<BatchOp<K, V>>, accepts: V -> bool)
    returns (fault: Option<TsoError>)
    ensures fault.None? ==> forall i :: 0 <= i < |ops| ==> Fault(m, ops, i, accepts).None?
    ensures fault.Some? ==> exists i :: 0 <= i < |ops| && Fault(m, ops, i, accepts) == fault
                                        && forall j :: 0 <= j < i ==> Fault(m, ops, j, accepts).None?
  {
    var seen: set<K> := {};
    for i := 0 to |ops|
      invariant forall j :: 0 <= j < i ==> Fault(m, ops, j, accepts).None?
      invariant forall k :: k in seen <==> exists j :: 0 <= j < i && ops[j].key == k
    {
      var op := ops[i];
      assert op.key in seen <==> exists j :: 0 <= j < i && ops[j].key == ops[i].key;
      ghost var expected := Fault(m, ops, i, accepts);
      if !accepts(op.record) {
        return Some(Internal);
      }
      if op.key in seen {
        return Some(CasFailed);
      }
      seen := seen + {op.key};
      if op.key !in m {
        return Some(NotFound);
      }
      if m[op.key].revision != op.previousRevision {
        return Some(CasFailed);
      }
    }
    return None;
  }

  lemma NoFaultIffCommittable<K, V(!new)>(m: map<K, Versioned<V>>, ops: seq<BatchOp<K, V>>, accepts: V -> bool)
    ensures (forall i :: 0 <= i < |ops| ==> Fault(m, ops, i, accepts).None?) <==> Committable(m, ops, accepts)
  {
    forall i | 0 <= i < |ops|
      ensures Fault(m, ops, i, accepts).None? <==> accepts(ops[i].record) && Current(m, ops, i)
    {}
  }

  /** The records after the first `n` operations have been written one by one. */
  function Written<K, V>(m: map<K, Versioned<V>>, ops: seq<BatchOp<K, V>>, n: nat): (m': map<K, Versioned<V>>)
    requires n <= |ops|
    requires forall i :: 0 <= i < |ops| ==> ops[i].key in m
    ensures m'.Keys == m.Keys
  {
    if n == 0 then m
    else
      var before := Written(m, ops, n - 1);
      var op := ops[n - 1];
      before[op.key := Versioned(op.record, before[op.key].revision + 1)]
  }

  /** A batch without faults sets every named record, exactly once, and touches no other. */
  lemma {:induction false} WrittenExactly<K, V>(m: map<K, Versioned<V>>, ops: seq<BatchOp<K, V>>, n: nat)
    requires n <= |ops| && AllCurrent(m, ops)
    ensures forall i :: 0 <= i < n ==>
              Written(m, ops, n)[ops[i].key] == Versioned(ops[i].record, ops[i].previousRevision + 1)
    ensures forall k :: k in m && (forall i :: 0 <= i < n ==> ops[i].key != k) ==> Written(m, ops, n)[k] == m[k]
  {
    if n > 0 {
      WrittenExactly(m, ops, n - 1);
      assert Current(m, ops, n - 1);
    }
  }

  /** When an operation's turn comes, its record is still the one it was checked against. */
  lemma StillCurrent<K, V>(m: map<K, Versioned<V>>, ops: seq<BatchOp<K, V>>, n: nat)
    requires AllCurrent(m, ops) && n < |ops|
    ensures ops[n].key in m && Written(m, ops, n)[ops[n].key] == m[ops[n].key]
    ensures m[ops[n].key].revision == ops[n].previousRevision
  {
    WrittenExactly(m, ops, n);
    assert Current(m, ops, n);
  }

  lemma WrittenNext<K, V>(m: map<K, Versioned<V>>, ops: seq<BatchOp<K, V>>, n: nat)
    requires n < |ops| && forall i :: 0 <= i < |ops| ==> ops[i].key in m
    ensures var before, op := Written(m, ops, n), ops[n];
            Written(m, ops, n + 1) == before[op.key := Versioned(op.record, before[op.key].revision + 1)]
  {}

  lemma WrittenNone<K, V>(m: map<K, Versioned<V>>, ops: seq<BatchOp<K, V>>)
    requires forall i :: 0 <= i < |ops| ==> ops[i].key in m
    ensures Written(m, ops, 0) == m
  {}

  lemma AllPresent<K, V>(m: map<K, Versioned<V>>, ops: seq<BatchOp<K, V>>)
    requires AllCurrent(m, ops)
    ensures forall i :: 0 <= i < |ops| ==> ops[i].key in m
  {}

  // ---- Every revision is consumed at most once ----

  /** The revisions a step takes records away from. */
  type Consumed<K(==)> = set<(K, nat)>

  ghost predicate Advances<K, V>(m: map<K, Versioned<V>>, m': map<K, Versioned<V>>, consumed: Consumed<K>) {
    && (forall p :: p in consumed ==> p.0 in m && m[p.0].revision == p.1)
    && (forall k :: k in m ==> k in m')
    && (forall k :: k in m && (k, m[k].revision) in consumed ==> m'[k].revision == m[k].revision + 1)
    && (forall k :: k in m && (k, m[k].revision) !in consumed ==> m'[k] == m[k])
  }

  lemma CreateAdvances<K, V>(m: map<K, Versioned<V>>, key: K, record: V)
    ensures Advances(m, CreateEntry(m, key, record).0, {})
  {}

  lemma CasAdvances<K, V>(m: map<K, Versioned<V>>, key: K, previousRevision: nat, record: V)
    ensures var (m', r) := CasEntry(m, key, previousRevision, record);
            Advances(m, m', if r.Ok? then {(key, previousRevision)} else {})
  {}

  ghost function ConsumedBy<K, V>(ops: seq<BatchOp<K, V>>): Consumed<K> {
    set i | 0 <= i < |ops| :: (ops[i].key, ops[i].previousRevision)
  }

  /** A committed batch moves every record it names by exactly one revision. */
  lemma BatchAdvances<K, V>(m: map<K, Versioned<V>>, ops: seq<BatchOp<K, V>>)
    requires AllCurrent(m, ops)
    ensures Advances(m, Written(m, ops, |ops|), ConsumedBy(ops))
  {
    var m' := Written(m, ops, |ops|);
    WrittenExactly(m, ops, |ops|);
    forall p | p in ConsumedBy(ops) ensures p.0 in m && m[p.0].revision == p.1 {
      var i :| 0 <= i < |ops| && p == (ops[i].key, ops[i].previousRevision);
      assert Current(m, ops, i);
    }
    forall k | k in m
      ensures (k, m[k].revision) in ConsumedBy(ops) ==> m'[k].revision == m[k].revision + 1
      ensures (k, m[k].revision) !in ConsumedBy(ops) ==> m'[k] == m[k]
    {
      NamedIffConsumed(m, ops, k);
    }
  }

  lemma NamedIffConsumed<K, V>(m: map<K, Versioned<V>>, ops: seq<BatchOp<K, V>>, k: K)
    requires AllCurrent(m, ops) && k in m
    ensures (k, m[k].revision) in ConsumedBy(ops) <==> exists i :: 0 <= i < |ops| && ops[i].key == k
  {
    if i :| 0 <= i < |ops| && ops[i].key == k {
      assert Current(m, ops, i);
    }
  }

  ghost predicate Run<K, V>(maps: seq<map<K, Versioned<V>>>, consumed: seq<Consumed<K>>) {
    && |maps| == |consumed| + 1
    && forall i :: 0 <= i < |consumed| ==> Advances(maps[i], maps[i + 1], consumed[i])
  }

  lemma {:induction false} RevisionsRise<K, V>(maps: seq<map<K, Versioned<V>>>, consumed: seq<Consumed<K>>, k: K,
                                               i: nat, j: nat)
    requires Run(maps, consumed) && i <= j < |maps| && k in maps[i]
    ensures k in maps[j] && maps[i][k].revision <= maps[j][k].revision
    decreases j
  {
    if i < j {
      RevisionsRise(maps, consumed, k, i, j - 1);
      assert Advances(maps[j - 1], maps[j], consumed[j - 1]);
    }
  }

  /** Over any run, no two updates are committed against the same revision of the same record. */
  lemma ConsumedOnce<K, V>(maps: seq<map<K, Versioned<V>>>, consumed: seq<Consumed<K>>, i: nat, j: nat)
    requires Run(maps, consumed) && i < j < |consumed|
    ensures consumed[i] !! consumed[j]
  {
    forall p | p in consumed[i] ensures p !in consumed[j] {
      assert Advances(maps[i], maps[i + 1], consumed[i]);
      assert p == (p.0, maps[i][p.0].revision);
      RevisionsRise(maps, consumed, p.0, i + 1, j);
      assert Advances(maps[j], maps[j + 1], consumed[j]);
    }
  }
}
