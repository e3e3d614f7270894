/** The bounded timeline cache and its lazily updated eviction heap
    (src/runtime/cache_eviction.rs).  Each public method is one atomic step.

    The heap is a set of candidates: every push is proved to add a candidate that is not
    there, so the set holds exactly what the heap holds. */
module TimelineCache {
  import opened Common

  const ACCESS_TICK_SAMPLE: nat := 16
  const EVICTION_CANDIDATE_BATCH_LIMIT: nat := 128

  /** A cached timeline; `handle` identifies its `Arc`. */
  datatype Entry = Entry(handle: nat, lastAccessTick: nat, accessSamples: nat)

  datatype Candidate = Candidate(tick: nat, generation: nat, key: string)

  /** What the map, the generation table and the heap hold together. */
  datatype View = View(
    entries: map<string, Entry>,
    generations: map<string, nat>,
    candidates: set<Candidate>,
    accessCounter: nat,
    generationCounter: nat)

  /** The candidate belongs to the key's current generation. */
  predicate IsCurrent(generations: map<string, nat>, c: Candidate) {
    c.key in generations && generations[c.key] == c.generation
  }

  /** Heap order; generations are unique in the heap, so the key never decides. */
  predicate Earlier(c: Candidate, d: Candidate) {
    c.tick < d.tick || (c.tick == d.tick && c.generation < d.generation)
  }

  ghost predicate HasCandidate(v: View, key: string) {
    exists c :: c in v.candidates && c.key == key && IsCurrent(v.generations, c)
  }

  /** Live keys carry distinct generations below the counter. */
  ghost predicate GenerationsOk(v: View) {
    && v.generations.Keys == v.entries.Keys
    && (forall k, l :: k in v.generations && l in v.generations && v.generations[k] == v.generations[l] ==> k == l)
    && (forall k :: k in v.generations ==> v.generations[k] < v.generationCounter)
  }

  /** A generation has at most one candidate, and a live generation's candidate names its key. */
  ghost predicate CandidatesOk(v: View) {
    && (forall c :: c in v.candidates ==> c.generation < v.generationCounter && c.tick < v.accessCounter)
    && (forall c, d :: c in v.candidates && d in v.candidates && c.generation == d.generation ==> c == d)
    && (forall c, k :: c in v.candidates && k in v.generations && v.generations[k] == c.generation ==> k == c.key)
  }

  ghost predicate EntriesOk(v: View) {
    forall k :: k in v.entries ==> HasCandidate(v, k) && v.entries[k].lastAccessTick < v.accessCounter
  }

  ghost predicate Consistent(v: View) {
    GenerationsOk(v) && CandidatesOk(v) && EntriesOk(v)
  }

  /** A candidate is written back with the entry's present tick. */
  function Refreshed(entries: map<string, Entry>, c: Candidate): Candidate
    requires c.key in entries
  {
    c.(tick := entries[c.key].lastAccessTick)
  }

  /** The candidates a pass defers after popping `popped`: the current ones, refreshed. */
  ghost function Rekeyed(v: View, popped: set<Candidate>): set<Candidate>
    requires v.generations.Keys == v.entries.Keys
  {
    set c | c in popped && IsCurrent(v.generations, c) :: Refreshed(v.entries, c)
  }

  /** The pass may evict through this candidate. */
  predicate Evictable(entries: map<string, Entry>, generations: map<string, nat>, held: set<nat>, c: Candidate) {
    IsCurrent(generations, c) && c.key in entries
    && entries[c.key].lastAccessTick == c.tick && entries[c.key].handle !in held
  }

  /** The entry is idle and its heap candidate carries its present tick. */
  ghost predicate Eligible(v: View, held: set<nat>, key: string) {
    key in v.entries && v.entries[key].handle !in held
    && exists c :: c in v.candidates && c.key == key && IsCurrent(v.generations, c)
                   && c.tick == v.entries[key].lastAccessTick
  }

  /** Every heap candidate of a live key carries its present tick. */
  ghost predicate UpToDate(v: View) {
    forall c :: c in v.candidates && c.key in v.entries && IsCurrent(v.generations, c) ==>
      c.tick == v.entries[c.key].lastAccessTick
  }

  // ------------------------------------------------- one candidate per key

  /** Dropping candidates of no current generation, and rewriting ticks, keeps consistency. */
  lemma RekeyKeepsConsistent(v: View, popped: set<Candidate>)
    requires Consistent(v) && popped <= v.candidates
    ensures Consistent(v.(candidates := v.candidates - popped + Rekeyed(v, popped)))
    ensures Rekeyed(v, popped) !! v.candidates - popped
  {
    var v' := v.(candidates := v.candidates - popped + Rekeyed(v, popped));
    forall k | k in v'.entries ensures HasCandidate(v', k) {
      assert HasCandidate(v, k);
      var c :| c in v.candidates && c.key == k && IsCurrent(v.generations, c);
      if c in popped {
        assert Refreshed(v.entries, c) in v'.candidates;
      } else {
        assert c in v'.candidates;
      }
    }
  }

  lemma {:induction false} OnePerKey(keys: set<string>, cs: set<Candidate>)
    requires forall k :: k in keys ==> exists c :: c in cs && c.key == k
    requires forall c :: c in cs ==> c.key in keys
    requires forall c, d :: c in cs && d in cs && c.key == d.key ==> c == d
    ensures |cs| == |keys|
  {
    if keys == {} {
      assert cs == {};
    } else {
      var k :| k in keys;
      var c :| c in cs && c.key == k;
      OnePerKey(keys - {k}, cs - {c});
    }
  }

  ghost function CurrentOf(v: View): set<Candidate> {
    set c | c in v.candidates && IsCurrent(v.generations, c)
  }

  /** Each live key has exactly one current-generation candidate. */
  lemma OneCurrentPerKey(v: View)
    requires Consistent(v)
    ensures |CurrentOf(v)| == |v.entries|
    ensures forall k :: k in v.entries ==> exists c :: c in CurrentOf(v) && c.key == k
    ensures forall c, d :: c in CurrentOf(v) && d in CurrentOf(v) && c.key == d.key ==> c == d
  {
    forall k | k in v.entries ensures exists c :: c in CurrentOf(v) && c.key == k {
      assert HasCandidate(v, k);
      var c :| c in v.candidates && c.key == k && IsCurrent(v.generations, c);
      assert c in CurrentOf(v);
    }
    OnePerKey(v.entries.Keys, CurrentOf(v));
    assert |v.entries.Keys| == |v.entries|;
  }

  /** Discarding stale candidates keeps consistency and leaves one candidate per entry. */
  lemma CompactKeepsConsistent(v: View)
    requires Consistent(v)
    ensures var v' := v.(candidates := CurrentOf(v));
            Consistent(v') && |v'.candidates| == |v.entries| && CurrentOf(v') == CurrentOf(v)
  {
    OneCurrentPerKey(v);
    var v' := v.(candidates := CurrentOf(v));
    forall k | k in v'.entries ensures HasCandidate(v', k) {
      var c :| c in CurrentOf(v) && c.key == k;
    }
  }

  /** A nonempty heap has an earliest candidate. */
  lemma {:induction false} EarliestExists(heap: set<Candidate>)
    requires heap != {}
    ensures exists c :: c in heap && forall d :: d in heap ==> !Earlier(d, c)
    decreases |heap|
  {
    var x :| x in heap;
    if heap - {x} != {} {
      EarliestExists(heap - {x});
      var c :| c in heap - {x} && forall d :: d in heap - {x} ==> !Earlier(d, c);
      if Earlier(x, c) {
        forall d | d in heap ensures !Earlier(d, x) {
          assert d == x || d in heap - {x};
        }
      } else {
        forall d | d in heap ensures !Earlier(d, c) {
          assert d == x || d in heap - {x};
        }
      }
    } else {
      assert heap == {x};
    }
  }

  /** Removing a key and its generation leaves the rest consistent, its candidate stale. */
  lemma ForgetKeepsConsistent(v: View, key: string)
    requires Consistent(v)
    ensures Consistent(v.(entries := v.entries - {key}, generations := v.generations - {key}))
  {
    var v' := v.(entries := v.entries - {key}, generations := v.generations - {key});
    forall k | k in v'.entries ensures HasCandidate(v', k) {
      assert HasCandidate(v, k);
      var c :| c in v.candidates && c.key == k && IsCurrent(v.generations, c);
      assert c in v'.candidates && IsCurrent(v'.generations, c);
    }
  }

  /** The state with one more entry, its fresh generation and its candidate. */
  function Inserted(v: View, key: string, handle: nat): View {
    View(v.entries[key := Entry(handle, v.accessCounter, 1)],
         v.generations[key := v.generationCounter],
         v.candidates + {Candidate(v.accessCounter, v.generationCounter, key)},
         v.accessCounter + 1, v.generationCounter + 1)
  }

  lemma InsertKeepsConsistent(v: View, key: string, handle: nat)
    requires Consistent(v) && key !in v.entries
    ensures Consistent(Inserted(v, key, handle))
    ensures Candidate(v.accessCounter, v.generationCounter, key) !in v.candidates
  {
    hide EntriesOk, HasCandidate;
    var v' := Inserted(v, key, handle);
    assert GenerationsOk(v') by {
      hide CandidatesOk;
      assert v'.generations.Keys == v.generations.Keys + {key};
      assert v'.entries.Keys == v.entries.Keys + {key};
    }
    InsertKeepsEntries(v, key, handle);
  }

  lemma InsertGrowsByOne(v: View, key: string, handle: nat)
    requires Consistent(v) && key !in v.entries
    ensures |Inserted(v, key, handle).entries| == |v.entries| + 1
    ensures |Inserted(v, key, handle).candidates| == |v.candidates| + 1
  {
    hide Consistent;
    InsertKeepsConsistent(v, key, handle);
    assert Inserted(v, key, handle).entries.Keys == v.entries.Keys + {key};
  }

  lemma InsertKeepsEntries(v: View, key: string, handle: nat)
    requires EntriesOk(v) && v.generations.Keys == v.entries.Keys && key !in v.entries
    ensures EntriesOk(Inserted(v, key, handle))
  {
    var v' := Inserted(v, key, handle);
    forall k | k in v'.entries ensures HasCandidate(v', k) {
      if k == key {
        assert Candidate(v.accessCounter, v.generationCounter, key) in v'.candidates;
      } else {
        assert HasCandidate(v, k);
        var c :| c in v.candidates && c.key == k && IsCurrent(v.generations, c);
        assert c in v'.candidates && IsCurrent(v'.generations, c);
      }
    }
  }

  lemma TouchKeepsEntries(v: View, v': View, key: string, e: Entry)
    requires EntriesOk(v) && key in v.entries && e.lastAccessTick < v'.accessCounter
    requires v' == v.(entries := v.entries[key := e], accessCounter := v'.accessCounter)
    requires v.accessCounter <= v'.accessCounter
    ensures EntriesOk(v')
  {
    hide IsCurrent;
    forall k | k in v'.entries ensures HasCandidate(v', k) {
      assert HasCandidate(v, k);
    }
  }

  /** Touching or replacing an entry leaves its candidate in place. */
  lemma TouchKeepsConsistent(v: View, key: string, e: Entry, accessCounter: nat)
    requires Consistent(v) && key in v.entries && accessCounter >= v.accessCounter && e.lastAccessTick < accessCounter
    ensures Consistent(v.(entries := v.entries[key := e], accessCounter := accessCounter))
  {
    hide EntriesOk;
    var v' := v.(entries := v.entries[key := e], accessCounter := accessCounter);
    assert v'.entries.Keys == v.entries.Keys;
    TouchKeepsEntries(v, v', key, e);
  }

  // ------------------------------------------------------ an eviction pass

  lemma RekeyedSkip(v: View, popped: set<Candidate>, c: Candidate)
    requires Consistent(v) && !IsCurrent(v.generations, c)
    ensures Rekeyed(v, popped + {c}) == Rekeyed(v, popped)
  {}

  /** A deferred candidate is new to the deferred ones. */
  lemma RekeyedAdd(v: View, popped: set<Candidate>, c: Candidate)
    requires Consistent(v) && popped <= v.candidates && c in v.candidates - popped && IsCurrent(v.generations, c)
    ensures Rekeyed(v, popped + {c}) == Rekeyed(v, popped) + {Refreshed(v.entries, c)}
    ensures Refreshed(v.entries, c) !in Rekeyed(v, popped)
  {}

  lemma {:induction false} RekeyedNoMore(v: View, popped: set<Candidate>)
    requires Consistent(v) && popped <= v.candidates
    ensures |Rekeyed(v, popped)| <= |popped|
    decreases |popped|
  {
    if popped == {} {
      assert Rekeyed(v, popped) == {};
    } else {
      var c :| c in popped;
      RekeyedNoMore(v, popped - {c});
      assert popped == popped - {c} + {c};
      if IsCurrent(v.generations, c) {
        RekeyedAdd(v, popped - {c}, c);
      } else {
        RekeyedSkip(v, popped - {c}, c);
      }
    }
  }

  /** One live entry comes no later than another: by tick, then by generation. */
  ghost predicate NoLater(v: View, k: string, l: string) {
    && k in v.entries && l in v.entries && k in v.generations && l in v.generations
    && (v.entries[k].lastAccessTick < v.entries[l].lastAccessTick
        || (v.entries[k].lastAccessTick == v.entries[l].lastAccessTick && v.generations[k] <= v.generations[l]))
  }

  /** The first evictable candidate in heap order is the one with the least tick. */
  lemma EvictionIsLeast(v: View, held: set<nat>, popped: set<Candidate>, c: Candidate)
    requires Consistent(v) && popped <= v.candidates && c in v.candidates - popped
    requires Evictable(v.entries, v.generations, held, c)
    requires forall d :: d in v.candidates - popped ==> !Earlier(d, c)
    requires forall d :: d in popped ==> !Evictable(v.entries, v.generations, held, d)
    ensures Eligible(v, held, c.key)
    ensures forall k :: Eligible(v, held, k) ==> NoLater(v, c.key, k)
  {
    forall k | Eligible(v, held, k) ensures NoLater(v, c.key, k) {
      var d :| d in v.candidates && d.key == k && IsCurrent(v.generations, d) && d.tick == v.entries[k].lastAccessTick;
      assert Evictable(v.entries, v.generations, held, d);
      assert d in v.candidates - popped;
    }
  }

  /** Dropping a candidate of no current generation keeps consistency. */
  lemma DropStaleKeepsConsistent(v: View, c: Candidate)
    requires Consistent(v) && !IsCurrent(v.generations, c)
    ensures Consistent(v.(candidates := v.candidates - {c}))
  {
    var v' := v.(candidates := v.candidates - {c});
    forall k | k in v'.entries ensures HasCandidate(v', k) {
      assert HasCandidate(v, k);
      var d :| d in v.candidates && d.key == k && IsCurrent(v.generations, d);
      assert d in v'.candidates;
    }
  }

  /** The state after evicting through `c`, the popped candidates written back. */
  ghost function Evicted(v: View, popped: set<Candidate>, c: Candidate): View
    requires v.generations.Keys == v.entries.Keys
  {
    v.(entries := v.entries - {c.key}, generations := v.generations - {c.key},
       candidates := v.candidates - popped - {c} + Rekeyed(v, popped))
  }

  /** Removing an entry together with its candidate. */
  lemma RemoveKeepsConsistent(v: View, c: Candidate)
    requires Consistent(v) && IsCurrent(v.generations, c)
    ensures Consistent(v.(entries := v.entries - {c.key}, generations := v.generations - {c.key},
                          candidates := v.candidates - {c}))
  {
    hide Consistent;
    ForgetKeepsConsistent(v, c.key);
    DropStaleKeepsConsistent(v.(entries := v.entries - {c.key}, generations := v.generations - {c.key}), c);
  }

  lemma EvictedConsistent(v: View, popped: set<Candidate>, c: Candidate)
    requires Consistent(v) && popped <= v.candidates && c in v.candidates - popped && IsCurrent(v.generations, c)
    ensures Consistent(Evicted(v, popped, c))
  {
    assert v.generations.Keys == v.entries.Keys;
    hide Consistent, Rekeyed, IsCurrent;
    NotRekeyed(v, popped, c);
    RekeyKeepsConsistent(v, popped);
    var rekeyed := v.(candidates := v.candidates - popped + Rekeyed(v, popped));
    RemoveKeepsConsistent(rekeyed, c);
    assert rekeyed.candidates - {c} == Evicted(v, popped, c).candidates;
  }

  lemma NotRekeyed(v: View, popped: set<Candidate>, c: Candidate)
    requires Consistent(v) && popped <= v.candidates && c in v.candidates - popped
    ensures c !in Rekeyed(v, popped)
  {}

  lemma EvictedSmaller(v: View, popped: set<Candidate>, c: Candidate)
    requires Consistent(v) && popped <= v.candidates && c in v.candidates - popped
    ensures |Evicted(v, popped, c).candidates| < |v.candidates|
  {
    RekeyedNoMore(v, popped);
    hide Consistent, Rekeyed;
    var rest := v.candidates - popped - {c};
    assert v.candidates == rest + popped + {c};
    assert |rest| + |popped| + 1 == |v.candidates|;
  }

  lemma NoneEligible(v: View, held: set<nat>)
    requires forall c :: c in v.candidates ==> !Evictable(v.entries, v.generations, held, c)
    ensures forall k :: !Eligible(v, held, k)
  {}

  /** A pass that popped everything without a victim leaves exactly one up-to-date
      candidate per entry. */
  lemma AllRefreshed(v: View)
    requires Consistent(v)
    ensures var v' := v.(candidates := Rekeyed(v, v.candidates));
            Consistent(v') && UpToDate(v') && |v'.candidates| == |v.entries|
  {
    var v' := v.(candidates := Rekeyed(v, v.candidates));
    assert v.candidates - v.candidates + Rekeyed(v, v.candidates) == v'.candidates;
    assert CurrentOf(v') == v'.candidates;
    hide Consistent, Rekeyed;
    RekeyKeepsConsistent(v, v.candidates);
    OneCurrentPerKey(v');
  }

  /** One pass over the heap.  It evicts iff some idle entry's candidate is up to date, and
      then the one with the least tick, writing the candidates it passed over back; a pass
      without a victim has brought every candidate up to date and dropped every stale one. */
  method EvictionPass(entries: map<string, Entry>, generations: map<string, nat>, candidates: set<Candidate>,
                      ghost v: View, held: set<nat>)
    returns (victim: Option<string>, heap: set<Candidate>)
    requires Consistent(v) && v.entries == entries && v.generations == generations && v.candidates == candidates
    ensures victim.None? <==> forall k :: !Eligible(v, held, k)
    ensures victim.Some? ==>
      victim.value in entries && Eligible(v, held, victim.value)
      && (forall k :: Eligible(v, held, k) ==> NoLater(v, victim.value, k))
      && Consistent(v.(entries := entries - {victim.value}, generations := generations - {victim.value},
                       candidates := heap))
      && |heap| < |candidates|
    ensures victim.None? ==>
      var v' := v.(candidates := heap); Consistent(v') && UpToDate(v') && |heap| == |entries|
  {
    hide Consistent, Rekeyed, Eligible, Earlier, UpToDate;
    SameKeys(v);
    heap := candidates;
    var deferred: set<Candidate> := {};
    ghost var popped: set<Candidate> := {};
    NothingRekeyed(v);
    var attempts := Max(|heap|, EVICTION_CANDIDATE_BATCH_LIMIT);
    var initialLength := Min(|heap|, attempts);
    var i := 0;
    while i < initialLength
      invariant popped <= candidates && heap == candidates - popped
      invariant 0 <= i <= initialLength && |heap| == initialLength - i
      invariant deferred == Rekeyed(v, popped)
      invariant forall c, d :: c in popped && d in heap ==> !Earlier(d, c)
      invariant forall c :: c in popped ==> !Evictable(entries, generations, held, c)
    {
      EarliestExists(heap);
      var c :| c in heap && forall d :: d in heap ==> !Earlier(d, c);
      if !IsCurrent(generations, c) {
        RekeyedSkip(v, popped, c);
      } else if entries[c.key].lastAccessTick != c.tick || entries[c.key].handle in held {
        RekeyedAdd(v, popped, c);
        deferred := deferred + {Refreshed(entries, c)};
      } else {
        EvictionIsLeast(v, held, popped, c);
        EvictedConsistent(v, popped, c);
        EvictedSmaller(v, popped, c);
        return Some(c.key), heap - {c} + deferred;
      }
      popped := popped + {c};
      heap := heap - {c};
      i := i + 1;
    }
    assert popped == candidates;
    NoneEligible(v, held);
    AllRefreshed(v);
    victim, heap := None, deferred;
  }

  lemma SameKeys(v: View)
    requires Consistent(v)
    ensures v.generations.Keys == v.entries.Keys
  {}

  lemma NothingRekeyed(v: View)
    requires v.generations.Keys == v.entries.Keys
    ensures Rekeyed(v, {}) == {}
  {}

  /** Compaction does not change what is eligible. */
  lemma SameEligible(v: View, v': View, held: set<nat>)
    requires v'.entries == v.entries && v'.generations == v.generations && CurrentOf(v') == CurrentOf(v)
    ensures forall k :: Eligible(v, held, k) <==> Eligible(v', held, k)
  {
    forall k ensures Eligible(v, held, k) ==> Eligible(v', held, k) {
      CurrentEligible(v, v', held, k);
    }
    forall k ensures Eligible(v', held, k) ==> Eligible(v, held, k) {
      CurrentEligible(v', v, held, k);
    }
  }

  lemma CurrentEligible(v: View, v': View, held: set<nat>, k: string)
    requires v'.entries == v.entries && v'.generations == v.generations && CurrentOf(v') == CurrentOf(v)
    ensures Eligible(v, held, k) ==> Eligible(v', held, k)
  {
    if Eligible(v, held, k) {
      var c :| c in v.candidates && c.key == k && IsCurrent(v.generations, c) && c.tick == v.entries[k].lastAccessTick;
      assert c in CurrentOf(v);
      assert c in CurrentOf(v');
    }
  }

  lemma TickBelowCounter(v: View, key: string)
    requires Consistent(v) && key in v.entries
    ensures v.entries[key].lastAccessTick < v.accessCounter
  {}

  // ------------------------------------------------------------ the object

  class TimelineCacheStore {
    const maxEntries: nat
    var timelines: map<string, Entry>
    var accessCounter: nat
    var evictionGenerationCounter: nat
    var entryCount: nat
    var evictionGenerations: map<string, nat>
    var evictionCandidates: set<Candidate>

    /** What an access leaves of an entry: one in sixteen records the present tick. */
    function Touched(e: Entry): Entry
      reads this
    {
      Entry(e.handle, if e.accessSamples % 16 == 0 then accessCounter else e.lastAccessTick, e.accessSamples + 1)
    }

    ghost function Contents(): View
      reads this
    {
      View(timelines, evictionGenerations, evictionCandidates, accessCounter, evictionGenerationCounter)
    }

    /** Map, generations and heap agree; the count is exact and within the limit; the heap
        is within a constant factor of the live entries. */
    ghost predicate Valid()
      reads this
    {
      Consistent(Contents())
      && entryCount == |timelines| <= maxEntries
      && |evictionCandidates| <= 4 * entryCount + 16
    }

    constructor (maxEntries: nat)
      ensures Valid() && timelines == map[] && this.maxEntries == maxEntries
    {
      this.maxEntries := maxEntries;
      timelines := map[];
      accessCounter := 1;
      evictionGenerationCounter := 1;
      entryCount := 0;
      evictionGenerations := map[];
      evictionCandidates := {};
    }

    method NextAccessTick() returns (tick: nat)
      modifies this`accessCounter
      ensures tick == old(accessCounter) && accessCounter == tick + 1
    {
      tick := accessCounter;
      accessCounter := accessCounter + 1;
    }

    /** Sampled touch: one access in sixteen records a new tick, and the heap never changes. */
    method TouchEntry(key: string)
      requires Valid() && key in timelines
      modifies this`timelines, this`accessCounter
      ensures Valid()
      ensures var e := old(timelines[key]);
              && timelines == old(timelines)[key := old(Touched(e))]
              && accessCounter == old(accessCounter) + (if e.accessSamples % 16 == 0 then 1 else 0)
    {
      hide Consistent;
      ghost var before := Contents();
      TickBelowCounter(before, key);
      var e := timelines[key].(accessSamples := timelines[key].accessSamples + 1);
      if timelines[key].accessSamples % ACCESS_TICK_SAMPLE == 0 {
        var tick := NextAccessTick();
        e := e.(lastAccessTick := tick);
      }
      TouchKeepsConsistent(before, key, e, accessCounter);
      timelines := timelines[key := e];
      assert timelines.Keys == before.entries.Keys;
      assert |timelines| == |timelines.Keys| == |before.entries|;
    }

    method TimelineHandle(key: string) returns (r: Option<nat>)
      requires Valid()
      modifies this`timelines, this`accessCounter
      ensures Valid()
      ensures r == if key in old(timelines) then Some(old(timelines[key]).handle) else None
      ensures timelines.Keys == old(timelines.Keys)
      ensures forall k :: k in timelines ==> timelines[k].handle == old(timelines)[k].handle
      ensures key in old(timelines) ==> timelines == old(timelines)[key := old(Touched(timelines[key]))]
      ensures key !in old(timelines) ==> timelines == old(timelines) && accessCounter == old(accessCounter)
    {
      if key in timelines {
        r := Some(timelines[key].handle);
        TouchEntry(key);
      } else {
        r := None;
      }
    }

    /** Stale candidates are discarded once they outnumber the live entries enough. */
    method MaybeCompact()
      requires Consistent(Contents())
      modifies this`evictionCandidates
      ensures Consistent(Contents())
      ensures evictionCandidates == old(evictionCandidates)
              || (evictionCandidates == CurrentOf(old(Contents())) && |evictionCandidates| == |timelines|)
      ensures CurrentOf(Contents()) == CurrentOf(old(Contents()))
      ensures |evictionCandidates| <= Max(4 * entryCount + 8, 16) || |evictionCandidates| == |timelines|
      ensures entryCount == 0 && timelines == map[] ==> evictionCandidates == {}
      ensures entryCount > 0 && |old(evictionCandidates)| <= Max(4 * entryCount + 8, 16) ==>
        evictionCandidates == old(evictionCandidates)
    {
      hide Consistent;
      var heapLength := |evictionCandidates|;
      if entryCount == 0 {
        if heapLength == 0 {
          return;
        }
      } else if heapLength <= Max(4 * entryCount + 8, 16) {
        return;
      }
      CompactKeepsConsistent(Contents());
      evictionCandidates := set c | c in evictionCandidates && IsCurrent(evictionGenerations, c);
    }

    /** Evicts one idle entry when a pass over the (possibly compacted) heap finds one. */
    method EvictOneIdleEntry(held: set<nat>) returns (victim: Option<string>)
      requires Valid()
      modifies this`timelines, this`evictionGenerations, this`evictionCandidates, this`entryCount
      ensures Valid()
      ensures victim.None? <==> forall k :: !Eligible(old(Contents()), held, k)
      ensures victim.Some? ==>
        Eligible(old(Contents()), held, victim.value)
        && (forall k :: Eligible(old(Contents()), held, k) ==>
              old(timelines)[victim.value].lastAccessTick <= old(timelines)[k].lastAccessTick)
        && timelines == old(timelines) - {victim.value} && entryCount == old(entryCount) - 1
        && |evictionCandidates| < 4 * entryCount + 16
      ensures victim.None? ==>
        timelines == old(timelines) && evictionGenerations == old(evictionGenerations)
        && UpToDate(Contents()) && |evictionCandidates| == |timelines|
    {
      hide Consistent, Eligible, UpToDate, CurrentOf;
      ghost var before := Contents();
      MaybeCompact();
      SameEligible(before, Contents(), held);
      var heap: set<Candidate>;
      victim, heap := EvictionPass(timelines, evictionGenerations, evictionCandidates, Contents(), held);
      if victim.Some? {
        assert timelines.Keys == (timelines - {victim.value}).Keys + {victim.value};
        timelines := timelines - {victim.value};
        evictionGenerations := evictionGenerations - {victim.value};
        entryCount := entryCount - 1;
      }
      evictionCandidates := heap;
    }

    /** Makes room for one entry, or reports saturation with nothing removed. */
    method MakeRoom(held: set<nat>) returns (ok: bool, victim: Option<string>)
      requires Valid()
      modifies this`timelines, this`evictionGenerations, this`evictionCandidates, this`entryCount
      ensures Valid()
      ensures ok <==> old(entryCount) < maxEntries || exists k :: Eligible(old(Contents()), held, k)
      ensures ok ==> entryCount < maxEntries
      ensures victim.Some? <==> ok && old(entryCount) >= maxEntries
      ensures timelines == if victim.Some? then old(timelines) - {victim.value} else old(timelines)
      ensures victim.Some? ==>
        Eligible(old(Contents()), held, victim.value)
        && forall k :: Eligible(old(Contents()), held, k) ==>
             old(timelines)[victim.value].lastAccessTick <= old(timelines)[k].lastAccessTick
      ensures !ok ==> UpToDate(Contents()) && |evictionCandidates| == |timelines|
    {
      hide Consistent, Eligible, UpToDate;
      ok, victim := true, None;
      if entryCount >= maxEntries {
        victim := EvictOneIdleEntry(held);
        ok := victim.Some?;
      }
    }

    /** A vacant slot is filled: entry, count, generation and candidate together. */
    method InsertVacant(key: string, handle: nat)
      requires Valid() && key !in timelines && entryCount < maxEntries
      modifies this
      ensures Valid()
      ensures Contents() == Inserted(old(Contents()), key, handle)
    {
      hide Consistent;
      ghost var before := Contents();
      InsertKeepsConsistent(before, key, handle);
      InsertGrowsByOne(before, key, handle);
      var tick := NextAccessTick();
      timelines := timelines[key := Entry(handle, tick, 1)];
      entryCount := entryCount + 1;
      var generation := evictionGenerationCounter;
      evictionGenerationCounter := evictionGenerationCounter + 1;
      evictionGenerations := evictionGenerations[key := generation];
      evictionCandidates := evictionCandidates + {Candidate(tick, generation, key)};
      assert Contents() == Inserted(before, key, handle);
    }

    /** Inserts or replaces a timeline.  It fails iff the key is new, the cache is full and no
        entry is eligible; a new key in a full cache costs the least-ticked eligible entry. */
    method InsertTimeline(key: string, handle: nat, held: set<nat>) returns (r: Result<()>)
      requires Valid()
      modifies this
      ensures Valid()
      ensures r.Err? <==>
        key !in old(timelines) && old(entryCount) >= maxEntries && forall k :: !Eligible(old(Contents()), held, k)
      ensures r.Err? ==> r.error == CacheSaturated(maxEntries) && timelines == old(timelines) && UpToDate(Contents())
      ensures r.Ok? ==> key in timelines && timelines[key].handle == handle
      ensures key in old(timelines) ==> timelines == old(timelines)[key := Entry(handle, old(accessCounter), 1)]
      ensures r.Ok? ==> timelines[key] == Entry(handle, old(accessCounter), 1)
      ensures r.Ok? ==> accessCounter == old(accessCounter) + 1
      ensures r.Ok? && key !in old(timelines) ==>
        if old(entryCount) < maxEntries then timelines - {key} == old(timelines)
        else exists v :: Eligible(old(Contents()), held, v)
                         && (forall k :: Eligible(old(Contents()), held, k) ==>
                               old(timelines)[v].lastAccessTick <= old(timelines)[k].lastAccessTick)
                         && timelines - {key} == old(timelines) - {v}
    {
      hide Consistent, Eligible, UpToDate;
      if key in timelines {
        ghost var before := Contents();
        var tick := NextAccessTick();
        TouchKeepsConsistent(before, key, Entry(handle, tick, 1), accessCounter);
        timelines := timelines[key := Entry(handle, tick, 1)];
        assert timelines.Keys == before.entries.Keys;
        assert |timelines| == |timelines.Keys| == |before.entries|;
        return Ok(());
      }
      var ok, victim := MakeRoom(held);
      if !ok {
        return Err(CacheSaturated(maxEntries));
      }
      InsertVacant(key, handle);
      r := Ok(());
    }

    /** Returns the cached handle, or builds one and inserts it under the same rules. */
    method TimelineHandleOrInsertWith(key: string, built: nat, held: set<nat>) returns (r: Result<nat>)
      requires Valid()
      modifies this
      ensures Valid()
      ensures r.Err? <==>
        key !in old(timelines) && old(entryCount) >= maxEntries && forall k :: !Eligible(old(Contents()), held, k)
      ensures r.Err? ==> r.error == CacheSaturated(maxEntries) && timelines == old(timelines)
      ensures r.Ok? ==> r.value == (if key in old(timelines) then old(timelines[key]).handle else built)
      ensures r.Ok? ==> key in timelines && timelines[key].handle == r.value
      ensures key in old(timelines) ==> timelines == old(timelines)[key := old(Touched(timelines[key]))]
      ensures r.Ok? && key !in old(timelines) ==> timelines[key] == Entry(built, old(accessCounter), 1)
      ensures r.Ok? && key !in old(timelines) ==>
        if old(entryCount) < maxEntries then timelines - {key} == old(timelines)
        else exists v :: Eligible(old(Contents()), held, v)
                         && (forall k :: Eligible(old(Contents()), held, k) ==>
                               old(timelines)[v].lastAccessTick <= old(timelines)[k].lastAccessTick)
                         && timelines - {key} == old(timelines) - {v}
    {
      hide Consistent, Eligible, UpToDate;
      if key in timelines {
        r := Ok(timelines[key].handle);
        TouchEntry(key);
        return;
      }
      var ok, _ := MakeRoom(held);
      if !ok {
        return Err(CacheSaturated(maxEntries));
      }
      InsertVacant(key, built);
      r := Ok(built);
    }

    /** Removal leaves the candidate behind as stale; compaction bounds how many pile up. */
    method RemoveTimeline(key: string)
      requires Valid()
      modifies this
      ensures Valid() && timelines == old(timelines) - {key}
      ensures accessCounter == old(accessCounter) && evictionGenerationCounter == old(evictionGenerationCounter)
    {
      hide Consistent;
      if key in timelines {
        ForgetKeepsConsistent(Contents(), key);
        assert timelines.Keys == (timelines - {key}).Keys + {key};
        timelines := timelines - {key};
        evictionGenerations := evictionGenerations - {key};
        MaybeCompact();
        entryCount := entryCount - 1;
      } else {
        assert timelines - {key} == timelines;
      }
    }

    method Clear()
      requires Valid()
      modifies this
      ensures Valid() && timelines == map[] && evictionCandidates == {} && entryCount == 0
      ensures accessCounter == old(accessCounter) && evictionGenerationCounter == old(evictionGenerationCounter)
    {
      timelines := map[];
      evictionGenerations := map[];
      evictionCandidates := {};
      entryCount := 0;
    }
  }

  // ------------------------------------------------------------- every run

  datatype Operation =
    | Get(key: string)
    | GetOrInsert(key: string, built: nat, held: set<nat>)
    | Put(key: string, handle: nat, held: set<nat>)
    | Remove(key: string)
    | Clear

  /** Whatever operations run in whatever order, the cache stays within its limit, the count
      stays exact, and the heap stays within four candidates per live entry plus sixteen. */
  method RunAll(store: TimelineCacheStore, operations: seq<Operation>)
    requires store.Valid()
    modifies store
    ensures store.Valid()
    ensures store.entryCount == |store.timelines| <= store.maxEntries
    ensures |store.evictionCandidates| <= 4 * |store.timelines| + 16
  {
    hide Consistent;
    for i := 0 to |operations|
      invariant store.Valid()
    {
      match operations[i]
      case Get(key) =>
        var _ := store.TimelineHandle(key);
      case GetOrInsert(key, built, held) =>
        var _ := store.TimelineHandleOrInsertWith(key, built, held);
      case Put(key, handle, held) =>
        var _ := store.InsertTimeline(key, handle, held);
      case Remove(key) =>
        store.RemoveTimeline(key);
      case Clear =>
        store.Clear();
    }
  }

  /** An up-to-date heap makes every idle entry eligible. */
  lemma IdleIsEligible(v: View, held: set<nat>, key: string)
    requires Consistent(v) && UpToDate(v) && key in v.entries && v.entries[key].handle !in held
    ensures Eligible(v, held, key)
  {
    assert HasCandidate(v, key);
  }

  /** A failed insertion re-keys the heap, so an untouched retry succeeds as soon as some
      entry has become idle. */
  method RetryAfterSaturation(store: TimelineCacheStore, key: string, handle: nat, held: set<nat>, heldLater: set<nat>)
    returns (first: Result<()>, second: Result<()>)
    requires store.Valid() && key !in store.timelines
    modifies store
    ensures store.Valid()
    ensures first.Err? ==>
      (second.Ok? <==> exists k :: k in old(store.timelines) && old(store.timelines)[k].handle !in heldLater)
  {
    hide Consistent, UpToDate;
    first := store.InsertTimeline(key, handle, held);
    second := first;
    if first.Err? {
      ghost var v := store.Contents();
      forall k | k in v.entries && v.entries[k].handle !in heldLater ensures Eligible(v, heldLater, k) {
        IdleIsEligible(v, heldLater, k);
      }
      second := store.InsertTimeline(key, handle, heldLater);
    }
  }
}
