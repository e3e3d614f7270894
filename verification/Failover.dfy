/**
 * The automatic failover scan: a bounded pass over remote owners, one page of
 * timelines at a time, with a cursor remembered per owner between passes.
 */
module Failover {
  import opened Common
  import opened ByteStrings
  import opened Pages

  /** How one attempted transfer ended; `Deferred` is a lease that has not expired yet. */
  datatype Outcome = Moved | Failed | Deferred

  /**
   * One page of the scan: the owner's Active timelines as listed at that moment,
   * the cursor and limit the page was cut with, and how many keys were attempted.
   */
  datatype Fetch = Fetch(
    owner: Bytes, cursor: Option<Bytes>, listing: seq<Bytes>, fetchLimit: nat, processed: nat, deferred: bool)

  /** `Retained`: owners outside the list lost their cursors. */
  datatype Event = Fetched(fetch: Fetch) | Retained(owners: seq<Bytes>)

  function PageOf(e: Fetch): KeyPage {
    Take(After(e.listing, e.cursor), e.fetchLimit)
  }

  ghost predicate Sound(e: Fetch) {
    && Ascending(e.listing) && e.fetchLimit >= 1
    && e.processed <= |PageOf(e).keys|
    && (e.processed == 0 <==> PageOf(e).keys == [])
    && (e.deferred ==> e.processed > 0)
  }

  function Attempts(e: Fetch): seq<Bytes>
    requires e.processed <= |PageOf(e).keys|
  {
    PageOf(e).keys[..e.processed]
  }

  /** The cursor stored after the page: none once the listing was read to its end without a deferral. */
  function NextCursor(e: Fetch): Option<Bytes>
    requires e.processed <= |PageOf(e).keys|
  {
    if e.processed == 0 then None
    else if !e.deferred && PageOf(e).next.None? && e.processed == |PageOf(e).keys| then None
    else Some(PageOf(e).keys[e.processed - 1])
  }

  // ---- One sweep over an owner's timelines ----

  /** Pages of one owner from a fresh cursor on, each continuing from the cursor the previous one stored. */
  ghost predicate Sweep(t: seq<Fetch>) {
    && (forall k :: 0 <= k < |t| ==> Sound(t[k]))
    && (|t| > 0 ==> t[0].cursor.None?)
    && (forall k :: 0 < k < |t| ==> t[k].cursor.Some? && t[k].cursor == NextCursor(t[k - 1]))
  }

  ghost function AllAttempts(t: seq<Fetch>): seq<Bytes>
    requires forall k :: 0 <= k < |t| ==> Sound(t[k])
  {
    if t == [] then [] else assert Sound(t[|t| - 1]); AllAttempts(t[..|t| - 1]) + Attempts(t[|t| - 1])
  }

  /** What a page attempts lies beyond the cursor, in order, and ends at the cursor it stores. */
  lemma PageAttempts(e: Fetch)
    requires Sound(e)
    ensures Ascending(Attempts(e))
    ensures forall i :: 0 <= i < |Attempts(e)| ==> e.cursor.None? || Less(e.cursor.value, Attempts(e)[i])
    ensures NextCursor(e).Some? ==> |Attempts(e)| > 0 && NextCursor(e).value == Attempts(e)[|Attempts(e)| - 1]
    ensures NextCursor(e).None? ==> Attempts(e) == After(e.listing, e.cursor)
  {
    hide After;
    var rest := After(e.listing, e.cursor);
    var n := Skipped(e.listing, e.cursor);
    BeyondCursor(e.listing, e.cursor);
    assert forall i :: 0 <= i < |Attempts(e)| ==> Attempts(e)[i] == rest[i] == e.listing[n + i];
    if e.processed == 0 {
      assert rest == [];
    }
  }

  /** No later than the cursor. */
  ghost predicate UpTo(x: Bytes, cursor: Option<Bytes>) {
    cursor.Some? && !Less(cursor.value, x)
  }

  /** Within a sweep, attempted keys strictly increase and never pass the stored cursor. */
  lemma {:induction false} SweepAscends(t: seq<Fetch>)
    requires Sweep(t)
    ensures Ascending(AllAttempts(t))
    ensures |t| > 0 && NextCursor(t[|t| - 1]).Some? ==>
              forall i :: 0 <= i < |AllAttempts(t)| ==> UpTo(AllAttempts(t)[i], NextCursor(t[|t| - 1]))
  {
    hide After, Attempts, NextCursor, UpTo, PageOf;
    if |t| > 0 {
      var last := t[|t| - 1];
      var before := t[..|t| - 1];
      SweepAscends(before);
      PageAttempts(last);
      var head, tail := AllAttempts(before), Attempts(last);
      if |before| == 0 {
        assert AllAttempts(t) == tail;
      } else {
        assert before[|before| - 1] == t[|t| - 2];
        JoinAscending(head, tail, last.cursor);
      }
      if NextCursor(last).Some? {
        LastIsBound(head, tail, NextCursor(last));
      }
    }
  }

  lemma JoinAscending(head: seq<Bytes>, tail: seq<Bytes>, cursor: Option<Bytes>)
    requires Ascending(head) && Ascending(tail) && cursor.Some?
    requires forall i :: 0 <= i < |head| ==> UpTo(head[i], cursor)
    requires forall i :: 0 <= i < |tail| ==> Less(cursor.value, tail[i])
    ensures Ascending(head + tail)
  {
    var all := head + tail;
    forall i, j | 0 <= i < j < |all| ensures Less(all[i], all[j]) {
      if i < |head| <= j {
        assert UpTo(head[i], cursor) && all[j] == tail[j - |head|];
        LessTotal(head[i], cursor.value);
        if head[i] != cursor.value { LessTransitive(head[i], cursor.value, all[j]); }
      }
    }
  }

  lemma LastIsBound(head: seq<Bytes>, tail: seq<Bytes>, cursor: Option<Bytes>)
    requires Ascending(head + tail) && cursor.Some? && |tail| > 0 && cursor.value == tail[|tail| - 1]
    ensures forall i :: 0 <= i < |head + tail| ==> UpTo((head + tail)[i], cursor)
  {
    var all := head + tail;
    assert all[|all| - 1] == cursor.value;
    forall i | 0 <= i < |all| ensures UpTo(all[i], cursor) {
      if i < |all| - 1 { LessAsymmetric(all[i], cursor.value); } else { LessIrreflexive(cursor.value); }
    }
  }

  ghost predicate AlwaysListed(t: seq<Fetch>, x: Bytes) {
    forall k :: 0 <= k < |t| ==> x in t[k].listing
  }

  /** A key that stayed listed has been attempted as soon as the cursor is past it, or the sweep is over. */
  lemma {:induction false} SweepMissesNothing(t: seq<Fetch>, x: Bytes)
    requires Sweep(t) && AlwaysListed(t, x) && |t| > 0
    requires NextCursor(t[|t| - 1]).None? || UpTo(x, NextCursor(t[|t| - 1]))
    ensures x in AllAttempts(t)
  {
    hide After, Attempts, UpTo, PageOf, NextCursor;
    var last := t[|t| - 1];
    var before := t[..|t| - 1];
    BehindOrAfter(last.listing, last.cursor, x);
    if x in After(last.listing, last.cursor) {
      AttemptedByPage(last, x);
    } else {
      assert |before| > 0 && before[|before| - 1] == t[|t| - 2];
      Behind(last.cursor, x);
      SweepMissesNothing(before, x);
    }
  }

  lemma Behind(cursor: Option<Bytes>, x: Bytes)
    requires cursor.Some? && !Less(cursor.value, x)
    ensures UpTo(x, cursor)
  {}

  lemma AttemptedByPage(e: Fetch, x: Bytes)
    requires Sound(e) && x in After(e.listing, e.cursor)
    requires NextCursor(e).None? || UpTo(x, NextCursor(e))
    ensures x in Attempts(e)
  {
    hide After;
    PageAttempts(e);
    if NextCursor(e).Some? {
      var n := Skipped(e.listing, e.cursor);
      var rest := After(e.listing, e.cursor);
      var i :| 0 <= i < |rest| && rest[i] == x;
      assert rest[i] == e.listing[n + i] && NextCursor(e).value == e.listing[n + e.processed - 1];
      assert Attempts(e) == rest[..e.processed];
    }
  }

  /**
   * A deferral stores the deferred key as the cursor, so that timeline is not
   * offered again before the sweep is over, however the listing changes.
   */
  lemma DeferredIsPassedOver(e: Fetch, later: seq<Bytes>)
    requires Sound(e) && e.deferred && Ascending(later)
    ensures NextCursor(e) == Some(Attempts(e)[|Attempts(e)| - 1])
    ensures Attempts(e)[|Attempts(e)| - 1] !in After(later, NextCursor(e))
  {
    var x := Attempts(e)[|Attempts(e)| - 1];
    BeyondCursor(later, NextCursor(e));
    LessIrreflexive(x);
  }

  /**
   * The promise of the scan: in a sweep that came to its end, every timeline
   * that stayed Active under the owner was attempted exactly once.
   */
  lemma SweepExactlyOnce(t: seq<Fetch>, x: Bytes)
    requires Sweep(t) && |t| > 0 && NextCursor(t[|t| - 1]).None? && AlwaysListed(t, x)
    ensures multiset(AllAttempts(t))[x] == 1
  {
    hide After, Attempts, NextCursor, AllAttempts;
    SweepAscends(t);
    SweepMissesNothing(t, x);
    OnceInAscending(AllAttempts(t), x);
  }

  lemma {:induction false} OnceInAscending(keys: seq<Bytes>, x: Bytes)
    requires Ascending(keys)
    ensures multiset(keys)[x] == if x in keys then 1 else 0
  {
    if keys != [] {
      var rest := keys[1..];
      assert keys == [keys[0]] + rest;
      OnceInAscending(rest, x);
      if x == keys[0] && x in rest {
        var i :| 0 <= i < |rest| && rest[i] == x;
        LessIrreflexive(x);
        assert false;
      }
    }
  }

  // ---- The remembered cursors ----

  /** What an event does to an owner's cursor. */
  ghost function StepCursor(cursor: Option<Bytes>, e: Event, owner: Bytes): Option<Bytes> {
    if e.Fetched? then
      if e.fetch.owner == owner && e.fetch.processed <= |PageOf(e.fetch).keys| then NextCursor(e.fetch) else cursor
    else if owner in e.owners then cursor else None
  }

  /** The cursor an owner has after the events so far. */
  ghost function CursorAfter(h: seq<Event>, owner: Bytes): Option<Bytes> {
    if h == [] then None
    else
      StepCursor(CursorAfter(h[..|h| - 1], owner), h[|h| - 1], owner)
  }

  /** Every page was sound and started from the cursor its owner had. */
  ghost predicate Linked(h: seq<Event>) {
    forall i :: 0 <= i < |h| && h[i].Fetched? ==>
      Sound(h[i].fetch) && h[i].fetch.cursor == CursorAfter(h[..i], h[i].fetch.owner)
  }

  lemma LinkedPush(h: seq<Event>, e: Event)
    requires Linked(h)
    requires e.Fetched? ==> Sound(e.fetch) && e.fetch.cursor == CursorAfter(h, e.fetch.owner)
    ensures Linked(h + [e])
  {
    var h' := h + [e];
    forall i | 0 <= i < |h'| && h'[i].Fetched?
      ensures Sound(h'[i].fetch) && h'[i].fetch.cursor == CursorAfter(h'[..i], h'[i].fetch.owner)
    {
      assert h'[..i] == h[..i];
      assert i == |h| ==> h[..i] == h;
    }
  }

  lemma CursorPush(h: seq<Event>, e: Event, owner: Bytes)
    ensures CursorAfter(h + [e], owner) == StepCursor(CursorAfter(h, owner), e, owner)
  {
    hide StepCursor;
    assert (h + [e])[..|h|] == h;
  }

  /** An owner's pages among events `i` to `j`. */
  ghost function OwnerPages(h: seq<Event>, owner: Bytes, i: nat, j: nat): seq<Fetch>
    requires i <= j <= |h|
    decreases j
  {
    if i == j then []
    else if h[j - 1].Fetched? && h[j - 1].fetch.owner == owner then OwnerPages(h, owner, i, j - 1) + [h[j - 1].fetch]
    else OwnerPages(h, owner, i, j - 1)
  }

  /** Events `i` to `j` hold one sweep of the owner: its cursor was fresh and was not reset after its first page. */
  ghost predicate OneSweep(h: seq<Event>, owner: Bytes, i: nat, j: nat) {
    && i <= j <= |h| && CursorAfter(h[..i], owner).None?
    && forall k :: i < k < j && OwnerPages(h, owner, i, k) != [] ==> CursorAfter(h[..k], owner).Some?
  }

  lemma SweepPush(t: seq<Fetch>, e: Fetch)
    requires Sweep(t) && Sound(e)
    requires if t == [] then e.cursor.None? else e.cursor.Some? && e.cursor == NextCursor(t[|t| - 1])
    ensures Sweep(t + [e])
  {
    hide Sound, NextCursor;
  }

  lemma SweepNone()
    ensures Sweep([])
  {}

  lemma SweepLast(t: seq<Fetch>)
    requires Sweep(t) && |t| > 0
    ensures Sound(t[|t| - 1]) && t[|t| - 1].processed <= |PageOf(t[|t| - 1]).keys|
  {}

  lemma {:induction false} OneSweepIsSweep(h: seq<Event>, owner: Bytes, i: nat, j: nat)
    requires Linked(h) && OneSweep(h, owner, i, j)
    ensures Sweep(OwnerPages(h, owner, i, j))
    ensures var t := OwnerPages(h, owner, i, j);
            CursorAfter(h[..j], owner).Some? ==> |t| > 0 && CursorAfter(h[..j], owner) == NextCursor(t[|t| - 1])
    decreases j
  {
    hide PageOf, NextCursor, Sweep, CursorAfter, Sound;
    if i == j {
      SweepNone();
    } else {
      OneSweepIsSweep(h, owner, i, j - 1);
      assert h[..j] == h[..j - 1] + [h[j - 1]];
      CursorPush(h[..j - 1], h[j - 1], owner);
      if h[j - 1].Fetched? && h[j - 1].fetch.owner == owner {
        var t := OwnerPages(h, owner, i, j - 1);
        if t != [] { SweepLast(t); }
        SoundProcessed(h[j - 1].fetch);
        SweepPush(t, h[j - 1].fetch);
      }
    }
  }

  /** Over any history of passes: between two resets an owner's attempted keys strictly increase. */
  lemma AttemptsIncreaseBetweenResets(h: seq<Event>, owner: Bytes, i: nat, j: nat)
    requires Linked(h) && OneSweep(h, owner, i, j)
    ensures Sweep(OwnerPages(h, owner, i, j)) && Ascending(AllAttempts(OwnerPages(h, owner, i, j)))
  {
    hide OwnerPages;
    OneSweepIsSweep(h, owner, i, j);
    SweepAscends(OwnerPages(h, owner, i, j));
  }

  /** Over any history of passes: a finished sweep attempted each timeline that stayed Active exactly once. */
  lemma StayingTimelinesAttemptedOnce(h: seq<Event>, owner: Bytes, i: nat, j: nat, x: Bytes)
    requires Linked(h) && OneSweep(h, owner, i, j)
    requires var t := OwnerPages(h, owner, i, j);
             && |t| > 0 && t[|t| - 1].processed <= |PageOf(t[|t| - 1]).keys|
             && NextCursor(t[|t| - 1]).None? && AlwaysListed(t, x)
    ensures Sweep(OwnerPages(h, owner, i, j)) && multiset(AllAttempts(OwnerPages(h, owner, i, j)))[x] == 1
  {
    hide OwnerPages, NextCursor, PageOf;
    OneSweepIsSweep(h, owner, i, j);
    SweepExactlyOnce(OwnerPages(h, owner, i, j), x);
  }

  // ---- The pass itself ----

  /** The transfers attempted over a stretch of events. */
  ghost function AttemptCount(h: seq<Event>): nat {
    if h == [] then 0
    else AttemptCount(h[..|h| - 1]) + (if h[|h| - 1].Fetched? then h[|h| - 1].fetch.processed else 0)
  }

  lemma AttemptCountPush(h: seq<Event>, e: Event)
    ensures AttemptCount(h + [e]) == AttemptCount(h) + (if e.Fetched? then e.fetch.processed else 0)
  {
    assert (h + [e])[..|h|] == h;
  }

  /** How many of the `n` transfers from the `first` on moved their timeline. */
  ghost function MovedCount(outcomes: nat -> Outcome, first: nat, n: nat): nat {
    if n == 0 then 0 else MovedCount(outcomes, first, n - 1) + (if outcomes(first + n - 1) == Moved then 1 else 0)
  }

  lemma {:induction false} MovedCountSplit(outcomes: nat -> Outcome, n: nat, m: nat)
    ensures MovedCount(outcomes, 0, n + m) == MovedCount(outcomes, 0, n) + MovedCount(outcomes, n, m)
  {
    if m > 0 {
      MovedCountSplit(outcomes, n, m - 1);
    }
  }

  /**
   * The `processed` transfers, counted from the `attempted`-th of the pass, end with
   * the page, with the batch, or with the first deferral, and with nothing else.
   */
  ghost predicate Exhausts(keys: nat, attempted: nat, batchSize: nat, outcomes: nat -> Outcome, processed: nat,
                           deferred: bool)
  {
    && processed <= keys && attempted + processed <= batchSize
    && (processed == keys || attempted + processed == batchSize || deferred)
    && (deferred <==> processed > 0 && outcomes(attempted + processed - 1) == Deferred)
    && (forall i: nat :: attempted <= i < attempted + processed - 1 ==> outcomes(i) != Deferred)
  }

  /**
   * The per-page loop: attempts keys in order until the batch is full or a transfer
   * is deferred. `outcomes(i)` is how the pass's `i`-th transfer ends.
   */
  method AttemptTransfers(keys: seq<Bytes>, attempted: nat, batchSize: nat, outcomes: nat -> Outcome)
    returns (processed: nat, succeeded: nat, deferred: bool)
    requires attempted < batchSize
    ensures Exhausts(|keys|, attempted, batchSize, outcomes, processed, deferred)
    ensures processed == 0 <==> keys == []
    ensures succeeded == MovedCount(outcomes, attempted, processed)
  {
    processed, succeeded, deferred := 0, 0, false;
    while processed < |keys|
      invariant processed <= |keys| && !deferred && attempted + processed < batchSize
      invariant succeeded == MovedCount(outcomes, attempted, processed)
      invariant forall i: nat :: attempted <= i < attempted + processed ==> outcomes(i) != Deferred
    {
      processed := processed + 1;
      match outcomes(attempted + processed - 1) {
        case Moved => succeeded := succeeded + 1;
        case Failed =>
        case Deferred => deferred := true;
      }
      if attempted + processed >= batchSize || deferred {
        break;
      }
    }
  }

  // ---- Rotation over the owners ----

  /** Position `i` steps after `start` in a rotation over `n` owners. */
  function At(start: nat, i: nat, n: nat): (p: nat)
    requires start < n
    ensures p < n
  {
    if i == 0 then start
    else
      var before := At(start, i - 1, n);
      if before + 1 == n then 0 else before + 1
  }

  ghost function FetchCount(h: seq<Event>): nat {
    if h == [] then 0 else FetchCount(h[..|h| - 1]) + (if h[|h| - 1].Fetched? then 1 else 0)
  }

  /** Pages go round the owners from `start`, one owner after the other, none skipped. */
  ghost predicate Rotates(h: seq<Event>, owners: seq<Bytes>, start: nat) {
    start < |owners| && forall i :: 0 <= i < |h| && h[i].Fetched? ==>
      h[i].fetch.owner == owners[At(start, FetchCount(h[..i]), |owners|)]
  }

  /** The index remembered for the next pass: one past the last owner that had work. */
  ghost function IndexAfter(h: seq<Event>, initial: nat, start: nat, n: nat): nat
    requires start < n
  {
    if h == [] then initial
    else if h[|h| - 1].Retained? then At(start, FetchCount(h), n)
    else IndexAfter(h[..|h| - 1], initial, start, n)
  }

  lemma RotationPush(h: seq<Event>, e: Event, owners: seq<Bytes>, initial: nat, start: nat)
    requires Rotates(h, owners, start)
    requires e.Fetched? ==> e.fetch.owner == owners[At(start, FetchCount(h), |owners|)]
    ensures Rotates(h + [e], owners, start)
    ensures FetchCount(h + [e]) == FetchCount(h) + (if e.Fetched? then 1 else 0)
    ensures IndexAfter(h + [e], initial, start, |owners|) ==
            if e.Retained? then At(start, FetchCount(h), |owners|) else IndexAfter(h, initial, start, |owners|)
  {
    var h' := h + [e];
    assert h'[..|h|] == h;
    forall i | 0 <= i < |h'| && h'[i].Fetched?
      ensures h'[i].fetch.owner == owners[At(start, FetchCount(h'[..i]), |owners|)]
    {
      assert i < |h| ==> h'[..i] == h[..i];
    }
  }

  // ---- The pass does what its world tells it ----

  /** What a fetch must be: the listing given, a page of the batch's size, and transfers until something stops them. */
  ghost predicate FollowsAt(fetched: nat, attempted: nat, e: Fetch, batchSize: u64, fetches: nat -> Option<set<Bytes>>,
                            outcomes: nat -> Outcome)
  {
    && fetches(fetched).Some? && Sorts(e.listing, fetches(fetched).value)
    && 1 <= e.fetchLimit <= batchSize && (8 * batchSize <= U64_MAX ==> e.fetchLimit == batchSize)
    && Exhausts(|PageOf(e).keys|, attempted, batchSize, outcomes, e.processed, e.deferred)
  }

  ghost predicate Follows(h: seq<Event>, batchSize: u64, fetches: nat -> Option<set<Bytes>>, outcomes: nat -> Outcome) {
    forall i :: 0 <= i < |h| && h[i].Fetched? ==>
      FollowsAt(FetchCount(h[..i]), AttemptCount(h[..i]), h[i].fetch, batchSize, fetches, outcomes)
  }

  lemma FollowsPush(h: seq<Event>, e: Event, batchSize: u64, fetches: nat -> Option<set<Bytes>>,
                    outcomes: nat -> Outcome)
    requires Follows(h, batchSize, fetches, outcomes)
    requires e.Fetched? ==> FollowsAt(FetchCount(h), AttemptCount(h), e.fetch, batchSize, fetches, outcomes)
    ensures Follows(h + [e], batchSize, fetches, outcomes)
  {
    hide FollowsAt, FetchCount, AttemptCount;
    var h' := h + [e];
    forall i | 0 <= i < |h'| && h'[i].Fetched?
      ensures FollowsAt(FetchCount(h'[..i]), AttemptCount(h'[..i]), h'[i].fetch, batchSize, fetches, outcomes)
    {
      assert if i < |h| then h'[..i] == h[..i] else h'[..i] == h;
    }
  }

  lemma FetchLimitIs(batchSize: u64, scanned: nat)
    requires scanned < batchSize
    ensures var limit := Max(Min(Max(SaturatingMul(batchSize, 8), batchSize) - scanned, batchSize), 1);
            1 <= limit <= batchSize && (8 * batchSize <= U64_MAX ==> limit == batchSize)
  {}

  /** Position `k` steps before `index` in a rotation over `n` owners. */
  function Back(index: nat, k: nat, n: nat): nat
    requires index < n && k <= n
  {
    if k <= index then index - k else index + n - k
  }

  ghost predicate IdleFetch(e: Event, owner: Bytes) {
    e.Fetched? && e.fetch.owner == owner && e.fetch.processed == 0
  }

  /** The last `idle` events were empty pages of the owners just before `ownerIndex` in the rotation. */
  ghost predicate IdleTail(events: seq<Event>, owners: seq<Bytes>, ownerIndex: nat, idle: nat) {
    && idle <= |owners| && idle <= |events| && (idle > 0 ==> ownerIndex < |owners|)
    && forall k :: 1 <= k <= idle ==> IdleFetch(events[|events| - k], owners[Back(ownerIndex, k, |owners|)])
  }

  lemma IdleTailGrows(events: seq<Event>, e: Event, owners: seq<Bytes>, ownerIndex: nat, idle: nat)
    requires IdleTail(events, owners, ownerIndex, idle) && idle < |owners| && ownerIndex < |owners|
    requires IdleFetch(e, owners[ownerIndex])
    ensures IdleTail(events + [e], owners, if ownerIndex + 1 == |owners| then 0 else ownerIndex + 1, idle + 1)
  {
    hide IdleFetch;
    var events' := events + [e];
    var next := if ownerIndex + 1 == |owners| then 0 else ownerIndex + 1;
    forall k | 1 <= k <= idle + 1 ensures IdleFetch(events'[|events'| - k], owners[Back(next, k, |owners|)]) {
      if k > 1 {
        assert IdleFetch(events[|events| - (k - 1)], owners[Back(ownerIndex, k - 1, |owners|)]);
      }
    }
  }

  /** One of the last `n` events was an empty page of this owner. */
  ghost predicate OwnerIdle(events: seq<Event>, n: nat, owner: Bytes)
    requires n <= |events|
  {
    exists j :: |events| - n <= j < |events| && IdleFetch(events[j], owner)
  }

  /** Once the idle pages go all the way round, every owner had one. */
  lemma AllIdle(events: seq<Event>, owners: seq<Bytes>, ownerIndex: nat, i: nat)
    requires IdleTail(events, owners, ownerIndex, |owners|) && i < |owners|
    ensures OwnerIdle(events, |owners|, owners[i])
  {
    hide IdleFetch;
    var k := if i < ownerIndex then ownerIndex - i else ownerIndex + |owners| - i;
    assert Back(ownerIndex, k, |owners|) == i;
    assert IdleFetch(events[|events| - k], owners[Back(ownerIndex, k, |owners|)]);
  }

  /** Every owner's latest page, within the last round, was empty. */
  ghost predicate EveryOwnerIdle(events: seq<Event>, owners: seq<Bytes>) {
    |owners| <= |events| && forall i :: 0 <= i < |owners| ==> OwnerIdle(events, |owners|, owners[i])
  }

  class Scanner {
    const batchSize: u64
    var ownerCursors: map<Bytes, Option<Bytes>>
    var ownerCursorIndex: nat
    ghost var history: seq<Event>

    function Cursor(owner: Bytes): Option<Bytes>
      reads this
    {
      if owner in ownerCursors then ownerCursors[owner] else None
    }

    /** The stored cursors are the ones the history leads to. */
    ghost predicate Valid()
      reads this
    {
      Linked(history) && forall owner: Bytes :: Cursor(owner) == CursorAfter(history, owner)
    }

    constructor (batchSize: u64)
      ensures Valid() && history == [] && this.batchSize == batchSize
    {
      this.batchSize := batchSize;
      ownerCursors, ownerCursorIndex, history := map[], 0, [];
    }

    /** `store_auto_failover_owner_cursor`, with the page it follows. */
    method StoreOwnerCursor(owner: Bytes, cursor: Option<Bytes>, ghost e: Fetch)
      requires Valid() && Sound(e) && e.owner == owner && e.cursor == Cursor(owner) && cursor == NextCursor(e)
      modifies this`ownerCursors, this`history
      ensures Valid() && history == old(history) + [Fetched(e)]
    {
      hide PageOf, NextCursor, CursorAfter, Linked, Sound;
      LinkedPush(history, Fetched(e));
      SoundProcessed(e);
      forall o: Bytes ensures CursorAfter(history + [Fetched(e)], o) == if o == owner then cursor else Cursor(o) {
        CursorPush(history, Fetched(e), o);
      }
      ownerCursors := ownerCursors[owner := cursor];
      history := history + [Fetched(e)];
    }

    /** `store_auto_failover_owner_index`: also forgets owners that are no longer listed. */
    method StoreOwnerIndex(ownerIndex: nat, owners: seq<Bytes>)
      requires Valid()
      modifies this`ownerCursors, this`history, this`ownerCursorIndex
      ensures Valid() && history == old(history) + [Retained(owners)]
      ensures ownerCursorIndex == if |owners| == 0 then 0 else ownerIndex % |owners|
    {
      hide CursorAfter, Linked;
      ghost var e := Retained(owners);
      LinkedPush(history, e);
      forall o: Bytes ensures CursorAfter(history + [e], o) == if o in owners then Cursor(o) else None {
        CursorPush(history, e, o);
      }
      ownerCursorIndex := if |owners| == 0 then 0 else ownerIndex % |owners|;
      ownerCursors := map o | o in ownerCursors && o in owners :: ownerCursors[o];
      history := history + [e];
    }

    /**
     * Attempts one page that is not empty and stores the cursor it leads to. On a
     * deferral the cursor still moves past the deferred timeline.
     */
    method ProcessPage(owner: Bytes, listing: seq<Bytes>, fetchLimit: nat, page: KeyPage, attempted: nat,
                       outcomes: nat -> Outcome)
      returns (processed: nat, succeeded: nat, ghost e: Fetch)
      requires Valid() && attempted < batchSize && Ascending(listing) && fetchLimit >= 1
      requires page == Take(After(listing, Cursor(owner)), fetchLimit) && page.keys != []
      modifies this`ownerCursors, this`history
      ensures Valid() && history == old(history) + [Fetched(e)] && e.owner == owner
      ensures e.processed == processed && 0 < processed && succeeded == MovedCount(outcomes, attempted, processed)
      ensures e.listing == listing && e.fetchLimit == fetchLimit && PageOf(e) == page
      ensures Exhausts(|page.keys|, attempted, batchSize, outcomes, processed, e.deferred)
    {
      hide CursorAfter, Linked, After, MovedCount;
      var deferred: bool;
      processed, succeeded, deferred := AttemptTransfers(page.keys, attempted, batchSize, outcomes);
      var nextCursor := Some(page.keys[processed - 1]);
      if !deferred && page.next.None? && processed == |page.keys| {
        nextCursor := None;
      }
      e := Fetch(owner, Cursor(owner), listing, fetchLimit, processed, deferred);
      StoreOwnerCursor(owner, nextCursor, e);
    }

    /**
     * `auto_failover_owner_targeted_pass`. `fetches(i)` is what the pass's `i`-th page
     * request finds Active under its owner, nothing when the request fails, and
     * `outcomes(i)` is how its `i`-th transfer ends.
     */
    method OwnerTargetedPass(owners: seq<Bytes>, fetches: nat -> Option<set<Bytes>>, outcomes: nat -> Outcome)
      returns (r: Result<nat>, ghost events: seq<Event>)
      requires Valid()
      modifies this`ownerCursors, this`history, this`ownerCursorIndex
      ensures Valid() && history == old(history) + events
      ensures AttemptCount(events) <= batchSize
      ensures Follows(events, batchSize, fetches, outcomes)
      ensures r.Ok? ==> r.value == MovedCount(outcomes, 0, AttemptCount(events))
      ensures r.Ok? && AttemptCount(events) < batchSize ==> EveryOwnerIdle(events, owners)
      ensures r.Err? ==> fetches(FetchCount(events)).None?
      ensures |owners| > 0 ==>
        var start := old(ownerCursorIndex) % |owners|;
        Rotates(events, owners, start) && ownerCursorIndex == IndexAfter(events, old(ownerCursorIndex), start, |owners|)
    {
      hide Rotates, IndexAfter, FetchCount, EveryOwnerIdle, Valid, AttemptCount, After, Take, Sorts, Ascending, PageOf,
        NextCursor, Sound, Follows, FollowsAt, MovedCount, Exhausts, Progress;
      var scanLimit: nat := Max(SaturatingMul(batchSize, 8), batchSize);
      var scanned: nat, attempted: nat, succeeded: nat := 0, 0, 0;
      var ownerIndex: nat := if |owners| == 0 then 0 else ownerCursorIndex % |owners|;
      var idleOwnerPages: nat, page: KeyPage, fetched: nat := 0, KeyPage([], None), 0;
      events := [];
      NothingYet(owners, ownerCursorIndex, ownerIndex, batchSize, fetches, outcomes);
      while attempted < batchSize && scanned < scanLimit && idleOwnerPages < |owners|
        invariant Valid() && history == old(history) + events
        invariant scanned == attempted <= batchSize && (|owners| > 0 ==> ownerIndex < |owners|)
        invariant idleOwnerPages <= |owners|
        invariant succeeded == MovedCount(outcomes, 0, attempted)
        invariant Follows(events, batchSize, fetches, outcomes)
        invariant Progress(events, owners, old(ownerCursorIndex), fetched, attempted, ownerIndex, ownerCursorIndex,
                           idleOwnerPages)
        decreases batchSize - attempted, |owners| - idleOwnerPages
      {
        var owner := owners[ownerIndex];
        var cursor := Cursor(owner);
        var fetchLimit: nat := Max(Min(scanLimit - scanned, batchSize), 1);
        FetchLimitIs(batchSize, scanned);
        ProgressCounts(events, owners, old(ownerCursorIndex), fetched, attempted, ownerIndex, ownerCursorIndex,
                       idleOwnerPages);
        var active := fetches(fetched);
        if active.None? {
          return Err(Internal), events;
        }
        var listing := SortKeys(active.value);
        ListingAscends(listing, active.value);
        page := Take(After(listing, cursor), fetchLimit);
        ghost var thisIndex := ownerIndex;
        ownerIndex := if ownerIndex + 1 == |owners| then 0 else ownerIndex + 1;
        if page.keys == [] && page.next.None? {
          ghost var e := Fetch(owner, cursor, listing, fetchLimit, 0, false);
          IdlePage(e);
          IdleFollows(e, batchSize, fetches, outcomes, fetched, attempted);
          StoreOwnerCursor(owner, None, e);
          FollowsPush(events, Fetched(e), batchSize, fetches, outcomes);
          IdleProgress(events, e, owners, old(ownerCursorIndex), fetched, attempted, thisIndex, ownerCursorIndex,
                       idleOwnerPages);
          events := events + [Fetched(e)];
          idleOwnerPages, fetched := idleOwnerPages + 1, fetched + 1;
        } else {
          TakenSome(listing, cursor, fetchLimit);
          var processed, moved, e := ProcessPage(owner, listing, fetchLimit, page, attempted, outcomes);
          BusyFollows(e, page, batchSize, fetches, outcomes, fetched, attempted);
          FollowsPush(events, Fetched(e), batchSize, fetches, outcomes);
          FollowsPush(events + [Fetched(e)], Retained(owners), batchSize, fetches, outcomes);
          BusyProgress(events, e, owners, old(ownerCursorIndex), fetched, attempted, thisIndex, ownerCursorIndex,
                       idleOwnerPages);
          StoreOwnerIndex(ownerIndex, owners);
          SmallMod(ownerIndex, |owners|);
          events := events + [Fetched(e)] + [Retained(owners)];
          idleOwnerPages, fetched := 0, fetched + 1;
          MovedCountSplit(outcomes, attempted, processed);
          ExhaustsWithin(|page.keys|, attempted, batchSize, outcomes, processed, e.deferred);
          attempted, scanned, succeeded := attempted + processed, scanned + processed, succeeded + moved;
          if attempted >= batchSize || scanned >= scanLimit {
            break;
          }
        }
      }
      ProgressCounts(events, owners, old(ownerCursorIndex), fetched, attempted, ownerIndex, ownerCursorIndex,
                     idleOwnerPages);
      return Ok(succeeded), events;
    }
  }

  /** Where a pass stands after these events; it began with the remembered index `initial`. */
  ghost predicate Progress(events: seq<Event>, owners: seq<Bytes>, initial: nat, fetched: nat, attempted: nat,
                           ownerIndex: nat, index: nat, idle: nat)
  {
    && FetchCount(events) == fetched && AttemptCount(events) == attempted
    && IdleTail(events, owners, ownerIndex, idle)
    && (|owners| > 0 ==>
          var start := initial % |owners|;
          && Rotates(events, owners, start) && ownerIndex == At(start, fetched, |owners|)
          && index == IndexAfter(events, initial, start, |owners|))
  }

  lemma ProgressCounts(events: seq<Event>, owners: seq<Bytes>, initial: nat, fetched: nat, attempted: nat,
                       ownerIndex: nat, index: nat, idle: nat)
    requires Progress(events, owners, initial, fetched, attempted, ownerIndex, index, idle)
    ensures FetchCount(events) == fetched && AttemptCount(events) == attempted
    ensures |owners| > 0 ==>
      var start := initial % |owners|;
      Rotates(events, owners, start) && index == IndexAfter(events, initial, start, |owners|)
    ensures idle <= |owners| && (idle == |owners| ==> EveryOwnerIdle(events, owners))
  {
    hide Rotates, FetchCount, AttemptCount, IndexAfter, EveryOwnerIdle, IdleTail;
    IdleRound(events, owners, ownerIndex, idle);
  }

  lemma IdleProgress(events: seq<Event>, e: Fetch, owners: seq<Bytes>, initial: nat, fetched: nat, attempted: nat,
                     ownerIndex: nat, index: nat, idle: nat)
    requires Progress(events, owners, initial, fetched, attempted, ownerIndex, index, idle)
    requires ownerIndex < |owners| && idle < |owners| && e.owner == owners[ownerIndex] && e.processed == 0
    ensures Progress(events + [Fetched(e)], owners, initial, fetched + 1, attempted,
                     if ownerIndex + 1 == |owners| then 0 else ownerIndex + 1, index, idle + 1)
  {
    hide Rotates, FetchCount, AttemptCount, IndexAfter, IdleTail, IdleFetch;
    var start := initial % |owners|;
    AttemptCountPush(events, Fetched(e));
    RotationPush(events, Fetched(e), owners, initial, start);
    IsIdle(e);
    IdleTailGrows(events, Fetched(e), owners, ownerIndex, idle);
  }

  lemma BusyProgress(events: seq<Event>, e: Fetch, owners: seq<Bytes>, initial: nat, fetched: nat, attempted: nat,
                     ownerIndex: nat, index: nat, idle: nat)
    requires Progress(events, owners, initial, fetched, attempted, ownerIndex, index, idle)
    requires ownerIndex < |owners| && e.owner == owners[ownerIndex]
    ensures var next := if ownerIndex + 1 == |owners| then 0 else ownerIndex + 1;
            Progress(events + [Fetched(e)] + [Retained(owners)], owners, initial, fetched + 1, attempted + e.processed,
                     next, next, 0)
  {
    hide Rotates, FetchCount, AttemptCount, IndexAfter, IdleTail;
    var start := initial % |owners|;
    var next := if ownerIndex + 1 == |owners| then 0 else ownerIndex + 1;
    AttemptCountPush(events, Fetched(e));
    RotationPush(events, Fetched(e), owners, initial, start);
    AttemptCountPush(events + [Fetched(e)], Retained(owners));
    RotationPush(events + [Fetched(e)], Retained(owners), owners, initial, start);
    NoIdleTail(events + [Fetched(e)] + [Retained(owners)], owners, next);
  }

  lemma ExhaustsWithin(keys: nat, attempted: nat, batchSize: nat, outcomes: nat -> Outcome, processed: nat,
                       deferred: bool)
    requires Exhausts(keys, attempted, batchSize, outcomes, processed, deferred)
    ensures attempted + processed <= batchSize
  {}

  lemma NothingYet(owners: seq<Bytes>, initial: nat, ownerIndex: nat, batchSize: u64,
                   fetches: nat -> Option<set<Bytes>>, outcomes: nat -> Outcome)
    requires ownerIndex == if |owners| == 0 then 0 else initial % |owners|
    ensures Follows([], batchSize, fetches, outcomes) && MovedCount(outcomes, 0, 0) == 0
    ensures Progress([], owners, initial, 0, 0, ownerIndex, initial, 0)
  {}

  lemma IdleFollows(e: Fetch, batchSize: u64, fetches: nat -> Option<set<Bytes>>, outcomes: nat -> Outcome,
                    fetched: nat, attempted: nat)
    requires fetches(fetched).Some? && Sorts(e.listing, fetches(fetched).value) && attempted < batchSize
    requires 1 <= e.fetchLimit <= batchSize && (8 * batchSize <= U64_MAX ==> e.fetchLimit == batchSize)
    requires e.processed == 0 && !e.deferred && Take(After(e.listing, e.cursor), e.fetchLimit).keys == []
    ensures FollowsAt(fetched, attempted, e, batchSize, fetches, outcomes)
  {
    hide Sorts, After;
  }

  lemma BusyFollows(e: Fetch, page: KeyPage, batchSize: u64, fetches: nat -> Option<set<Bytes>>,
                    outcomes: nat -> Outcome, fetched: nat, attempted: nat)
    requires fetches(fetched).Some? && Sorts(e.listing, fetches(fetched).value)
    requires 1 <= e.fetchLimit <= batchSize && (8 * batchSize <= U64_MAX ==> e.fetchLimit == batchSize)
    requires PageOf(e) == page && Exhausts(|page.keys|, attempted, batchSize, outcomes, e.processed, e.deferred)
    ensures FollowsAt(fetched, attempted, e, batchSize, fetches, outcomes)
  {
    hide Sorts, After, Exhausts;
  }

  lemma NoIdleTail(events: seq<Event>, owners: seq<Bytes>, ownerIndex: nat)
    ensures IdleTail(events, owners, ownerIndex, 0)
  {}

  lemma IsIdle(e: Fetch)
    requires e.processed == 0
    ensures IdleFetch(Fetched(e), e.owner)
  {}

  lemma IdleRound(events: seq<Event>, owners: seq<Bytes>, ownerIndex: nat, idle: nat)
    requires IdleTail(events, owners, ownerIndex, idle)
    ensures idle <= |owners| && (idle == |owners| ==> EveryOwnerIdle(events, owners))
  {
    hide IdleFetch;
    if idle == |owners| {
      forall i | 0 <= i < |owners| ensures OwnerIdle(events, |owners|, owners[i]) {
        AllIdle(events, owners, ownerIndex, i);
      }
    }
  }

  lemma SmallMod(i: nat, n: nat)
    requires i < n
    ensures i % n == i
  {}

  lemma ListingAscends(listing: seq<Bytes>, active: set<Bytes>)
    requires Sorts(listing, active)
    ensures Ascending(listing)
  {}

  lemma SoundProcessed(e: Fetch)
    requires Sound(e)
    ensures e.processed <= |PageOf(e).keys|
  {}

  lemma IdlePage(e: Fetch)
    requires Ascending(e.listing) && e.fetchLimit >= 1 && e.processed == 0 && !e.deferred
    requires Take(After(e.listing, e.cursor), e.fetchLimit).keys == []
    ensures Sound(e) && NextCursor(e) == None
  {}

  lemma TakenSome(listing: seq<Bytes>, cursor: Option<Bytes>, fetchLimit: nat)
    requires fetchLimit >= 1
    ensures Take(After(listing, cursor), fetchLimit).keys == [] ==> Take(After(listing, cursor), fetchLimit).next.None?
  {}
}
