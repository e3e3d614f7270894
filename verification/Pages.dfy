/** Pages cut from a sorted key listing, and why walking them by cursor misses and repeats nothing. */
module Pages {
  import opened Common
  import opened ByteStrings

  /** What one page answers: keys, and the cursor to continue from when there is more. */
  datatype KeyPage = KeyPage(keys: seq<Bytes>, next: Option<Bytes>)

  /** The keys strictly after the cursor; everything when there is none. */
  function After(keys: seq<Bytes>, start: Option<Bytes>): seq<Bytes> {
    if keys == [] || start.None? || Less(start.value, keys[0]) then keys
    else After(keys[1..], start)
  }

  function Take(rest: seq<Bytes>, limit: nat): KeyPage {
    if limit == 0 then KeyPage([], None)
    else if |rest| > limit then KeyPage(rest[..limit], Some(rest[limit - 1]))
    else KeyPage(rest, None)
  }

  /** The keys of a listing that satisfy the filter, in order. */
  function Select(keys: seq<Bytes>, chosen: set<Bytes>): seq<Bytes> {
    if keys == [] then []
    else if keys[0] in chosen then [keys[0]] + Select(keys[1..], chosen)
    else Select(keys[1..], chosen)
  }

  lemma {:induction false} SelectMembers(keys: seq<Bytes>, chosen: set<Bytes>)
    ensures forall k: Bytes :: k in Select(keys, chosen) <==> k in keys && k in chosen
  {
    if keys != [] {
      SelectMembers(keys[1..], chosen);
      assert keys == [keys[0]] + keys[1..];
    }
  }

  /** `partition_point` finds where the rest begins. */
  lemma {:induction false} AfterIsSuffix(keys: seq<Bytes>, start: Bytes, n: nat)
    requires n <= |keys|
    requires forall i :: 0 <= i < n ==> !Less(start, keys[i])
    requires forall i :: n <= i < |keys| ==> Less(start, keys[i])
    ensures After(keys, Some(start)) == keys[n..]
  {
    if n > 0 {
      AfterIsSuffix(keys[1..], start, n - 1);
      assert keys[1..][n - 1..] == keys[n..];
    }
  }

  lemma {:induction false} Skipped(keys: seq<Bytes>, start: Option<Bytes>) returns (n: nat)
    ensures n <= |keys| && After(keys, start) == keys[n..]
  {
    if keys == [] || start.None? || Less(start.value, keys[0]) {
      n := 0;
    } else {
      var m := Skipped(keys[1..], start);
      n := m + 1;
      assert keys[1..][m..] == keys[n..];
    }
  }

  lemma CursorAtIndex(keys: seq<Bytes>, i: nat)
    requires Ascending(keys) && i < |keys|
    ensures After(keys, Some(keys[i])) == keys[i + 1..]
  {
    forall j | 0 <= j < i + 1 ensures !Less(keys[i], keys[j]) {
      if j < i { LessAsymmetric(keys[j], keys[i]); } else { LessIrreflexive(keys[i]); }
    }
    AfterIsSuffix(keys, keys[i], i + 1);
  }

  /** A cursor taken from the rest leads to the rest beyond it. */
  lemma CursorContinues(keys: seq<Bytes>, start: Option<Bytes>, i: nat)
    requires Ascending(keys) && i < |After(keys, start)|
    ensures After(keys, Some(After(keys, start)[i])) == After(keys, start)[i + 1..]
  {
    hide After;
    var n := Skipped(keys, start);
    CursorAtIndex(keys, n + i);
    assert keys[n..][i + 1..] == keys[n + i + 1..];
  }

  lemma {:induction false} SelectAscending(keys: seq<Bytes>, chosen: set<Bytes>)
    requires Ascending(keys)
    ensures Ascending(Select(keys, chosen))
  {
    if keys != [] {
      assert Ascending(keys[1..]);
      SelectAscending(keys[1..], chosen);
      SelectMembers(keys[1..], chosen);
      var rest := Select(keys[1..], chosen);
      forall j | 0 <= j < |rest| ensures Less(keys[0], rest[j]) {
        assert rest[j] in keys[1..];
        var i :| 0 <= i < |keys[1..]| && keys[1..][i] == rest[j];
        assert keys[i + 1] == rest[j];
      }
    }
  }

  /** Filtering and skipping to a cursor can be done in either order. */
  lemma {:induction false} SelectAfter(keys: seq<Bytes>, chosen: set<Bytes>, start: Option<Bytes>)
    requires Ascending(keys)
    ensures Select(After(keys, start), chosen) == After(Select(keys, chosen), start)
  {
    if keys != [] && start.Some? {
      assert Ascending(keys[1..]);
      if Less(start.value, keys[0]) {
        SelectMembers(keys, chosen);
        AllAfter(Select(keys, chosen), start.value, keys);
      } else {
        SelectAfter(keys[1..], chosen, start);
        assert keys[0] in chosen ==> Select(keys, chosen)[1..] == Select(keys[1..], chosen);
      }
    }
  }

  lemma AllAfter(some: seq<Bytes>, start: Bytes, keys: seq<Bytes>)
    requires Ascending(keys) && keys != [] && Less(start, keys[0])
    requires forall k: Bytes :: k in some ==> k in keys
    ensures After(some, Some(start)) == some
  {
    forall i | 0 <= i < |some| ensures Less(start, some[i]) {
      assert some[i] in keys;
      var j :| 0 <= j < |keys| && keys[j] == some[i];
      if j > 0 { LessTransitive(start, keys[0], keys[j]); }
    }
  }

  /** What follows a cursor lies beyond it. */
  lemma {:induction false} BeyondCursor(keys: seq<Bytes>, start: Option<Bytes>)
    requires Ascending(keys)
    ensures start.Some? ==> forall i :: 0 <= i < |After(keys, start)| ==> Less(start.value, After(keys, start)[i])
  {
    if start.Some? && keys != [] {
      if Less(start.value, keys[0]) {
        forall i | 0 < i < |keys| ensures Less(start.value, keys[i]) {
          LessTransitive(start.value, keys[0], keys[i]);
        }
      } else {
        BeyondCursor(keys[1..], start);
      }
    }
  }

  /** A listed key is behind the cursor or among the keys after it. */
  lemma {:induction false} BehindOrAfter(keys: seq<Bytes>, start: Option<Bytes>, x: Bytes)
    requires Ascending(keys) && x in keys
    ensures x in After(keys, start) || (start.Some? && !Less(start.value, x))
  {
    if start.Some? && !Less(start.value, keys[0]) && x != keys[0] {
      var i :| 0 <= i < |keys| && keys[i] == x;
      assert keys[1..][i - 1] == x;
      BehindOrAfter(keys[1..], start, x);
    }
  }

  // ---- Walks ----

  /** Pages asked for one after another, each from the cursor the previous one returned. */
  ghost predicate Walk(list: seq<Bytes>, limit: nat, start: Option<Bytes>, pages: seq<KeyPage>)
    decreases |pages|
  {
    && |pages| > 0
    && pages[0] == Take(After(list, start), limit)
    && (if pages[0].next.None? then |pages| == 1 else Walk(list, limit, pages[0].next, pages[1..]))
  }

  function Concat(pages: seq<KeyPage>): seq<Bytes> {
    if pages == [] then [] else pages[0].keys + Concat(pages[1..])
  }

  /** A finished walk has read the whole rest of the list, in order, once. */
  lemma {:induction false} WalkReadsAll(list: seq<Bytes>, limit: nat, start: Option<Bytes>, pages: seq<KeyPage>)
    requires Ascending(list) && limit >= 1 && Walk(list, limit, start, pages)
    ensures Concat(pages) == After(list, start)
    decreases |pages|
  {
    hide After;
    var rest := After(list, start);
    if pages[0].next.None? {
      assert pages[1..] == [] && Concat(pages) == pages[0].keys + [];
    } else {
      WalkReadsAll(list, limit, pages[0].next, pages[1..]);
      CursorContinues(list, start, limit - 1);
      assert rest == rest[..limit] + rest[limit..];
    }
  }

  /** Every walk finishes: there is one, and each page but the last is full. */
  lemma {:induction false} WalkExists(list: seq<Bytes>, limit: nat, start: Option<Bytes>) returns (pages: seq<KeyPage>)
    requires Ascending(list) && limit >= 1
    ensures Walk(list, limit, start, pages)
    ensures forall i :: 0 <= i < |pages| - 1 ==> |pages[i].keys| == limit
    decreases |After(list, start)|
  {
    hide After;
    var page := Take(After(list, start), limit);
    if page.next.None? {
      pages := [page];
    } else {
      CursorContinues(list, start, limit - 1);
      var more := WalkExists(list, limit, page.next);
      pages := [page] + more;
      assert pages[1..] == more;
    }
  }
}
