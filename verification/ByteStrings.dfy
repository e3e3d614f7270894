/** Byte strings under the order that Rust strings and etcd keys share: bytewise lexicographic. */
module ByteStrings {

  type byte = x: int | 0 <= x < 256

  type Bytes = seq<byte>

  /** Strict lexicographic order; a proper prefix comes first. */
  predicate Less(a: Bytes, b: Bytes) {
    && |b| > 0
    && (|a| == 0 || a[0] < b[0] || (a[0] == b[0] && Less(a[1..], b[1..])))
  }

  lemma {:induction false} LessIrreflexive(a: Bytes)
    ensures !Less(a, a)
  {
    if |a| > 0 {
      LessIrreflexive(a[1..]);
    }
  }

  lemma {:induction false} LessTransitive(a: Bytes, b: Bytes, c: Bytes)
    requires Less(a, b) && Less(b, c)
    ensures Less(a, c)
  {
    if |a| > 0 && a[0] == b[0] == c[0] {
      LessTransitive(a[1..], b[1..], c[1..]);
    }
  }

  lemma {:induction false} LessTotal(a: Bytes, b: Bytes)
    ensures Less(a, b) || a == b || Less(b, a)
  {
    if |a| > 0 && |b| > 0 && a[0] == b[0] {
      LessTotal(a[1..], b[1..]);
      assert a == [a[0]] + a[1..] && b == [b[0]] + b[1..];
    }
  }

  lemma LessAsymmetric(a: Bytes, b: Bytes)
    requires Less(a, b)
    ensures !Less(b, a) && a != b
  {
    LessIrreflexive(a);
    if Less(b, a) {
      LessTransitive(a, b, a);
    }
  }

  /** A common prefix does not matter. */
  lemma {:induction false} LessSamePrefix(p: Bytes, s: Bytes, t: Bytes)
    ensures Less(p + s, p + t) == Less(s, t)
  {
    if |p| == 0 {
      assert p + s == s && p + t == t;
    } else {
      assert (p + s)[1..] == p[1..] + s && (p + t)[1..] == p[1..] + t;
      LessSamePrefix(p[1..], s, t);
    }
  }

  /** Heads of equal length decide first, tails break the tie. */
  lemma {:induction false} LessByHead(a: Bytes, s: Bytes, b: Bytes, t: Bytes)
    requires |a| == |b|
    ensures Less(a + s, b + t) <==> Less(a, b) || (a == b && Less(s, t))
  {
    if |a| == 0 {
      assert a + s == s && b + t == t;
    } else {
      assert (a + s)[1..] == a[1..] + s && (b + t)[1..] == b[1..] + t;
      LessByHead(a[1..], s, b[1..], t);
      assert a == [a[0]] + a[1..] && b == [b[0]] + b[1..];
    }
  }

  // ---- Strictly sorted sequences ----

  ghost predicate Ascending(keys: seq<Bytes>) {
    forall i, j :: 0 <= i < j < |keys| ==> Less(keys[i], keys[j])
  }

  /** `keys` lists exactly the members of `s`, in order and without repetition. */
  ghost predicate Sorts(keys: seq<Bytes>, s: set<Bytes>) {
    Ascending(keys) && (forall k: Bytes :: k in keys <==> k in s)
  }

  lemma {:induction false} SortsLength(keys: seq<Bytes>, s: set<Bytes>)
    requires Sorts(keys, s)
    ensures |keys| == |s|
  {
    if |keys| == 0 {
      assert s == {} by {
        assert forall k: Bytes :: k in s ==> k in keys;
      }
    } else {
      var last := |keys| - 1;
      var rest := s - {keys[last]};
      assert keys[last] in s;
      assert Sorts(keys[..last], rest) by {
        forall k: Bytes ensures k in keys[..last] <==> k in rest {
          if k in keys[..last] {
            var i :| 0 <= i < last && keys[i] == k;
            LessIrreflexive(k);
          }
        }
      }
      SortsLength(keys[..last], rest);
    }
  }

  /** A set has one sorted listing. */
  lemma {:induction false} SortsUnique(a: seq<Bytes>, b: seq<Bytes>, s: set<Bytes>)
    requires Sorts(a, s) && Sorts(b, s)
    ensures a == b
  {
    SortsLength(a, s);
    SortsLength(b, s);
    if |a| > 0 {
      SameFirst(a, b, s);
      var rest := s - {a[0]};
      TailSorts(a, s);
      TailSorts(b, s);
      SortsUnique(a[1..], b[1..], rest);
    }
  }

  lemma SameFirst(a: seq<Bytes>, b: seq<Bytes>, s: set<Bytes>)
    requires Sorts(a, s) && Sorts(b, s) && |a| > 0 && |b| > 0
    ensures a[0] == b[0]
  {
    assert a[0] in a && a[0] in b && b[0] in b && b[0] in a;
    var i :| 0 <= i < |b| && b[i] == a[0];
    var j :| 0 <= j < |a| && a[j] == b[0];
    if a[0] != b[0] {
      LessAsymmetric(a[0], a[j]);
    }
  }

  lemma TailSorts(a: seq<Bytes>, s: set<Bytes>)
    requires Sorts(a, s) && |a| > 0
    ensures Sorts(a[1..], s - {a[0]})
  {
    forall k: Bytes ensures k in a[1..] <==> k in s - {a[0]} {
      LessIrreflexive(k);
      if k in a[1..] {
        var i :| 0 <= i < |a[1..]| && a[1..][i] == k;
        assert a[i + 1] == k;
      }
    }
  }

  /** How many leading keys are at most `bound`: `partition_point(|k| k <= bound)`. */
  method PartitionPoint(keys: seq<Bytes>, bound: Bytes) returns (n: nat)
    requires Ascending(keys)
    ensures n <= |keys|
    ensures forall i :: 0 <= i < n ==> !Less(bound, keys[i])
    ensures forall i :: n <= i < |keys| ==> Less(bound, keys[i])
  {
    var low: nat, high: nat := 0, |keys|;
    while low < high
      invariant low <= high <= |keys|
      invariant forall i :: 0 <= i < low ==> !Less(bound, keys[i])
      invariant forall i :: high <= i < |keys| ==> Less(bound, keys[i])
    {
      var mid := (low + high) / 2;
      if Less(bound, keys[mid]) {
        forall i | mid <= i < |keys| ensures Less(bound, keys[i]) {
          if i > mid { LessTransitive(bound, keys[mid], keys[i]); }
        }
        high := mid;
      } else {
        forall i | 0 <= i <= mid ensures !Less(bound, keys[i]) {
          if i < mid && Less(bound, keys[i]) { LessTransitive(bound, keys[i], keys[mid]); }
        }
        low := mid + 1;
      }
    }
    n := low;
  }

  /** `sort_unstable` on a collection of distinct keys. */
  method SortKeys(s: set<Bytes>) returns (keys: seq<Bytes>)
    ensures Sorts(keys, s)
  {
    keys := [];
    var rest := s;
    while rest != {}
      invariant rest <= s
      invariant Sorts(keys, s - rest)
      decreases |rest|
    {
      var k :| k in rest;
      var n := PartitionPoint(keys, k);
      InsertSorts(keys, s - rest, k, n);
      assert s - (rest - {k}) == s - rest + {k};
      keys := keys[..n] + [k] + keys[n..];
      rest := rest - {k};
    }
  }

  lemma InsertSorts(keys: seq<Bytes>, s: set<Bytes>, k: Bytes, n: nat)
    requires Sorts(keys, s) && k !in s && n <= |keys|
    requires forall i :: 0 <= i < n ==> !Less(k, keys[i])
    requires forall i :: n <= i < |keys| ==> Less(k, keys[i])
    ensures Sorts(keys[..n] + [k] + keys[n..], s + {k})
  {
    var longer := keys[..n] + [k] + keys[n..];
    forall i, j | 0 <= i < j < |longer| ensures Less(longer[i], longer[j]) {
      if j == n {
        assert keys[i] in keys;
        LessTotal(keys[i], k);
      } else if i != n {
        var i' := if i < n then i else i - 1;
        var j' := if j < n then j else j - 1;
        assert longer[i] == keys[i'] && longer[j] == keys[j'];
      }
    }
    forall x: Bytes ensures x in longer <==> x in s + {k} {
      assert keys == keys[..n] + keys[n..];
    }
  }

  lemma {:induction false} InsertPoint(keys: seq<Bytes>, k: Bytes) returns (n: nat)
    requires Ascending(keys)
    ensures n <= |keys|
    ensures forall i :: 0 <= i < n ==> !Less(k, keys[i])
    ensures forall i :: n <= i < |keys| ==> Less(k, keys[i])
  {
    if keys == [] {
      n := 0;
    } else if Less(k, keys[0]) {
      n := 0;
      forall i | 1 <= i < |keys| ensures Less(k, keys[i]) {
        LessTransitive(k, keys[0], keys[i]);
      }
    } else {
      var m := InsertPoint(keys[1..], k);
      n := m + 1;
      assert forall i :: 1 <= i < |keys| ==> keys[i] == keys[1..][i - 1];
    }
  }

  /** Every set of keys has a sorted listing. */
  lemma {:induction false} SortedListing(s: set<Bytes>) returns (keys: seq<Bytes>)
    ensures Sorts(keys, s)
    decreases |s|
  {
    if k :| k in s {
      var rest := SortedListing(s - {k});
      var n := InsertPoint(rest, k);
      InsertSorts(rest, s - {k}, k, n);
      keys := rest[..n] + [k] + rest[n..];
      assert s - {k} + {k} == s;
    } else {
      keys := [];
    }
  }
}
