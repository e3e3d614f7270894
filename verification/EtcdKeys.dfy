/** The two key computations etcd range requests rely on. */
module EtcdKeys {
  import opened ByteStrings

  predicate HasPrefix(key: Bytes, prefix: Bytes) {
    prefix <= key
  }

  /**
   * The keys an etcd range request `[start, end)` selects; the one-byte end
   * `[0]` means "no upper bound".
   */
  predicate InRange(key: Bytes, start: Bytes, end: Bytes) {
    !Less(key, start) && (end == [0] || Less(key, end))
  }

  predicate AllMax(p: Bytes) {
    forall i :: 0 <= i < |p| ==> p[i] == 255
  }

  /** The range end read from the front: the last byte below 255, plus one, closes the prefix. */
  ghost function RangeEnd(p: Bytes): Bytes {
    if AllMax(p) then [0]
    else if AllMax(p[1..]) then [p[0] + 1]
    else [p[0]] + RangeEnd(p[1..])
  }

  lemma {:induction false} RangeEndBounded(p: Bytes)
    ensures RangeEnd(p) == [0] <==> AllMax(p)
    ensures |RangeEnd(p)| > 0
  {
    if !AllMax(p) && !AllMax(p[1..]) {
      RangeEndBounded(p[1..]);
    }
  }

  /** Exactly the keys that carry the prefix are selected. */
  lemma {:induction false} RangeSelectsPrefix(key: Bytes, prefix: Bytes)
    ensures InRange(key, prefix, RangeEnd(prefix)) <==> HasPrefix(key, prefix)
  {
    RangeEndBounded(prefix);
    if |prefix| > 0 && |key| > 0 {
      RangeSelectsPrefix(key[1..], prefix[1..]);
      RangeEndBounded(prefix[1..]);
      assert HasPrefix(key, prefix) <==> key[0] == prefix[0] && HasPrefix(key[1..], prefix[1..]) by {
        assert key == [key[0]] + key[1..] && prefix == [prefix[0]] + prefix[1..];
      }
      if AllMax(prefix[1..]) && !AllMax(prefix) {
        assert !Less(key, [prefix[0] + 1]) <==> key[0] > prefix[0];
      } else if !AllMax(prefix) {
        var end := RangeEnd(prefix);
        assert end[1..] == RangeEnd(prefix[1..]);
      }
    }
  }

  /** `prefix_range_end`: walks back over 255s, then bumps a byte and truncates after it. */
  method PrefixRangeEnd(prefix: Bytes) returns (end: Bytes)
    ensures forall key: Bytes :: InRange(key, prefix, end) <==> HasPrefix(key, prefix)
  {
    end := prefix;
    var index := |end|;
    while index > 0
      invariant 0 <= index <= |prefix|
      invariant end == prefix
      invariant AllMax(prefix[index..])
    {
      index := index - 1;
      if end[index] < 255 {
        end := end[index := end[index] + 1];
        end := end[..index + 1];
        BumpIsRangeEnd(prefix, index);
        assert end == prefix[..index] + [prefix[index] + 1];
        forall key: Bytes ensures InRange(key, prefix, end) <==> HasPrefix(key, prefix) {
          RangeSelectsPrefix(key, prefix);
        }
        return;
      }
      assert prefix[index..] == [prefix[index]] + prefix[index + 1..];
    }
    end := [0];
    assert prefix[0..] == prefix;
    forall key: Bytes ensures InRange(key, prefix, end) <==> HasPrefix(key, prefix) {
      RangeSelectsPrefix(key, prefix);
    }
  }

  lemma {:induction false} BumpIsRangeEnd(p: Bytes, index: nat)
    requires index < |p| && p[index] < 255 && AllMax(p[index + 1..])
    ensures RangeEnd(p) == p[..index] + [p[index] + 1]
  {
    assert !AllMax(p);
    if index == 0 {
      assert p[..0] + [p[0] + 1] == [p[0] + 1];
    } else {
      assert p[1..][index - 1 + 1..] == p[index + 1..];
      assert p[1..][index - 1] == p[index];
      BumpIsRangeEnd(p[1..], index - 1);
      assert p[..index] == [p[0]] + p[1..][..index - 1];
    }
  }

  /** `next_etcd_key_after`: a range starting at the result selects exactly the keys past `key`. */
  method NextEtcdKeyAfter(key: Bytes) returns (next: Bytes)
    ensures forall other: Bytes :: !Less(other, next) <==> Less(key, other)
  {
    next := key + [0];
    forall other: Bytes ensures !Less(other, next) <==> Less(key, other) {
      NoKeyBetween(key, other);
    }
  }

  lemma {:induction false} NoKeyBetween(key: Bytes, other: Bytes)
    ensures !Less(other, key + [0]) <==> Less(key, other)
  {
    if |key| > 0 && |other| > 0 {
      NoKeyBetween(key[1..], other[1..]);
      assert (key + [0])[1..] == key[1..] + [0];
    }
  }

  /**
   * A key range scanned in two requests, the second starting after the first
   * one's last key, is the whole range with nothing read twice.
   */
  lemma ResumedScanSplits(key: Bytes, start: Bytes, end: Bytes, last: Bytes)
    requires !Less(last, start)
    ensures InRange(key, start, end) <==>
            (InRange(key, start, end) && !Less(last, key)) || InRange(key, last + [0], end)
    ensures !(!Less(last, key) && InRange(key, last + [0], end))
  {
    NoKeyBetween(last, key);
    if InRange(key, last + [0], end) && Less(key, start) {
      LessTransitive(last, key, start);
    }
  }
}
