/** The keys under which request records and their cleanup rows are stored. */
module MetadataKeys {
  import opened Common
  import opened ByteStrings
  import Radix

  const SLASH: byte := 47

  /** A string literal as its bytes. */
  function Ascii(s: string): (r: Bytes)
    requires forall i :: 0 <= i < |s| ==> s[i] < 128 as char
    ensures |r| == |s| && forall i :: 0 <= i < |s| ==> r[i] == s[i] as int
  {
    seq(|s|, i requires 0 <= i < |s| => s[i] as int)
  }

  function Namespace(prefix: Bytes, suffix: Bytes): Bytes {
    if prefix == [] then suffix else prefix + [SLASH] + suffix
  }

  // ---- Hexadecimal components ----

  function HexDigit(n: nat): (c: byte)
    requires n < 16
    ensures c != SLASH
  {
    if n < 10 then 48 + n else 87 + n
  }

  /** Two hexadecimal digits a byte, high half first. */
  function Hex(value: Bytes): (r: Bytes)
    ensures SLASH !in r
  {
    if value == [] then []
    else [HexDigit(value[0] / 16), HexDigit(value[0] % 16)] + Hex(value[1..])
  }

  /** `encode_component`. */
  method EncodeComponent(value: Bytes) returns (encoded: Bytes)
    ensures encoded == Hex(value)
  {
    encoded := [];
    for i := 0 to |value|
      invariant encoded + Hex(value[i..]) == Hex(value)
    {
      var before := encoded;
      encoded := encoded + [HexDigit(value[i] / 16)];
      encoded := encoded + [HexDigit(value[i] % 16)];
      assert value[i..][1..] == value[i + 1..];
      assert before + Hex(value[i..]) == encoded + Hex(value[i + 1..]);
    }
  }

  /** Byte by byte: two lower-case hexadecimal digits, the high half first. */
  lemma {:induction false} HexByPosition(value: Bytes, i: nat)
    requires i < |value|
    ensures |Hex(value)| == 2 * |value|
    ensures Hex(value)[2 * i] == Ascii("0123456789abcdef")[value[i] / 16]
    ensures Hex(value)[2 * i + 1] == Ascii("0123456789abcdef")[value[i] % 16]
  {
    hide Ascii;
    HexDigitIs(value[0] / 16);
    HexDigitIs(value[0] % 16);
    if |value| > 1 {
      HexByPosition(value[1..], if i > 0 then i - 1 else 0);
    }
  }

  lemma HexDigitIs(n: nat)
    requires n < 16
    ensures HexDigit(n) == Ascii("0123456789abcdef")[n]
  {}

  lemma {:induction false} HexInjective(a: Bytes, b: Bytes)
    requires Hex(a) == Hex(b)
    ensures a == b
  {
    if a == [] || b == [] {
      assert a == b;
    } else {
      assert Hex(a)[0] == Hex(b)[0] && Hex(a)[1] == Hex(b)[1];
      assert Hex(a[1..]) == Hex(a)[2..] == Hex(b)[2..] == Hex(b[1..]);
      HexInjective(a[1..], b[1..]);
      assert a == [a[0]] + a[1..] && b == [b[0]] + b[1..];
    }
  }

  // ---- Paths ----

  function Pair(a: Bytes, b: Bytes): Bytes {
    a + [SLASH] + b
  }

  lemma FirstSlash(a: Bytes, b: Bytes)
    requires SLASH !in a
    ensures |a| < |Pair(a, b)| && Pair(a, b)[|a|] == SLASH
    ensures forall i :: 0 <= i < |a| ==> Pair(a, b)[i] != SLASH
  {
    assert forall i :: 0 <= i < |a| ==> Pair(a, b)[i] == a[i];
  }

  /** Two components that hold no slash of their own can be told apart. */
  lemma PairInjective(a: Bytes, b: Bytes, a': Bytes, b': Bytes)
    requires SLASH !in a && SLASH !in a'
    requires Pair(a, b) == Pair(a', b')
    ensures a == a' && b == b'
  {
    FirstSlash(a, b);
    FirstSlash(a', b');
    var p := Pair(a, b);
    assert a == p[..|a|] && a' == p[..|a'|];
    assert b == p[|a| + 1..] == b';
  }

  lemma PrependInjective(p: Bytes, s: Bytes, t: Bytes)
    requires p + s == p + t
    ensures s == t
  {
    assert s == (p + s)[|p|..] && t == (p + t)[|p|..];
  }

  lemma NamespaceInjective(prefix: Bytes, s: Bytes, t: Bytes)
    requires Namespace(prefix, s) == Namespace(prefix, t)
    ensures s == t
  {
    if prefix != [] {
      PrependInjective(prefix + [SLASH], s, t);
    }
  }

  // ---- Request records ----

  function RequestKey(prefix: Bytes, timelineKey: Bytes, requestId: Bytes): Bytes {
    Namespace(prefix, Ascii("requests_v2/") + Pair(Hex(timelineKey), Hex(requestId)))
  }

  function LegacyRequestKey(prefix: Bytes, timelineKey: Bytes, requestId: Bytes): Bytes {
    Namespace(prefix, Ascii("requests/") + Pair(timelineKey, requestId))
  }

  /** `legacy_request_key_is_unambiguous`. */
  predicate Unambiguous(timelineKey: Bytes, requestId: Bytes) {
    SLASH !in timelineKey && SLASH !in requestId
  }

  /** Distinct (timeline, request id) pairs never share a record, whatever bytes they hold. */
  lemma RequestKeyInjective(prefix: Bytes, tk: Bytes, rid: Bytes, tk': Bytes, rid': Bytes)
    requires RequestKey(prefix, tk, rid) == RequestKey(prefix, tk', rid')
    ensures tk == tk' && rid == rid'
  {
    var a, b := Pair(Hex(tk), Hex(rid)), Pair(Hex(tk'), Hex(rid'));
    NamespaceInjective(prefix, Ascii("requests_v2/") + a, Ascii("requests_v2/") + b);
    PrependInjective(Ascii("requests_v2/"), a, b);
    PairInjective(Hex(tk), Hex(rid), Hex(tk'), Hex(rid'));
    HexInjective(tk, tk');
    HexInjective(rid, rid');
  }

  lemma LegacyAndCurrentDisjoint(prefix: Bytes, tk: Bytes, rid: Bytes, tk': Bytes, rid': Bytes)
    ensures RequestKey(prefix, tk, rid) != LegacyRequestKey(prefix, tk', rid')
  {
    hide Hex, Pair;
    var s := Ascii("requests_v2/") + Pair(Hex(tk), Hex(rid));
    var t := Ascii("requests/") + Pair(tk', rid');
    assert s[8] == '_' as int && t[8] == '/' as int;
    if RequestKey(prefix, tk, rid) == LegacyRequestKey(prefix, tk', rid') {
      NamespaceInjective(prefix, s, t);
    }
  }

  lemma LegacyKeyIsPair(prefix: Bytes, tk: Bytes, rid: Bytes, tk': Bytes, rid': Bytes)
    ensures LegacyRequestKey(prefix, tk, rid) == LegacyRequestKey(prefix, tk', rid') <==>
            Pair(tk, rid) == Pair(tk', rid')
  {
    var a, b := Pair(tk, rid), Pair(tk', rid');
    if LegacyRequestKey(prefix, tk, rid) == LegacyRequestKey(prefix, tk', rid') {
      NamespaceInjective(prefix, Ascii("requests/") + a, Ascii("requests/") + b);
      PrependInjective(Ascii("requests/"), a, b);
    }
  }

  /** No other pair is stored under this pair's legacy key. */
  ghost predicate LegacyKeyOwned(prefix: Bytes, tk: Bytes, rid: Bytes) {
    forall tk': Bytes, rid': Bytes ::
      LegacyRequestKey(prefix, tk', rid') == LegacyRequestKey(prefix, tk, rid) ==> tk' == tk && rid' == rid
  }

  /** The guard accepts exactly the pairs whose legacy key belongs to them alone. */
  lemma UnambiguousIffOwned(prefix: Bytes, tk: Bytes, rid: Bytes)
    ensures Unambiguous(tk, rid) <==> LegacyKeyOwned(prefix, tk, rid)
  {
    if Unambiguous(tk, rid) {
      forall tk': Bytes, rid': Bytes | LegacyRequestKey(prefix, tk', rid') == LegacyRequestKey(prefix, tk, rid)
        ensures tk' == tk && rid' == rid
      {
        LegacyKeyIsPair(prefix, tk', rid', tk, rid);
        SingleSlash(tk, rid, tk', rid');
      }
    } else {
      var tk', rid' := AnotherSplit(tk, rid);
      LegacyKeyIsPair(prefix, tk', rid', tk, rid);
    }
  }

  lemma SingleSlash(tk: Bytes, rid: Bytes, tk': Bytes, rid': Bytes)
    requires Unambiguous(tk, rid) && Pair(tk', rid') == Pair(tk, rid)
    ensures tk' == tk && rid' == rid
  {
    var p := Pair(tk, rid);
    assert forall i :: 0 <= i < |p| && i != |tk| ==> p[i] == (if i < |tk| then tk[i] else rid[i - |tk| - 1]);
    assert p[|tk'|] == SLASH;
    assert forall i :: 0 <= i < |tk'| ==> p[i] == tk'[i];
    assert |tk'| == |tk|;
    PairInjective(tk, rid, tk', rid');
  }

  lemma AnotherSplit(tk: Bytes, rid: Bytes) returns (tk': Bytes, rid': Bytes)
    requires !Unambiguous(tk, rid)
    ensures Pair(tk', rid') == Pair(tk, rid) && tk' != tk
  {
    if SLASH in tk {
      var i :| 0 <= i < |tk| && tk[i] == SLASH;
      tk', rid' := tk[..i], tk[i + 1..] + [SLASH] + rid;
      assert tk == tk[..i] + [SLASH] + tk[i + 1..];
    } else {
      var i :| 0 <= i < |rid| && rid[i] == SLASH;
      tk', rid' := tk + [SLASH] + rid[..i], rid[i + 1..];
      assert rid == rid[..i] + [SLASH] + rid[i + 1..];
      assert |tk'| > |tk|;
    }
  }

  // ---- Cleanup rows ----

  function Pow10(n: nat): (r: nat)
    ensures r >= 1
  {
    if n == 0 then 1 else 10 * Pow10(n - 1)
  }

  /** Zero-padded decimal digits, `{:0width}`, of a number that fits the width. */
  function Decimal(n: nat, width: nat): (r: Bytes)
    requires n < Pow10(width)
    ensures |r| == width
  {
    if width == 0 then [] else Decimal(n / 10, width - 1) + [48 + n % 10]
  }

  /** Padded numbers of one width order like the numbers. */
  lemma {:induction false} DecimalOrder(m: nat, n: nat, width: nat)
    requires m < Pow10(width) && n < Pow10(width)
    ensures Less(Decimal(m, width), Decimal(n, width)) <==> m < n
    ensures Decimal(m, width) == Decimal(n, width) ==> m == n
  {
    if width > 0 {
      var a, b := Decimal(m / 10, width - 1), Decimal(n / 10, width - 1);
      var x: byte, y: byte := 48 + m % 10, 48 + n % 10;
      DecimalOrder(m / 10, n / 10, width - 1);
      LessByHead(a, [x], b, [y]);
      assert Less([x], [y]) <==> x < y;
      assert Decimal(m, width) == Decimal(n, width) ==> a == b && x == y by {
        if Decimal(m, width) == Decimal(n, width) {
          assert a == Decimal(m, width)[..width - 1] && b == Decimal(n, width)[..width - 1];
          assert x == Decimal(m, width)[width - 1] && y == Decimal(n, width)[width - 1];
        }
      }
    }
  }

  lemma TwentyDigitsHoldU64()
    ensures U64_MAX < Pow10(20)
  {
    assert Pow10(5) == 100_000;
    assert Pow10(10) == 100_000 * Pow10(5);
    assert Pow10(15) == 100_000 * Pow10(10);
    assert Pow10(20) == 100_000 * Pow10(15);
  }

  /** The `{:020}` rendering of a `u64`. */
  function Padded(ms: u64): (r: Bytes)
    ensures |r| == 20
  {
    TwentyDigitsHoldU64();
    Decimal(ms, 20)
  }

  lemma PaddedOrder(m: u64, n: u64)
    ensures Less(Padded(m), Padded(n)) <==> m < n
    ensures Padded(m) == Padded(n) ==> m == n
  {
    TwentyDigitsHoldU64();
    DecimalOrder(m, n, 20);
  }

  function CleanupIndexPrefix(prefix: Bytes): Bytes {
    Namespace(prefix, Ascii("request_cleanup_v2/"))
  }

  function CleanupIndexCutoff(prefix: Bytes, olderThanMs: u64): Bytes {
    Namespace(prefix, Ascii("request_cleanup_v2/") + (Padded(olderThanMs) + [SLASH]))
  }

  function CleanupIndexKey(prefix: Bytes, updatedAtMs: u64, timelineKey: Bytes, requestId: Bytes): Bytes {
    Namespace(prefix,
      Ascii("request_cleanup_v2/") + (Padded(updatedAtMs) + ([SLASH] + Pair(Hex(timelineKey), Hex(requestId)))))
  }

  function LegacyCleanupIndexKey(prefix: Bytes, updatedAtMs: u64, timelineKey: Bytes, requestId: Bytes): Bytes {
    Namespace(prefix, Ascii("request_cleanup/") + (Padded(updatedAtMs) + ([SLASH] + Pair(timelineKey, requestId))))
  }

  lemma NamespaceOrder(prefix: Bytes, s: Bytes, t: Bytes)
    ensures Less(Namespace(prefix, s), Namespace(prefix, t)) == Less(s, t)
    ensures Namespace(prefix, s) <= Namespace(prefix, t) <==> s <= t
  {
    if prefix != [] {
      LessSamePrefix(prefix + [SLASH], s, t);
      var p := prefix + [SLASH];
      assert (p + t)[|p|..] == t && (p + s)[|p|..] == s;
      if |s| <= |t| {
        assert (p + t)[..|p + s|] == p + t[..|s|];
        if p + s <= p + t {
          PrependInjective(p, s, t[..|s|]);
        }
      }
    }
  }

  /** A cleanup row lies below the cutoff exactly when its record is older. */
  lemma CleanupCutoffExact(prefix: Bytes, ms: u64, tk: Bytes, rid: Bytes, olderThanMs: u64)
    ensures Less(CleanupIndexKey(prefix, ms, tk, rid), CleanupIndexCutoff(prefix, olderThanMs)) <==> ms < olderThanMs
    ensures CleanupIndexPrefix(prefix) <= CleanupIndexKey(prefix, ms, tk, rid)
  {
    hide Hex, Padded;
    var dir := Ascii("request_cleanup_v2/");
    var rest := [SLASH] + Pair(Hex(tk), Hex(rid));
    NamespaceOrder(prefix, dir + (Padded(ms) + rest), dir + (Padded(olderThanMs) + [SLASH]));
    LessSamePrefix(dir, Padded(ms) + rest, Padded(olderThanMs) + [SLASH]);
    LessByHead(Padded(ms), rest, Padded(olderThanMs), [SLASH]);
    assert !Less(rest, [SLASH]) by { assert |rest| > 0 && rest[0] == SLASH; }
    PaddedOrder(ms, olderThanMs);
    NamespaceOrder(prefix, dir, dir + (Padded(ms) + rest));
  }

  /** The written form of the request keys. */
  lemma RequestFormats(ns: Bytes, t: Bytes, r: Bytes)
    ensures RequestKey([], t, r) == Ascii("requests_v2/") + Hex(t) + Ascii("/") + Hex(r)
    ensures LegacyRequestKey([], t, r) == Ascii("requests/") + t + Ascii("/") + r
    ensures ns != [] ==> RequestKey(ns, t, r) == ns + Ascii("/") + RequestKey([], t, r)
    ensures ns != [] ==> LegacyRequestKey(ns, t, r) == ns + Ascii("/") + LegacyRequestKey([], t, r)
  {
    hide Hex;
    assert Ascii("/") == [SLASH];
  }

  /** The written form of the cleanup keys. */
  lemma CleanupFormats(ms: u64, t: Bytes, r: Bytes)
    ensures CleanupIndexPrefix([]) == Ascii("request_cleanup_v2/")
    ensures CleanupIndexCutoff([], ms) == Ascii("request_cleanup_v2/") + Padded(ms) + Ascii("/")
    ensures CleanupIndexKey([], ms, t, r) == CleanupIndexCutoff([], ms) + Hex(t) + Ascii("/") + Hex(r)
    ensures LegacyCleanupIndexKey([], ms, t, r) ==
            Ascii("request_cleanup/") + Padded(ms) + Ascii("/") + t + Ascii("/") + r
  {
    hide Padded, Hex;
    assert Ascii("/") == [SLASH];
  }

  /** Padding is decimal: the last digit is the remainder by ten, and nothing but zeros comes before the number. */
  lemma {:induction false} DecimalDigit(n: nat, width: nat, i: nat)
    requires n < Pow10(width) && i < width
    ensures Decimal(n, width)[width - 1 - i] == 48 + (n / Pow10(i)) % 10
  {
    if i > 0 {
      DecimalDigit(n / 10, width - 1, i - 1);
      DivTen(n, Pow10(i - 1));
    }
  }

  lemma DivTen(n: nat, p: nat)
    requires p >= 1
    ensures n / 10 / p == n / (10 * p)
  {
    var q := n / 10 / p;
    assert q * p <= n / 10 < q * p + p;
    assert 10 * (q * p) <= n < 10 * (q * p) + 10 * p;
    Quotient(n, 10 * p, q);
  }

  lemma Quotient(n: nat, d: nat, q: nat)
    requires d >= 1 && q * d <= n < q * d + d
    ensures n / d == q
  {
    Radix.DivModOf(q, n - q * d, d);
    Radix.DivIsQuotient(n, d);
  }

  /** Rows of older records come first. */
  lemma CleanupOrder(prefix: Bytes, ms: u64, tk: Bytes, rid: Bytes, ms': u64, tk': Bytes, rid': Bytes)
    requires Less(CleanupIndexKey(prefix, ms, tk, rid), CleanupIndexKey(prefix, ms', tk', rid'))
    ensures ms <= ms'
  {
    hide Hex, Padded;
    var dir := Ascii("request_cleanup_v2/");
    var rest, rest' := [SLASH] + Pair(Hex(tk), Hex(rid)), [SLASH] + Pair(Hex(tk'), Hex(rid'));
    NamespaceOrder(prefix, dir + (Padded(ms) + rest), dir + (Padded(ms') + rest'));
    LessSamePrefix(dir, Padded(ms) + rest, Padded(ms') + rest');
    LessByHead(Padded(ms), rest, Padded(ms'), rest');
    PaddedOrder(ms, ms');
  }

  /** A row names one record at one time. */
  lemma CleanupInjective(prefix: Bytes, ms: u64, tk: Bytes, rid: Bytes, ms': u64, tk': Bytes, rid': Bytes)
    requires CleanupIndexKey(prefix, ms, tk, rid) == CleanupIndexKey(prefix, ms', tk', rid')
    ensures ms == ms' && tk == tk' && rid == rid'
  {
    hide Hex, Padded;
    var dir := Ascii("request_cleanup_v2/");
    var pair, pair' := Pair(Hex(tk), Hex(rid)), Pair(Hex(tk'), Hex(rid'));
    var s, t := Padded(ms) + ([SLASH] + pair), Padded(ms') + ([SLASH] + pair');
    NamespaceInjective(prefix, dir + s, dir + t);
    PrependInjective(dir, s, t);
    assert s[..20] == Padded(ms) && t[..20] == Padded(ms');
    PaddedOrder(ms, ms');
    assert s[21..] == pair && t[21..] == pair';
    PairInjective(Hex(tk), Hex(rid), Hex(tk'), Hex(rid'));
    HexInjective(tk, tk');
    HexInjective(rid, rid');
  }

  /** Legacy rows lie outside the range the cleanup scan reads. */
  lemma LegacyCleanupOutside(prefix: Bytes, ms: u64, tk: Bytes, rid: Bytes)
    ensures !(CleanupIndexPrefix(prefix) <= LegacyCleanupIndexKey(prefix, ms, tk, rid))
  {
    hide Padded, Pair;
    var s := Ascii("request_cleanup/") + (Padded(ms) + ([SLASH] + Pair(tk, rid)));
    var dir := Ascii("request_cleanup_v2/");
    NamespaceOrder(prefix, dir, s);
    assert s[15] == '/' as int && dir[15] == '_' as int;
  }
}
