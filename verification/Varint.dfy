/**
 Base 128 varints (Protocol Buffers Encoding guide, "Base 128 Varints"): the encoding, a
 reader that accepts overlong forms, the runtime's carry-cancelling read loops, and the
 multiply-and-shift size formula.
 */
module Varint {
  import opened Bytes
  import opened Wrappers

  function Encode(v: nat): (s: bytes)
    ensures |s| > 0
  {
    if v < 128 then [v] else [128 + v % 128] + Encode(v / 128)
  }

  /** Reads at most `limit` bytes: the value, unreduced, and the number of bytes used. */
  function Scan(s: bytes, limit: nat): (r: Option<(nat, nat)>)
    ensures r.Some? ==> 0 < r.value.1 <= limit && r.value.1 <= |s|
  {
    if limit == 0 || s == [] then None
    else if s[0] < 128 then Some((s[0], 1))
    else
      match Scan(s[1..], limit - 1)
      case None => None
      case Some((v, n)) => Some((s[0] - 128 + 128 * v, n + 1))
  }

  function Pow128(i: nat): (p: nat)
    ensures p > 0
  {
    if i == 0 then 1 else 128 * Pow128(i - 1)
  }

  /** `b` shifted left by seven times `i` bits. */
  function Shifted(b: int, i: nat): int { b * Pow128(i) }

  /** What the first `i` bytes contribute when all of them carry the continuation bit. */
  ghost function Prefix(s: bytes, i: nat): nat
    requires i <= |s| && forall j :: 0 <= j < i ==> s[j] >= 128
  {
    if i == 0 then 0 else Prefix(s, i - 1) + (s[i - 1] - 128) * Pow128(i - 1)
  }

  // ---- Encoding and reading ----

  lemma {:induction false} EncodeLength(v: nat, k: nat)
    requires 0 < k
    ensures v < Pow128(k) <==> |Encode(v)| <= k
    decreases k
  {
    assert Pow128(1) == 128 by { assert Pow128(0) == 1; }
    if v < 128 {
      Pow128Grows(1, k);
    } else if k > 1 {
      EncodeLength(v / 128, k - 1);
    }
  }

  lemma {:induction false} Pow128Grows(i: nat, j: nat)
    requires i <= j
    ensures Pow128(i) <= Pow128(j)
    decreases j - i
  {
    if i == j {
    } else {
      Pow128Grows(i, j - 1);
    }
  }

  /** Reading undoes writing whatever follows, for every limit the encoding fits in. */
  lemma {:induction false} ScanEncode(v: nat, rest: bytes, limit: nat)
    requires |Encode(v)| <= limit
    ensures Scan(Encode(v) + rest, limit) == Some((v, |Encode(v)|))
    decreases v
  {
    var s := Encode(v) + rest;
    if v < 128 {
      assert s[0] == v;
    } else {
      ScanEncode(v / 128, rest, limit - 1);
      assert s[1..] == Encode(v / 128) + rest;
      assert s[0] == 128 + v % 128;
    }
  }

  /** The canonical form is the shortest: an accepted varint is at least as long. */
  lemma {:induction false} ScanIsLonger(s: bytes, limit: nat)
    requires Scan(s, limit).Some?
    ensures |Encode(Scan(s, limit).value.0)| <= Scan(s, limit).value.1
    decreases limit
  {
    if s[0] < 128 {
      assert |Encode(s[0])| == 1;
    } else {
      ScanIsLonger(s[1..], limit - 1);
      var v := Scan(s[1..], limit - 1).value.0;
      var w := s[0] - 128 + 128 * v;
      assert w / 128 == v;
    }
  }

  /** What follows a complete varint does not change how it is read. */
  lemma {:induction false} ScanExtend(s: bytes, t: bytes, limit: nat)
    requires Scan(s, limit).Some?
    ensures Scan(s + t, limit) == Scan(s, limit)
    decreases limit
  {
    if s[0] < 128 {
      assert (s + t)[0] == s[0];
    } else {
      assert (s + t)[1..] == s[1..] + t;
      ScanExtend(s[1..], t, limit - 1);
    }
  }

  /** Reducing the value cannot lengthen its encoding. */
  lemma {:induction false} EncodeMonotone(a: nat, b: nat)
    requires a <= b
    ensures |Encode(a)| <= |Encode(b)|
    decreases b
  {
    if a < 128 {
    } else {
      EncodeMonotone(a / 128, b / 128);
    }
  }

  lemma EncodeLengths()
    ensures forall v: nat | v < 0x8000_0000 :: |Encode(v)| <= 5
    ensures forall v: nat | v < 0x1_0000_0000 :: |Encode(v)| <= 5
    ensures forall v: nat | v < 0x1_0000_0000_0000_0000 :: |Encode(v)| <= 10
  {
    assert Pow128(5) == 0x8_0000_0000 by { PowValues(); }
    assert Pow128(10) >= 0x1_0000_0000_0000_0000 by { PowValues(); }
    forall v: nat | v < 0x1_0000_0000 ensures |Encode(v)| <= 5 { EncodeLength(v, 5); }
    forall v: nat | v < 0x1_0000_0000_0000_0000 ensures |Encode(v)| <= 10 { EncodeLength(v, 10); }
  }

  lemma PowValues()
    ensures Pow128(1) == 0x80 && Pow128(2) == 0x4000 && Pow128(3) == 0x20_0000
    ensures Pow128(4) == 0x1000_0000 && Pow128(5) == 0x8_0000_0000
    ensures Pow128(9) == 0x1000_0000 * 0x8_0000_0000
    ensures Pow128(10) == 0x8_0000_0000 * 0x8_0000_0000
  {
    assert Pow128(0) == 1;
    assert Pow128(1) == 0x80;
    assert Pow128(2) == 0x4000;
    assert Pow128(3) == 0x20_0000;
    assert Pow128(4) == 0x1000_0000;
    assert Pow128(5) == 0x8_0000_0000;
    assert Pow128(6) == 128 * 0x8_0000_0000;
    assert Pow128(7) == 0x4000 * 0x8_0000_0000;
    assert Pow128(8) == 0x20_0000 * 0x8_0000_0000;
    assert Pow128(9) == 0x1000_0000 * 0x8_0000_0000;
  }

  /**
   Seven bits to a byte, the least significant first; all bytes but the last carry the
   continuation bit.
   */
  lemma {:induction false} EncodeIsBase128(v: nat, i: nat)
    requires i < |Encode(v)|
    ensures Encode(v)[i] == v / Pow128(i) % 128 + if i + 1 < |Encode(v)| then 128 else 0
    decreases v
  {
    if i == 0 {
      assert Pow128(0) == 1;
    } else {
      EncodeIsBase128(v / 128, i - 1);
      DivideTwice(v, Pow128(i - 1));
    }
  }

  lemma DivideTwice(v: nat, p: nat)
    requires p > 0
    ensures v / 128 / p == v / (128 * p)
  {
    var q: nat, r: nat := v / 128 / p, v / 128 % p;
    var d := v % 128;
    assert v / 128 == p * q + r;
    assert v == 128 * (p * q + r) + d;
    assert 128 * (p * q) == (128 * p) * q;
    assert v == (128 * p) * q + (128 * r + d);
    assert 0 <= 128 * r + d < 128 * p;
    QuotientIs(v, 128 * p, q, 128 * r + d);
  }

  lemma QuotientIs(v: nat, n: nat, q: nat, r: nat)
    requires r < n && v == n * q + r
    ensures v / n == q
  {
    var d: int := v / n - q;
    assert n * d == n * (v / n) - n * q == r - v % n;
    Multiple(n, d);
  }

  lemma Multiple(n: int, d: int)
    requires n >= 0
    ensures d >= 1 ==> n * d >= n
    ensures d <= -1 ==> n * d <= -n
  {
    assert n * d == n + n * (d - 1) == n * (d + 1) - n;
  }

  /** The first example of the Encoding guide, section "Base 128 Varints", and the longest form. */
  lemma VarintExamples(n: int32)
    ensures Encode(1) == [0x01] && Encode(150) == [0x96, 0x01]
    ensures n < 0 ==> SignExtend(n) == 0x1_0000_0000_0000_0000 + n && |Encode(SignExtend(n))| == 10
  {
    assert Encode(1) == [1];
    if n < 0 {
      PowValues();
      EncodeLength(SignExtend(n), 9);
      EncodeLength(SignExtend(n), 10);
    }
  }

  // ---- The runtime's read loops ----

  /** A read that has consumed `i` continuation bytes is a read of the rest, scaled. */
  lemma {:induction false} ScanSplit(s: bytes, i: nat, limit: nat)
    requires i <= limit && i <= |s| && forall j :: 0 <= j < i ==> s[j] >= 128
    ensures Scan(s, limit) ==
            match Scan(s[i..], limit - i)
            case None => None
            case Some((v, n)) => Some((Prefix(s, i) + v * Pow128(i), n + i))
    decreases i
  {
    if i == 0 {
      assert s[0..] == s;
    } else {
      ScanSplit(s, i - 1, limit);
      var t := s[i - 1..];
      assert t[1..] == s[i..];
      match Scan(s[i..], limit - i)
      case None =>
      case Some((v, n)) =>
        Carry(s[i - 1], v, Pow128(i - 1));
    }
  }

  /**
   What a varint counts for, minimal or not: the seven low bits of each byte, scaled by its place.
   There is none if no byte within the limit ends it.
   */
  lemma ScanIsSum(s: bytes, i: nat, limit: nat)
    requires i <= limit && i <= |s| && forall j :: 0 <= j < i ==> s[j] >= 128
    ensures i == limit || i == |s| ==> Scan(s, limit).None?
    ensures i < limit && i < |s| && s[i] < 128 ==> Scan(s, limit) == Some((Prefix(s, i) + s[i] * Pow128(i), i + 1))
  {
    ScanSplit(s, i, limit);
  }

  lemma Carry(b: int, v: int, p: int)
    ensures (b - 128 + 128 * v) * p == (b - 128) * p + v * (128 * p)
  {
  }

  /**
   What one turn of the loop does: the accumulator holds the prefix plus the last
   continuation bit still in it; adding (b - 1) shifted takes that bit out again.
   */
  lemma CarryStep(s: bytes, i: nat, res: int, wide: bool)
    requires i < |s| && forall j :: 0 <= j < i ==> s[j] >= 128
    requires Reduce(res, wide) == Reduce(Prefix(s, i) + Pow128(i), wide)
    ensures Reduce(res + Shifted(s[i] as int - 1, i), wide) == Reduce(Prefix(s, i) + s[i] * Pow128(i), wide)
    ensures s[i] >= 128 ==> Prefix(s, i) + s[i] * Pow128(i) == Prefix(s, i + 1) + Pow128(i + 1)
  {
    var p := Pow128(i);
    var x := (s[i] as int - 1) * p;
    assert x == s[i] * p - p;
    ReduceSum(res, Prefix(s, i) + p, x, wide);
    if s[i] >= 128 {
      assert (s[i] - 128) * p == s[i] * p - 128 * p;
    }
  }

  lemma ReduceSum(a: int, b: int, x: int, wide: bool)
    requires Reduce(a, wide) == Reduce(b, wide)
    ensures Reduce(a + x, wide) == Reduce(b + x, wide)
  {
    if wide {
      var k := a / 0x1_0000_0000_0000_0000 - b / 0x1_0000_0000_0000_0000;
      assert a + x == b + x + 0x1_0000_0000_0000_0000 * k;
    } else {
      var k := a / 0x1_0000_0000 - b / 0x1_0000_0000;
      assert a + x == b + x + 0x1_0000_0000 * k;
    }
  }

  // ---- The runtime's reading routines, over a position in a buffer ----

  /** What remains of a number in an unsigned 64-bit or 32-bit accumulator. */
  function Reduce(x: int, wide: bool): uint64 {
    if wide then x % 0x1_0000_0000_0000_0000 else x % 0x1_0000_0000
  }

  /** `next` and `value` report the varint of at most `limit` bytes that starts at `p`. */
  ghost predicate Reads(s: bytes, p: nat, limit: nat, wide: bool, next: int, value: int)
    requires p <= |s|
  {
    match Scan(s[p..], limit)
    case None => next == -1
    case Some((v, n)) => next == p + n && value == Reduce(v, wide)
  }

  /** The accumulator after `i` continuation bytes: their sum and the last continuation bit. */
  ghost predicate Accumulated(t: bytes, i: nat, res: int, wide: bool)
  {
    && i <= |t|
    && (forall j :: 0 <= j < i ==> t[j] >= 128)
    && Reduce(res, wide) == Reduce(Prefix(t, i) + Pow128(i), wide)
  }

  lemma LastByte(t: bytes, i: nat, limit: nat, res: int, wide: bool)
    requires i < limit && i < |t| && t[i] < 128 && Accumulated(t, i, res, wide)
    ensures Scan(t, limit).Some? && Scan(t, limit).value.1 == i + 1
    ensures Reduce(Scan(t, limit).value.0, wide) == Reduce(res + Shifted(t[i] as int - 1, i), wide)
  {
    CarryStep(t, i, res, wide);
    ScanSplit(t, i, limit);
  }

  lemma NextByte(t: bytes, i: nat, res: int, wide: bool)
    requires i < |t| && t[i] >= 128 && Accumulated(t, i, res, wide)
    ensures Accumulated(t, i + 1, Reduce(res + Shifted(t[i] as int - 1, i), wide), wide)
  {
    CarryStep(t, i, res, wide);
    var x := Shifted(t[i] as int - 1, i);
    var a := Prefix(t, i) + t[i] * Pow128(i);
    Accumulate(t, i + 1, res + x, a, wide);
  }

  lemma Accumulate(t: bytes, i: nat, x: int, a: int, wide: bool)
    requires i <= |t| && forall j :: 0 <= j < i ==> t[j] >= 128
    requires a == Prefix(t, i) + Pow128(i) && Reduce(x, wide) == Reduce(a, wide)
    ensures Accumulated(t, i, Reduce(x, wide), wide)
  {
    ReduceTwice(x, wide);
  }

  lemma ReduceTwice(x: int, wide: bool)
    ensures Reduce(Reduce(x, wide), wide) == Reduce(x, wide)
  {
  }

  lemma RunsOut(t: bytes, i: nat, limit: nat)
    requires i <= limit && i <= |t| && (i == limit || i == |t|)
    requires forall j :: 0 <= j < i ==> t[j] >= 128
    ensures Scan(t, limit).None?
  {
    ScanSplit(t, i, limit);
  }

  method ReadTagFallback(s: bytes, p: nat, first: uint32) returns (next: int, value: uint32)
    requires p + 2 <= |s| && Accumulated(s[p..], 2, first, false)
    ensures Reads(s, p, 5, false, next, value)
  {
    hide Scan;
    ghost var t := s[p..];
    var res: uint32 := first;
    for i := 2 to 5
      invariant p + i <= |s| && Accumulated(t, i, res, false)
    {
      if p + i >= |s| {
        RunsOut(t, i, 5);
        return -1, 0;
      }
      var byte := s[p + i];
      var sum := Reduce(res + Shifted(byte as int - 1, i), false);
      if byte < 128 {
        LastByte(t, i, 5, res, false);
        return p + i + 1, sum;
      }
      NextByte(t, i, res, false);
      res := sum;
    }
    RunsOut(t, 5, 5);
    return -1, 0;
  }

  /** A tag: at most five bytes, reduced to 32 bits. */
  method ReadTag(s: bytes, p: nat) returns (next: int, value: uint32)
    requires p <= |s|
    ensures Reads(s, p, 5, false, next, value)
  {
    var res: uint32;
    next, res := FirstTwo(s, p, 5);
    if next != -2 { return next, res; }
    next, value := ReadTagFallback(s, p, res);
  }

  lemma FirstByte(t: bytes, limit: nat, wide: bool)
    requires t != [] && limit > 0
    ensures t[0] < 128 ==> Scan(t, limit) == Some((t[0], 1)) && Reduce(t[0], wide) == t[0]
    ensures t[0] >= 128 ==> Accumulated(t, 1, t[0], wide)
  {
    if t[0] >= 128 {
      assert Prefix(t, 0) == 0;
      PowValues();
    }
  }

  /** The two-byte fast path all readers share; -2 asks for the slow path. */
  method FirstTwo(s: bytes, p: nat, ghost limit: nat) returns (next: int, value: uint32)
    requires p <= |s| && limit >= 2
    ensures next != -2 ==> Reads(s, p, limit, false, next, value)
    ensures next != -2 && next != -1 ==> Reads(s, p, limit, true, next, value)
    ensures next == -2 ==> p + 2 <= |s| && Accumulated(s[p..], 2, value, false)
                           && Accumulated(s[p..], 2, value, true)
  {
    hide Prefix, Pow128, Scan, Accumulated;
    ghost var t := s[p..];
    if p == |s| {
      RunsOut(t, 0, limit);
      return -1, 0;
    }
    assert t[0] == s[p];
    FirstByte(t, limit, false);
    FirstByte(t, limit, true);
    if s[p] < 128 { return p + 1, s[p]; }
    if p + 1 == |s| {
      RunsOut(t, 1, limit);
      return -1, 0;
    }
    var sum := s[p] as int + (s[p + 1] as int - 1) * 128;
    assert t[1] == s[p + 1] && Pow128(1) == 128 by { PowValues(); }
    assert 0 <= sum < 0x1_0000_0000;
    if s[p + 1] < 128 {
      LastByte(t, 1, limit, s[p], false);
      LastByte(t, 1, limit, s[p], true);
      return p + 2, sum;
    }
    NextByte(t, 1, s[p], false);
    NextByte(t, 1, s[p], true);
    return -2, sum;
  }

  method VarintParseSlow32(s: bytes, p: nat, first: uint32) returns (next: int, value: uint32)
    requires p + 2 <= |s| && Accumulated(s[p..], 2, first, false)
    ensures Reads(s, p, 10, false, next, value)
  {
    hide Scan;
    ghost var t := s[p..];
    var res: uint32 := first;
    for i := 2 to 5
      invariant p + i <= |s| && Accumulated(t, i, res, false)
    {
      if p + i >= |s| {
        RunsOut(t, i, 10);
        return -1, 0;
      }
      var byte := s[p + i];
      var sum := Reduce(res + Shifted(byte as int - 1, i), false);
      if byte < 128 {
        LastByte(t, i, 10, res, false);
        return p + i + 1, sum;
      }
      NextByte(t, i, res, false);
      res := sum;
    }
    // Bytes past the fifth only carry bits beyond the thirty-second.
    for i := 5 to 10
      invariant p + i <= |s| && Accumulated(t, i, res, false)
    {
      if p + i >= |s| {
        RunsOut(t, i, 10);
        return -1, 0;
      }
      var byte := s[p + i];
      HighBits(res, byte as int - 1, i);
      if byte < 128 {
        LastByte(t, i, 10, res, false);
        return p + i + 1, res;
      }
      NextByte(t, i, res, false);
    }
    RunsOut(t, 10, 10);
    return -1, 0;
  }

  lemma {:induction false} HighBits(res: uint32, b: int, i: nat)
    requires i >= 5
    ensures Reduce(res + Shifted(b, i), false) == res
  {
    var k := HighPower(i);
    assert b * Pow128(i) == (b * k) * 0x1_0000_0000;
  }

  lemma {:induction false} HighPower(i: nat) returns (k: nat)
    requires i >= 5
    ensures Pow128(i) == k * 0x1_0000_0000
    decreases i
  {
    if i == 5 {
      PowValues();
      k := 8;
    } else {
      var k' := HighPower(i - 1);
      k := 128 * k';
    }
  }

  method VarintParseSlow64(s: bytes, p: nat, first: uint32) returns (next: int, value: uint64)
    requires p + 2 <= |s| && Accumulated(s[p..], 2, first, true)
    ensures Reads(s, p, 10, true, next, value)
  {
    hide Scan;
    ghost var t := s[p..];
    var res: uint64 := first;
    for i := 2 to 10
      invariant p + i <= |s| && Accumulated(t, i, res, true)
    {
      if p + i >= |s| {
        RunsOut(t, i, 10);
        return -1, 0;
      }
      var byte := s[p + i];
      var sum := Reduce(res + Shifted(byte as int - 1, i), true);
      if byte < 128 {
        LastByte(t, i, 10, res, true);
        return p + i + 1, sum;
      }
      NextByte(t, i, res, true);
      res := sum;
    }
    RunsOut(t, 10, 10);
    return -1, 0;
  }

  method ReadVarint32(s: bytes, p: nat) returns (next: int, value: uint32)
    requires p <= |s|
    ensures Reads(s, p, 10, false, next, value)
  {
    var res: uint32;
    next, res := FirstTwo(s, p, 10);
    if next != -2 { return next, res; }
    next, value := VarintParseSlow32(s, p, res);
  }

  method ReadVarint64(s: bytes, p: nat) returns (next: int, value: uint64)
    requires p <= |s|
    ensures Reads(s, p, 10, true, next, value)
  {
    var res: uint32;
    next, res := FirstTwo(s, p, 10);
    if next != -2 { return next, res; }
    next, value := VarintParseSlow64(s, p, res);
  }

  // ---- Sizes of length-delimited data ----

  /** INT_MAX less the sixteen bytes by which the runtime may read past a buffer. */
  const MAX_SIZE: nat := 0x7FFF_FFFF - 16

  /** A length prefix: at most five bytes, and not above MAX_SIZE. */
  function ScanSize(s: bytes): (r: Option<(nat, nat)>)
    ensures r.Some? ==> r.value.0 <= MAX_SIZE && 0 < r.value.1 <= |s|
  {
    match Scan(s, 5)
    case None => None
    case Some((v, n)) => if v <= MAX_SIZE then Some((v, n)) else None
  }

  /** A length of up to five bytes is its sum, refused above INT_MAX - 16. */
  lemma SizeRule(s: bytes, i: nat)
    requires i <= 5 && i <= |s| && forall j :: 0 <= j < i ==> s[j] >= 128
    ensures i == 5 || i == |s| ==> ScanSize(s).None?
    ensures i < 5 && i < |s| && s[i] < 128 ==>
              var v := Prefix(s, i) + s[i] * Pow128(i);
              ScanSize(s) == if v <= 2147483647 - 16 then Some((v, i + 1)) else None
  {
    hide Scan, Prefix;
    ScanIsSum(s, i, 5);
  }

  ghost predicate ReadsSize(s: bytes, p: nat, next: int, value: int)
    requires p <= |s|
  {
    match ScanSize(s[p..])
    case None => next == -1
    case Some((v, n)) => next == p + n && value == v
  }

  method ReadSizeFallback(s: bytes, p: nat) returns (next: int, value: nat)
    requires p < |s| && s[p] >= 128
    ensures ReadsSize(s, p, next, value)
  {
    hide Scan;
    ghost var t := s[p..];
    var res: uint32 := s[p];
    assert Accumulated(t, 1, res, false) by {
      assert Prefix(t, 0) == 0;
      PowValues();
    }
    for i := 1 to 4
      invariant p + i <= |s| && Accumulated(t, i, res, false)
    {
      if p + i >= |s| {
        RunsOut(t, i, 5);
        return -1, 0;
      }
      var byte := s[p + i];
      var sum := Reduce(res + Shifted(byte as int - 1, i), false);
      if byte < 128 {
        LastByte(t, i, 5, res, false);
        SmallSize(t, 5);
        return p + i + 1, sum;
      }
      NextByte(t, i, res, false);
      res := sum;
    }
    if p + 4 >= |s| {
      RunsOut(t, 4, 5);
      return -1, 0;
    }
    var byte := s[p + 4];
    if byte >= 8 {
      FifthByte(t);
      return -1, 0;
    }
    LastSizeByte(t, res);
    res := Reduce(res + Shifted(byte as int - 1, 4), false);
    if res > 0x7FFF_FFFF - 16 { return -1, 0; }
    return p + 5, res;
  }

  lemma LastSizeByte(t: bytes, res: uint32)
    requires |t| >= 5 && t[4] < 8 && Accumulated(t, 4, res, false)
    ensures Scan(t, 5) == Some((Reduce(res + Shifted(t[4] as int - 1, 4), false), 5))
  {
    FifthByte(t);
    LastByte(t, 4, 5, res, false);
  }

  /** Sizes of up to four bytes are below the cap. */
  lemma SmallSize(t: bytes, limit: nat)
    requires Scan(t, limit).Some? && Scan(t, limit).value.1 <= 4
    ensures Scan(t, limit).value.0 < 0x1000_0000
  {
    ShortScan(t, 4, limit);
    PowValues();
  }

  /** A fifth byte of eight or more, a continuation bit included, exceeds the cap. */
  lemma FifthByte(t: bytes)
    requires |t| >= 5 && forall j :: 0 <= j < 4 ==> t[j] >= 128
    ensures t[4] >= 8 ==> ScanSize(t).None?
    ensures t[4] < 8 ==> Scan(t, 5).Some? && Scan(t, 5).value.0 < 0x8000_0000
  {
    ScanSplit(t, 4, 5);
    PowValues();
    PrefixBound(t, 4);
    if t[4] >= 128 {
      assert Scan(t[4..][1..], 0).None?;
    } else {
      assert Scan(t[4..], 1) == Some((t[4], 1));
    }
  }

  lemma {:induction false} PrefixBound(t: bytes, i: nat)
    requires i <= |t| && forall j :: 0 <= j < i ==> t[j] >= 128
    ensures Prefix(t, i) < Pow128(i)
  {
    if i == 0 {
    } else {
      PrefixBound(t, i - 1);
      TimesAtMost(t[i - 1] - 128, 127, Pow128(i - 1));
    }
  }

  lemma TimesAtMost(a: nat, b: nat, p: nat)
    requires a <= b
    ensures a * p <= b * p
  {
    assert (b - a) * p == b * p - a * p;
  }

  lemma {:induction false} ShortScan(t: bytes, k: nat, limit: nat)
    requires Scan(t, limit).Some? && Scan(t, limit).value.1 <= k
    ensures Scan(t, limit).value.0 < Pow128(k)
    decreases limit
  {
    if t[0] < 128 {
      Pow128Grows(1, k);
      PowValues();
    } else {
      ShortScan(t[1..], k - 1, limit - 1);
    }
  }

  method ReadSize(s: bytes, p: nat) returns (next: int, value: nat)
    requires p <= |s|
    ensures ReadsSize(s, p, next, value)
  {
    if p == |s| { return -1, 0; }
    if s[p] < 128 { return p + 1, s[p]; }
    next, value := ReadSizeFallback(s, p);
  }

  /** The appending writer of unknown fields: low seven bits first, `val |= 0x80` while more remain. */
  method WriteVarint(value: uint64, s: bytes) returns (out: bytes)
    ensures out == s + Encode(value)
  {
    var val := value;
    out := s;
    while val >= 128
      invariant val >= 0 && out + Encode(val) == s + Encode(value)
    {
      out := out + [128 + val % 128];
      val := val / 128;
    }
    out := out + [val];
  }

  // ---- The size formula ----

  function Log2Floor(v: nat): nat
    requires v > 0
  {
    if v == 1 then 0 else 1 + Log2Floor(v / 2)
  }

  /** value | 1 for an unsigned value. */
  function OrOne(v: nat): nat { if v % 2 == 0 then v + 1 else v }

  function VarintSize(v: uint64): nat {
    (Log2Floor(OrOne(v)) * 9 + 73) / 64
  }

  lemma LogBelow64(v: uint64)
    ensures Log2Floor(OrOne(v)) < 64
  {
    PowersOfTwo();
    LogBelow(OrOne(v), 64);
  }

  lemma NineSixtyFourths(l: nat)
    requires l < 64
    ensures (l * 9 + 73) / 64 == l / 7 + 1
  {
    var q, r := l / 7, l % 7;
    assert l == 7 * q + r;
    assert l * 9 + 73 == 64 * (q + 1) + (9 - q + 9 * r);
  }

  /** The multiply-and-shift formula is the length of the encoding for all 64-bit values. */
  lemma VarintSizeIsLength(v: uint64)
    ensures VarintSize(v) == |Encode(v)|
  {
    LogLength(OrOne(v));
    OrOneLength(v);
    LogBelow64(v);
    NineSixtyFourths(Log2Floor(OrOne(v)));
  }

  lemma {:induction false} LogLength(v: nat)
    requires v > 0
    ensures |Encode(v)| == Log2Floor(v) / 7 + 1
    decreases v
  {
    if v < 128 {
      assert Log2Floor(v) < 7 by { LogSmall(v); }
    } else {
      LogLength(v / 128);
      LogShift(v);
    }
  }

  lemma LogDown(v: nat)
    requires v >= 16
    ensures Log2Floor(v) == 4 + Log2Floor(v / 16)
  {
    assert Log2Floor(v) == 1 + Log2Floor(v / 2);
    assert Log2Floor(v / 2) == 1 + Log2Floor(v / 4);
    assert Log2Floor(v / 4) == 1 + Log2Floor(v / 8);
    assert Log2Floor(v / 8) == 1 + Log2Floor(v / 16);
  }

  lemma LogSmall(v: nat)
    requires 0 < v < 128
    ensures Log2Floor(v) < 7
  {
    PowersOfTwo();
    LogBelow(v, 7);
  }

  lemma {:induction false} LogBelow(v: nat, k: nat)
    requires 0 < v < Pow2(k)
    ensures Log2Floor(v) < k
  {
    if v == 1 {
    } else {
      LogBelow(v / 2, k - 1);
    }
  }

  lemma LogShift(v: nat)
    requires v >= 128
    ensures Log2Floor(v) == 7 + Log2Floor(v / 128)
  {
    LogDown(v);
    LogDownThree(v / 16);
    assert v / 16 / 8 == v / 128;
  }

  lemma LogDownThree(v: nat)
    requires v >= 8
    ensures Log2Floor(v) == 3 + Log2Floor(v / 8)
  {
    assert Log2Floor(v) == 1 + Log2Floor(v / 2);
    assert Log2Floor(v / 2) == 1 + Log2Floor(v / 4);
    assert Log2Floor(v / 4) == 1 + Log2Floor(v / 8);
  }

  lemma {:induction false} OrOneLength(v: nat)
    ensures |Encode(OrOne(v))| == |Encode(v)|
  {
    if v < 128 {
    } else {
      assert OrOne(v) / 128 == v / 128;
    }
  }

  lemma PowersOfTwo()
    ensures Pow2(7) == 128
    ensures Pow2(64) == 0x1_0000_0000_0000_0000
  {
    assert Pow2(4) == 16;
    assert Pow2(8) == 256 by { assert Pow2(6) == 64; }
    PowAdd(8, 8);
    PowAdd(16, 16);
    PowAdd(32, 32);
  }

  lemma {:induction false} PowAdd(a: nat, b: nat)
    ensures Pow2(a + b) == Pow2(a) * Pow2(b)
  {
    if a == 0 {
    } else {
      PowAdd(a - 1, b);
    }
  }

  function Pow2(k: nat): nat { if k == 0 then 1 else 2 * Pow2(k - 1) }
}
