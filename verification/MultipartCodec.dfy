/**
 A multipart message in one frame (ZeroMQ RFC 50): each part behind a one-byte size, or behind
 0xFF and a four-byte network-order size. The decoder also takes the long form for small sizes.
 */
module MultipartCodec {
  import opened Bytes
  import opened Wrappers

  predicate Fits(part: bytes) { |part| < 0x1_0000_0000 }

  ghost predicate AllFit(parts: seq<bytes>) { forall i :: 0 <= i < |parts| ==> Fits(parts[i]) }

  function SizeField(n: uint32): bytes { if n < 255 then [n] else [255] + BigEndian32(n) }

  function EncodePart(part: bytes): (s: bytes)
    requires Fits(part)
    ensures |s| == |part| + (if |part| < 255 then 1 else 5)
  {
    SizeField(|part|) + part
  }

  function Encoding(parts: seq<bytes>): bytes
    requires AllFit(parts)
  {
    if parts == [] then [] else EncodePart(parts[0]) + Encoding(parts[1..])
  }

  /** The part `s` starts with, and the bytes it takes; None if `s` is cut short. */
  function ReadPart(s: bytes): (r: Option<(bytes, nat)>)
    requires s != []
    ensures r.Some? ==> 0 < r.value.1 <= |s| && |r.value.0| < r.value.1 && Fits(r.value.0)
  {
    if s[0] < 255 then
      if |s| - 1 < s[0] as int then None else Some((s[1..1 + s[0] as int], 1 + s[0] as int))
    else if |s| < 5 then None
    else
      var n := FromBigEndian32(s[1..5]);
      if |s| - 5 < n then None else Some((s[5..5 + n], 5 + n))
  }

  /** The parts written out before the end, or before the exception. */
  datatype Decoded = Decoded(parts: seq<bytes>, ok: bool)

  function Decoding(s: bytes): Decoded
    decreases |s|
  {
    if s == [] then Decoded([], true)
    else
      match ReadPart(s)
      case None => Decoded([], false)
      case Some((part, n)) =>
        var d := Decoding(s[n..]);
        Decoded([part] + d.parts, d.ok)
  }

  // ---- The two algorithms ----

  datatype Result<+T> = Ok(value: T) | RangeError

  /** Shifts and masks on a little-endian host. */
  method WriteNetworkOrder(buf: array<byte>, at: nat, value: uint32)
    requires at + 4 <= buf.Length
    modifies buf
    ensures buf[at..at + 4] == BigEndian32(value)
    ensures forall k :: 0 <= k < buf.Length && !(at <= k < at + 4) ==> buf[k] == old(buf[k])
  {
    buf[at] := value / 0x100_0000 % 0x100;
    buf[at + 1] := value / 0x1_0000 % 0x100;
    buf[at + 2] := value / 0x100 % 0x100;
    buf[at + 3] := value % 0x100;
  }

  method ReadU32NetworkOrder(s: bytes, at: nat) returns (value: uint32)
    requires at + 4 <= |s|
    ensures value == FromBigEndian32(s[at..at + 4])
  {
    value := s[at] as int * 0x100_0000 + s[at + 1] as int * 0x1_0000 + s[at + 2] as int * 0x100 + s[at + 3];
  }

  /** First pass: the exact size of the encoding, or a range error for a part that is too large. */
  method EncodedSize(parts: seq<bytes>) returns (size: Option<nat>)
    ensures size.Some? <==> AllFit(parts)
    ensures AllFit(parts) ==> size == Some(|Encoding(parts)|)
  {
    hide EncodePart, Encoding;
    EncodingNothing();
    var total := 0;
    for i := 0 to |parts|
      invariant AllFit(parts[..i]) && total == |Encoding(parts[..i])|
    {
      var partSize := |parts[i]|;
      if partSize > 0xFFFF_FFFF { return None; }
      var countSize := if partSize < 0xFF then 1 else 5;
      EncodingSnoc(parts, i);
      total := total + partSize + countSize;
    }
    assert parts[..|parts|] == parts;
    return Some(total);
  }

  method WriteSize(encoded: array<byte>, start: nat, n: uint32) returns (buf: nat)
    requires start + |SizeField(n)| <= encoded.Length
    modifies encoded
    ensures buf == start + |SizeField(n)|
    ensures encoded[..buf] == old(encoded[..start]) + SizeField(n)
  {
    hide BigEndian32;
    if n < 0xFF {
      encoded[start] := n;
      buf := start + 1;
      assert encoded[start..buf] == [n];
    } else {
      encoded[start] := 0xFF;
      WriteNetworkOrder(encoded, start + 1, n);
      buf := start + 5;
      FirstApart(encoded[..], start, buf);
      assert encoded[start..buf] == encoded[..][start..buf] && encoded[start + 1..buf] == encoded[..][start + 1..buf];
    }
    Behind(old(encoded[..]), encoded[..], start, buf);
  }

  lemma FirstApart(s: bytes, start: nat, end: nat)
    requires start < end <= |s|
    ensures s[start..end] == [s[start]] + s[start + 1..end]
  {}

  /** What is written from `start` to `end` follows what was in front. */
  lemma Behind(before: bytes, after: bytes, start: nat, end: nat)
    requires |before| == |after| && start <= end <= |after|
    requires forall k :: 0 <= k < start ==> after[k] == before[k]
    ensures after[..end] == before[..start] + after[start..end]
  {}

  /** Second pass, one part: its size field, then a copy of its data. */
  method WritePart(encoded: array<byte>, start: nat, part: bytes) returns (buf: nat)
    requires Fits(part) && start + |EncodePart(part)| <= encoded.Length
    modifies encoded
    ensures buf == start + |EncodePart(part)|
    ensures encoded[..buf] == old(encoded[..start]) + EncodePart(part)
  {
    hide SizeField;
    buf := WriteSize(encoded, start, |part|);
    ghost var head := encoded[..buf];
    forall k | 0 <= k < |part| { encoded[buf + k] := part[k]; }
    assert encoded[..buf + |part|] == head + part;
    assert head + part == old(encoded[..start]) + (SizeField(|part|) + part);
    buf := buf + |part|;
  }

  method Encode(parts: seq<bytes>) returns (r: Result<array<byte>>)
    ensures r.Ok? <==> AllFit(parts)
    ensures r.Ok? ==> fresh(r.value) && r.value[..] == Encoding(parts)
  {
    hide EncodePart, Encoding;
    var size := EncodedSize(parts);
    if size.None? { return RangeError; }
    var encoded := new byte[size.value](_ => 0);
    var buf := 0;
    EncodingNothing();
    for i := 0 to |parts|
      invariant AllFit(parts[..i]) && buf == |Encoding(parts[..i])| <= encoded.Length
      invariant encoded[..buf] == Encoding(parts[..i])
    {
      EncodingSnoc(parts, i);
      EncodingPrefix(parts, i + 1);
      buf := WritePart(encoded, buf, parts[i]);
    }
    assert parts[..|parts|] == parts;
    assert encoded[..] == encoded[..buf];
    return Ok(encoded);
  }

  lemma EncodingNothing()
    ensures Encoding([]) == []
  {
  }

  /** One turn of the decoder: a size in either form, then that much data; -1 for the exception. */
  method ReadAt(encoded: bytes, start: nat) returns (source: int, part: bytes)
    requires start < |encoded|
    ensures ReadPart(encoded[start..]) == if source == -1 then None else Some((part, source - start))
    ensures source == -1 || start < source <= |encoded|
  {
    ghost var s := encoded[start..];
    var limit := |encoded|;
    part := [];
    var partSize: nat := encoded[start];
    source := start + 1;
    if partSize == 0xFF {
      if limit - source < 4 { return -1, []; }
      partSize := ReadU32NetworkOrder(encoded, source);
      assert s[1..5] == encoded[source..source + 4];
      source := source + 4;
    }
    if limit - source < partSize { return -1, []; }
    part := encoded[source..source + partSize];
    assert part == s[source - start..source - start + partSize];
    source := source + partSize;
  }

  /** Parts are appended to `into` as they are read, also before the exception. */
  method Decode(encoded: bytes, into: seq<bytes>) returns (ok: bool, out: seq<bytes>)
    ensures ok == Decoding(encoded).ok && out == into + Decoding(encoded).parts
  {
    hide ReadPart;
    var source, limit := 0, |encoded|;
    out := into;
    assert encoded[0..] == encoded;
    while source < limit
      invariant 0 <= source <= limit
      invariant Decoding(encoded).ok == Decoding(encoded[source..]).ok
      invariant out + Decoding(encoded[source..]).parts == into + Decoding(encoded).parts
    {
      var next, part := ReadAt(encoded, source);
      assert out + [] == out;
      if next == -1 { return false, out; }
      ghost var rest := encoded[next..];
      assert encoded[source..][next - source..] == rest;
      assert out + ([part] + Decoding(rest).parts) == out + [part] + Decoding(rest).parts;
      out := out + [part];
      source := next;
    }
    assert out + [] == out;
    return true, out;
  }

  lemma {:induction false} EncodingAppend(a: seq<bytes>, b: seq<bytes>)
    requires AllFit(a) && AllFit(b)
    ensures AllFit(a + b) && Encoding(a + b) == Encoding(a) + Encoding(b)
  {
    hide EncodePart;
    if a == [] {
      assert a + b == b;
    } else {
      assert (a + b)[1..] == a[1..] + b;
      EncodingAppend(a[1..], b);
    }
  }

  lemma EncodingSnoc(parts: seq<bytes>, i: nat)
    requires i < |parts| && AllFit(parts[..i])
    ensures AllFit(parts[..i + 1]) <==> Fits(parts[i])
    ensures AllFit(parts) ==> Fits(parts[i])
    ensures Fits(parts[i]) ==> Encoding(parts[..i + 1]) == Encoding(parts[..i]) + EncodePart(parts[i])
  {
    hide EncodePart;
    var part := parts[i];
    assert parts[..i + 1] == parts[..i] + [part];
    assert parts[..i + 1][i] == part;
    if Fits(part) {
      assert AllFit([part]);
      EncodingAppend(parts[..i], [part]);
      assert Encoding([part]) == EncodePart(part) + Encoding([]);
    }
  }

  lemma EncodingPrefix(parts: seq<bytes>, i: nat)
    requires i <= |parts| && AllFit(parts)
    ensures AllFit(parts[..i]) && AllFit(parts[i..]) && Encoding(parts) == Encoding(parts[..i]) + Encoding(parts[i..])
  {
    hide Encoding;
    assert parts[..i] + parts[i..] == parts;
    EncodingAppend(parts[..i], parts[i..]);
  }

  // ---- The bytes of a part ----

  /** A part of up to 254 bytes has its size in one byte, any other in four behind 0xFF. */
  lemma PartBytes(part: bytes)
    requires Fits(part)
    ensures var n := |part|;
            EncodePart(part) ==
            if n < 255 then [n] + part
            else [0xFF, n / 0x100_0000, n / 0x1_0000 % 0x100, n / 0x100 % 0x100, n % 0x100] + part
  {}

  /** The long form is read whatever the size in it. */
  lemma LongFormRead(part: bytes, rest: bytes)
    requires Fits(part)
    ensures var n := |part|;
            var size: bytes := [0xFF, n / 0x100_0000, n / 0x1_0000 % 0x100, n / 0x100 % 0x100, n % 0x100];
            ReadPart(size + part + rest) == Some((part, 5 + n))
  {
    var s := [0xFF] + BigEndian32(|part|) + part + rest;
    assert s[1..5] == BigEndian32(|part|);
    assert s[5..5 + |part|] == part;
  }

  // ---- Decoding undoes encoding ----

  lemma ReadOfEncoded(part: bytes, rest: bytes)
    requires Fits(part)
    ensures ReadPart(EncodePart(part) + rest) == Some((part, |EncodePart(part)|))
  {
    var s := EncodePart(part) + rest;
    if |part| < 255 {
      assert s[1..1 + |part|] == part;
    } else {
      assert s[..5] == SizeField(|part|);
      assert s[1..5] == s[..5][1..] == BigEndian32(|part|);
      assert s[5..5 + |part|] == part;
    }
  }

  /** A part cut short is an error. */
  lemma ReadOfCut(part: bytes, k: nat)
    requires Fits(part) && 0 < k < |EncodePart(part)|
    ensures ReadPart(EncodePart(part)[..k]).None?
  {
    var s, head := EncodePart(part)[..k], SizeField(|part|);
    if |part| >= 255 && k >= 5 {
      assert s[..5] == head;
      assert s[1..5] == s[..5][1..] == BigEndian32(|part|);
    }
  }

  lemma {:induction false} DecodeOfEncoded(parts: seq<bytes>, rest: bytes)
    requires AllFit(parts)
    ensures Decoding(Encoding(parts) + rest) == Decoded(parts + Decoding(rest).parts, Decoding(rest).ok)
    decreases |parts|
  {
    hide EncodePart, ReadPart;
    if parts == [] {
      assert Encoding(parts) + rest == rest;
      assert parts + Decoding(rest).parts == Decoding(rest).parts;
    } else {
      var head, tail := EncodePart(parts[0]), Encoding(parts[1..]) + rest;
      assert Encoding(parts) + rest == head + tail;
      ReadOfEncoded(parts[0], tail);
      assert (head + tail)[|head|..] == tail;
      DecodeOfEncoded(parts[1..], rest);
      assert [parts[0]] + (parts[1..] + Decoding(rest).parts) == parts + Decoding(rest).parts;
    }
  }

  lemma DecodeEncodeRoundTrip(parts: seq<bytes>)
    requires AllFit(parts)
    ensures Decoding(Encoding(parts)) == Decoded(parts, true)
  {
    DecodeOfEncoded(parts, []);
    assert Encoding(parts) + [] == Encoding(parts);
    assert parts + [] == parts;
  }

  /**
   Any prefix of an encoding gives the parts that lie wholly in it, and is accepted exactly when
   it is cut on a boundary between parts.
   */
  lemma {:induction false} DecodeOfPrefix(parts: seq<bytes>, k: nat) returns (j: nat)
    requires AllFit(parts) && k <= |Encoding(parts)|
    ensures j <= |parts| && AllFit(parts[..j]) && |Encoding(parts[..j])| <= k
    ensures j < |parts| ==> AllFit(parts[..j + 1]) && k < |Encoding(parts[..j + 1])|
    ensures Decoding(Encoding(parts)[..k]) == Decoded(parts[..j], k == |Encoding(parts[..j])|)
    decreases |parts|
  {
    hide EncodePart, ReadPart;
    if parts == [] || k == 0 {
      j := 0;
      assert Encoding(parts)[..k] == [];
      if parts != [] { EncodingSnoc(parts, 0); }
    } else {
      var head, tail := EncodePart(parts[0]), Encoding(parts[1..]);
      EncodingSnoc(parts, 0);
      if k < |head| {
        j := 0;
        assert Encoding(parts)[..k] == head[..k];
        ReadOfCut(parts[0], k);
      } else {
        var j' := DecodeOfPrefix(parts[1..], k - |head|);
        j := j' + 1;
        assert parts[..j] == [parts[0]] + parts[1..][..j'];
        assert parts[..j][1..] == parts[1..][..j'];
        if j < |parts| { assert parts[..j + 1][1..] == parts[1..][..j' + 1]; }
        var rest := tail[..k - |head|];
        assert Encoding(parts)[..k] == head + rest;
        ReadOfEncoded(parts[0], rest);
        assert (head + rest)[|head|..] == rest;
      }
    }
  }

  // ---- Encoding what was decoded ----

  /** Every size of 255 or more in long form, and only those. */
  predicate Shortest(s: bytes)
    decreases |s|
  {
    if s == [] then true
    else
      match ReadPart(s)
      case None => false
      case Some((part, n)) => (s[0] == 255 ==> |part| >= 255) && Shortest(s[n..])
  }

  lemma PartReencoded(s: bytes)
    requires s != [] && ReadPart(s).Some?
    ensures var (part, n) := ReadPart(s).value;
            |EncodePart(part)| <= n && (EncodePart(part) == s[..n] <==> (s[0] == 255 ==> |part| >= 255))
  {
    var (part, n) := ReadPart(s).value;
    if s[0] == 255 {
      BigEndianUnique(s[1..5]);
      assert s[..n] == [s[0]] + s[1..5] + part;
      if |part| < 255 { assert |EncodePart(part)| != n; }
    } else {
      assert s[..n] == [s[0]] + part;
    }
  }

  /**
   Encoding the parts of an accepted input is never longer than it and decodes to the same parts;
   it is the input again exactly when every size was in its shortest form.
   */
  lemma {:induction false} Reencoding(s: bytes)
    requires Decoding(s).ok
    ensures AllFit(Decoding(s).parts)
    ensures |Encoding(Decoding(s).parts)| <= |s|
    ensures Decoding(Encoding(Decoding(s).parts)) == Decoding(s)
    ensures Encoding(Decoding(s).parts) == s <==> Shortest(s)
    decreases |s|
  {
    hide EncodePart, ReadPart;
    if s == [] {
    } else {
      var (part, n) := ReadPart(s).value;
      var rest := Decoding(s[n..]).parts;
      PartReencoded(s);
      Reencoding(s[n..]);
      var parts := [part] + rest;
      assert parts[1..] == rest;
      assert s == s[..n] + s[n..];
      var e, f := EncodePart(part), Encoding(rest);
      assert Encoding(parts) == e + f;
      SplitEqual(e, f, s[..n], s[n..]);
    }
    DecodeEncodeRoundTrip(Decoding(s).parts);
  }

  lemma SplitEqual(a: bytes, b: bytes, c: bytes, d: bytes)
    requires |a| <= |c| && |b| <= |d|
    ensures a + b == c + d <==> a == c && b == d
  {
    if a + b == c + d {
      assert |a| == |c|;
      assert a == (a + b)[..|a|] && c == (c + d)[..|c|];
      assert b == (a + b)[|a|..] && d == (c + d)[|c|..];
    }
  }
}
