/**
 The 8-byte big-endian header put before every message, and the length-field rule by which the
 server's event loop cuts a TCP stream back into packages, whatever pieces the stream arrives in.
 */
module Framing {
  import opened Bytes

  const MAGIC: uint32 := 0x1234_5678
  const HEAD: nat := 8
  /** package_max_length: 2 MB. */
  const MAX_PACKAGE: nat := 0x20_0000

  function Frame(data: bytes): (f: bytes)
    ensures |f| == HEAD + |data| && f[HEAD..] == data
  {
    BigEndian32(MAGIC) + BigEndian32(|data| % 0x1_0000_0000) + data
  }

  function Frames(ds: seq<bytes>): (fs: seq<bytes>)
    ensures |fs| == |ds| && forall i :: 0 <= i < |ds| ==> fs[i] == Frame(ds[i])
  {
    seq(|ds|, i requires 0 <= i < |ds| => Frame(ds[i]))
  }

  // ---- Writing the header ----

  function LittleEndian32(n: uint32): (s: bytes)
    ensures |s| == 4
    ensures forall i :: 0 <= i < 4 ==> s[i] == BigEndian32(n)[3 - i]
  {
    [n % 0x100, n / 0x100 % 0x100, n / 0x1_0000 % 0x100, n / 0x100_0000]
  }

  /** serialize<uint32_t>: the host's little-endian bytes, last one first. */
  method SerializeU32(buf: array<byte>, at: nat, value: uint32) returns (next: nat)
    requires at + 4 <= buf.Length
    modifies buf
    ensures next == at + 4
    ensures buf[at..at + 4] == BigEndian32(value)
    ensures forall k :: 0 <= k < buf.Length && !(at <= k < at + 4) ==> buf[k] == old(buf[k])
  {
    var src := LittleEndian32(value);
    for i := 0 to 4
      invariant forall k :: 0 <= k < i ==> buf[at + k] == BigEndian32(value)[k]
      invariant forall k :: 0 <= k < buf.Length && !(at <= k < at + i) ==> buf[k] == old(buf[k])
    {
      buf[at + i] := src[4 - i - 1];
    }
    return at + 4;
  }

  method ToBigEndianByteStream(data: bytes) returns (stream: array<byte>)
    ensures fresh(stream) && stream[..] == Frame(data)
  {
    hide BigEndian32;
    var length: uint32 := |data| % 0x1_0000_0000;
    stream := new byte[4 + 4 + |data|](_ => 0);
    var buffer := SerializeU32(stream, 0, MAGIC);
    assert stream[0..4] == BigEndian32(MAGIC);
    buffer := SerializeU32(stream, buffer, length);
    assert stream[0..4] == BigEndian32(MAGIC);
    assert stream[4..8] == BigEndian32(length);
    forall k | 0 <= k < |data| { stream[buffer + k] := data[k]; }
    assert stream[0..4] == BigEndian32(MAGIC) && stream[4..8] == BigEndian32(length) && stream[8..] == data;
    assert stream[..] == stream[0..4] + stream[4..8] + stream[8..];
  }

  // ---- Cutting the stream ----

  /** The length of the package `s` starts with, in the 32-bit arithmetic of the unpacker. */
  function PackageLength(s: bytes): nat
    requires |s| >= HEAD
  {
    (HEAD + FromBigEndian32(s[4..8])) % 0x1_0000_0000
  }

  /**
   A connection holds the bytes not yet delivered, or has been dropped because a package is
   declared longer than MAX_PACKAGE, or is spinning: the 32-bit length wrapped to zero, and the
   unpacker delivers empty packages without ever advancing.
   */
  datatype Connection = Open(rest: bytes) | Dropped | Spinning

  predicate Refused(s: bytes)
    requires |s| >= HEAD
  {
    PackageLength(s) > MAX_PACKAGE || PackageLength(s) == 0
  }

  function Refusal(s: bytes): (c: Connection)
    requires |s| >= HEAD && Refused(s)
    ensures !c.Open?
  {
    if PackageLength(s) == 0 then Spinning else Dropped
  }

  /**
   The complete packages at the front of `s`, and what remains. A length that wrapped to less
   than a header gives a package shorter than one.
   */
  function Cut(s: bytes): (r: (seq<bytes>, Connection))
    decreases |s|
  {
    if |s| < HEAD then ([], Open(s))
    else if Refused(s) then ([], Refusal(s))
    else if |s| < PackageLength(s) then ([], Open(s))
    else
      var (ps, c) := Cut(s[PackageLength(s)..]);
      ([s[..PackageLength(s)]] + ps, c)
  }

  /** A complete package at the front is delivered, and cutting goes on behind it. */
  lemma CutFront(f: bytes, tail: bytes)
    requires 0 < |f| <= MAX_PACKAGE && HEAD <= |f + tail| && PackageLength(f + tail) == |f|
    ensures Cut(f + tail) == ([f] + Cut(tail).0, Cut(tail).1)
  {
    hide PackageLength;
    assert (f + tail)[..|f|] == f && (f + tail)[|f|..] == tail;
  }

  /** Otherwise nothing is delivered. */
  lemma CutNothing(s: bytes)
    ensures |s| < HEAD ==> Cut(s) == ([], Open(s))
    ensures |s| >= HEAD && Refused(s) ==> Cut(s) == ([], Refusal(s))
    ensures |s| >= HEAD && !Refused(s) && |s| < PackageLength(s) ==> Cut(s) == ([], Open(s))
  {
    hide PackageLength;
  }

  function Feed(c: Connection, chunk: bytes): (seq<bytes>, Connection) {
    if c.Open? then Cut(c.rest + chunk) else ([], c)
  }

  function FeedAll(c: Connection, chunks: seq<bytes>): (seq<bytes>, Connection)
    decreases |chunks|
  {
    if chunks == [] then ([], c)
    else
      var (ps, c') := Feed(c, chunks[0]);
      var (qs, c'') := FeedAll(c', chunks[1..]);
      (ps + qs, c'')
  }

  /** hio_unpack_by_length_field on the buffered bytes: one pass over complete packages. */
  method UnpackByLengthField(readbuf: bytes) returns (packages: seq<bytes>, c: Connection)
    ensures (packages, c) == Cut(readbuf)
  {
    hide Cut;
    var p := 0;
    packages := [];
    assert readbuf[0..] == readbuf && [] + Cut(readbuf).0 == Cut(readbuf).0;
    while |readbuf| - p >= HEAD
      invariant p <= |readbuf|
      invariant Cut(readbuf) == (packages + Cut(readbuf[p..]).0, Cut(readbuf[p..]).1)
    {
      ghost var s := readbuf[p..];
      CutNothing(s);
      var bodyLen := ReadLengthField(readbuf, p + 4);
      assert s[4..8] == readbuf[p + 4..p + 8];
      var packageLen := (HEAD + bodyLen) % 0x1_0000_0000;
      if packageLen == 0 || packageLen > MAX_PACKAGE {
        assert packages + [] == packages;
        return packages, if packageLen == 0 then Spinning else Dropped;
      }
      if |readbuf| - p < packageLen {
        assert packages + [] == packages;
        return packages, Open(readbuf[p..]);
      }
      var f := readbuf[p..p + packageLen];
      ghost var tail := readbuf[p + packageLen..];
      assert s == f + tail;
      CutFront(f, tail);
      assert packages + ([f] + Cut(tail).0) == packages + [f] + Cut(tail).0;
      packages := packages + [f];
      p := p + packageLen;
    }
    CutNothing(readbuf[p..]);
    assert packages + [] == packages;
    return packages, Open(readbuf[p..]);
  }

  /** The length field, one byte at a time: body_len = (body_len << 8) | byte. */
  method ReadLengthField(s: bytes, at: nat) returns (bodyLen: uint32)
    requires at + 4 <= |s|
    ensures bodyLen == FromBigEndian32(s[at..at + 4])
  {
    bodyLen := s[at];
    bodyLen := bodyLen * 0x100 + s[at + 1];
    bodyLen := bodyLen * 0x100 + s[at + 2];
    bodyLen := bodyLen * 0x100 + s[at + 3];
  }

  /** The header, byte by byte: the magic number, then the length, most significant byte first. */
  lemma HeaderBytes(data: bytes)
    ensures var n := |data| % 0x1_0000_0000;
            Frame(data) == [0x12, 0x34, 0x56, 0x78,
                            n / 0x100_0000, n / 0x1_0000 % 0x100, n / 0x100 % 0x100, n % 0x100] + data
  {
  }

  /** The rule of the cut with its numbers: eight bytes of header, at most two megabytes in all. */
  lemma LengthFieldRule(s: bytes)
    ensures |s| < 8 ==> Cut(s) == ([], Open(s))
    ensures |s| >= 8 ==>
              var n := (8 + s[4] as int * 0x100_0000 + s[5] as int * 0x1_0000 + s[6] as int * 0x100 + s[7])
                       % 0x1_0000_0000;
              Cut(s) == if n == 0 then ([], Spinning)
                        else if n > 2 * 1024 * 1024 then ([], Dropped)
                        else if |s| < n then ([], Open(s))
                        else ([s[..n]] + Cut(s[n..]).0, Cut(s[n..]).1)
  {
    hide PackageLength;
    if |s| >= 8 { PackageLengthIs(s); }
  }

  lemma PackageLengthIs(s: bytes)
    requires |s| >= 8
    ensures PackageLength(s) ==
            (8 + s[4] as int * 0x100_0000 + s[5] as int * 0x1_0000 + s[6] as int * 0x100 + s[7]) % 0x1_0000_0000
  {}

  // ---- How the pieces arrive does not matter ----

  lemma RefusedExtends(a: bytes, b: bytes)
    requires |a| >= HEAD
    ensures PackageLength(a + b) == PackageLength(a)
  {
    assert (a + b)[4..8] == a[4..8];
  }

  lemma {:induction false} CutConcat(a: bytes, b: bytes)
    ensures Cut(a + b) ==
            var (ps, c) := Cut(a);
            var (qs, c') := Feed(c, b);
            (ps + qs, c')
    decreases |a|
  {
    hide PackageLength;
    if |a| < HEAD {
      assert [] + Cut(a + b).0 == Cut(a + b).0;
    } else {
      RefusedExtends(a, b);
      var n := PackageLength(a);
      if !Refused(a) {
        if |a| < n {
          assert [] + Cut(a + b).0 == Cut(a + b).0;
        } else {
          assert (a + b)[..n] == a[..n] && (a + b)[n..] == a[n..] + b;
          CutConcat(a[n..], b);
          var (ps, c) := Cut(a[n..]);
          assert [a[..n]] + (ps + Feed(c, b).0) == ([a[..n]] + ps) + Feed(c, b).0;
        }
      }
    }
  }

  /** Nothing complete is left in the bytes a connection holds. */
  lemma {:induction false} CutIsDone(s: bytes)
    requires Cut(s).1.Open?
    ensures Cut(Cut(s).1.rest) == ([], Cut(s).1)
    decreases |s|
  {
    hide PackageLength;
    if |s| < HEAD || |s| < PackageLength(s) {
      assert Cut(s) == ([], Open(s));
    } else {
      CutIsDone(s[PackageLength(s)..]);
    }
  }

  /** Any chopping of a stream delivers the packages of the whole stream. */
  lemma {:induction false} ChunksDoNotMatter(held: bytes, chunks: seq<bytes>)
    requires Cut(held) == ([], Open(held))
    ensures FeedAll(Open(held), chunks) == Cut(held + Concat(chunks))
    decreases |chunks|
  {
    hide Cut;
    if chunks == [] {
      assert held + [] == held;
    } else {
      var s := held + chunks[0];
      var rest := Concat(chunks[1..]);
      assert held + Concat(chunks) == s + rest;
      CutConcat(s, rest);
      var (ps, c) := Cut(s);
      if c.Open? {
        CutIsDone(s);
        ChunksDoNotMatter(c.rest, chunks[1..]);
      } else {
        ClosedStays(c, chunks[1..]);
      }
    }
  }

  lemma {:induction false} ClosedStays(c: Connection, chunks: seq<bytes>)
    requires !c.Open?
    ensures FeedAll(c, chunks) == ([], c)
    decreases |chunks|
  {
    if chunks == [] {
    } else {
      ClosedStays(c, chunks[1..]);
      var none: seq<bytes> := [];
      assert Feed(c, chunks[0]) == (none, c);
      assert none + none == none;
    }
  }

  // ---- Cutting undoes framing ----

  predicate Deliverable(d: bytes) { HEAD + |d| <= MAX_PACKAGE }

  lemma FrameHead(d: bytes, rest: bytes)
    requires |d| < 0x8000_0000
    ensures PackageLength(Frame(d) + rest) == HEAD + |d|
  {
    var s := Frame(d) + rest;
    assert s[4..8] == BigEndian32(|d| % 0x1_0000_0000);
    assert |d| % 0x1_0000_0000 == |d|;
  }

  /** Frames laid end to end are cut into themselves. */
  lemma {:induction false} CutOfFrames(ds: seq<bytes>, rest: bytes)
    requires forall i :: 0 <= i < |ds| ==> Deliverable(ds[i])
    ensures Cut(Concat(Frames(ds)) + rest) == (Frames(ds) + Cut(rest).0, Cut(rest).1)
    decreases |ds|
  {
    hide PackageLength, Frame, Cut;
    if ds == [] {
      assert Concat(Frames(ds)) + rest == rest;
      assert Frames(ds) + Cut(rest).0 == Cut(rest).0;
    } else {
      var f, tail := Frame(ds[0]), Concat(Frames(ds[1..])) + rest;
      assert Frames(ds)[1..] == Frames(ds[1..]);
      assert Concat(Frames(ds)) + rest == f + tail;
      FrameHead(ds[0], tail);
      CutFront(f, tail);
      CutOfFrames(ds[1..], rest);
      assert [f] + (Frames(ds[1..]) + Cut(rest).0) == Frames(ds) + Cut(rest).0;
    }
  }

  /** The first frame over the limit ends the connection; the ones before it are delivered. */
  lemma CutStopsAt(ds: seq<bytes>, k: nat, rest: bytes)
    requires k < |ds| && !Deliverable(ds[k]) && |ds[k]| < 0x8000_0000
    requires forall i :: 0 <= i < k ==> Deliverable(ds[i])
    ensures Cut(Concat(Frames(ds)) + rest) == (Frames(ds[..k]), Dropped)
  {
    hide PackageLength, Frame;
    var tail := Concat(Frames(ds[k + 1..])) + rest;
    assert Frames(ds) == Frames(ds[..k]) + ([Frame(ds[k])] + Frames(ds[k + 1..]));
    ConcatAppend(Frames(ds[..k]), [Frame(ds[k])] + Frames(ds[k + 1..]));
    assert ([Frame(ds[k])] + Frames(ds[k + 1..]))[1..] == Frames(ds[k + 1..]);
    assert Concat(Frames(ds)) + rest == Concat(Frames(ds[..k])) + (Frame(ds[k]) + tail);
    FrameHead(ds[k], tail);
    assert Cut(Frame(ds[k]) + tail) == ([], Dropped);
    CutOfFrames(ds[..k], Frame(ds[k]) + tail);
    assert Frames(ds[..k]) + [] == Frames(ds[..k]);
  }
}
