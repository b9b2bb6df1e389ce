/**
 The wire format below the messages: tagged records, the reader that takes one record off a
 buffer, and the canonical writer in which unknown fields are kept.
 Wire types 3 and 4 (groups) are not part of this model; a start-group tag is refused.
 */
module Wire {
  import opened Bytes
  import opened Varint
  import opened Wrappers

  datatype Record =
    | Number(num: nat, v: nat)
    | Fixed64(num: nat, raw: bytes)
    | Delimited(num: nat, s: bytes)
    | Fixed32(num: nat, raw: bytes)

  const MAX_FIELD: nat := 0x2000_0000

  /** A record the writers can be asked to write. */
  predicate WellTyped(r: Record) {
    && 0 < r.num < MAX_FIELD
    && match r
       case Number(_, v) => v < 0x1_0000_0000_0000_0000
       case Fixed64(_, raw) => |raw| == 8
       case Delimited(_, s) => |s| < 0x8000_0000
       case Fixed32(_, raw) => |raw| == 4
  }

  /** A length above MAX_SIZE can be written but not read back. */
  predicate Readable(r: Record) { r.Delimited? ==> |r.s| <= MAX_SIZE }

  function WireType(r: Record): nat {
    match r
    case Number(_, _) => 0
    case Fixed64(_, _) => 1
    case Delimited(_, _) => 2
    case Fixed32(_, _) => 5
  }

  function Tag(r: Record): nat { 8 * r.num + WireType(r) }

  function Payload(r: Record): bytes {
    match r
    case Number(_, v) => Encode(v)
    case Fixed64(_, raw) => raw
    case Delimited(_, s) => Encode(|s|) + s
    case Fixed32(_, raw) => raw
  }

  function EncodeRecord(r: Record): (s: bytes)
    ensures |s| > 0
  {
    Encode(Tag(r)) + Payload(r)
  }

  function EncodeAll(rs: seq<Record>): bytes {
    if rs == [] then [] else EncodeRecord(rs[0]) + EncodeAll(rs[1..])
  }

  /** The value that follows `tag`, and how many bytes it takes. */
  function ReadBody(tag: nat, s: bytes): (r: Option<(Record, nat)>)
    ensures r.Some? ==> r.value.1 <= |s| && Readable(r.value.0) && Tag(r.value.0) == tag
    ensures r.Some? && tag < 0x1_0000_0000 ==> WellTyped(r.value.0)
  {
    var num := tag / 8;
    if num == 0 then None
    else if tag % 8 == 0 then
      match Scan(s, 10)
      case None => None
      case Some((v, n)) => Some((Number(num, Reduce(v, true)), n))
    else if tag % 8 == 1 then
      if |s| < 8 then None else Some((Fixed64(num, s[..8]), 8))
    else if tag % 8 == 2 then
      match ScanSize(s)
      case None => None
      case Some((size, n)) =>
        if |s| < n + size then None else Some((Delimited(num, s[n..n + size]), n + size))
    else if tag % 8 == 5 then
      if |s| < 4 then None else Some((Fixed32(num, s[..4]), 4))
    else None
  }

  function NextRecord(s: bytes): (r: Option<(Record, nat)>)
    ensures r.Some? ==> 0 < r.value.1 <= |s|
  {
    match Scan(s, 5)
    case None => None
    case Some((t, n)) =>
      match ReadBody(t % 0x1_0000_0000, s[n..])
      case None => None
      case Some((r, k)) => Some((r, n + k))
  }

  /** The whole buffer as records, if it is one. */
  function Records(s: bytes): (r: Option<seq<Record>>)
    decreases |s|
  {
    if s == [] then Some([])
    else
      match NextRecord(s)
      case None => None
      case Some((r, n)) =>
        match Records(s[n..])
        case None => None
        case Some(rs) => Some([r] + rs)
  }

  // ---- One record ----

  lemma TagOfRecord(r: Record)
    requires WellTyped(r)
    ensures Tag(r) < 0x1_0000_0000 && |Encode(Tag(r))| <= 5
    ensures Tag(r) / 8 == r.num && Tag(r) % 8 == WireType(r)
  {
    EncodeLengths();
  }

  /** Reading a written record gives it back whatever follows, unless its length cannot be read. */
  lemma NextOfEncoded(r: Record, rest: bytes)
    requires WellTyped(r)
    ensures NextRecord(EncodeRecord(r) + rest) ==
            if Readable(r) then Some((r, |EncodeRecord(r)|)) else None
  {
    hide Scan, ReadBody, Encode;
    var head := Encode(Tag(r));
    var body := Payload(r) + rest;
    assert EncodeRecord(r) + rest == head + body;
    TagOfRecord(r);
    ScanEncode(Tag(r), body, 5);
    assert (head + body)[|head|..] == body;
    BodyOfEncoded(r, rest);
  }

  lemma BodyOfEncoded(r: Record, rest: bytes)
    requires WellTyped(r)
    ensures ReadBody(Tag(r), Payload(r) + rest) ==
            if Readable(r) then Some((r, |Payload(r)|)) else None
  {
    TagOfRecord(r);
    match r
    case Number(_, v) =>
      EncodeLengths();
      ScanEncode(v, rest, 10);
    case Fixed64(_, raw) =>
      assert (raw + rest)[..8] == raw;
    case Delimited(_, s) =>
      DelimitedBody(s, rest);
    case Fixed32(_, raw) =>
      assert (raw + rest)[..4] == raw;
  }

  lemma DelimitedBody(s: bytes, rest: bytes)
    requires |s| < 0x8000_0000
    ensures var t := Encode(|s|) + s + rest;
            ScanSize(t) == (if |s| <= MAX_SIZE then Some((|s|, |Encode(|s|)|)) else None)
            && t[|Encode(|s|)|..|Encode(|s|)| + |s|] == s
  {
    var size := Encode(|s|);
    assert size + s + rest == size + (s + rest);
    EncodeLengths();
    ScanEncode(|s|, s + rest, 5);
  }

  /** What was read can be written, in no more bytes than it took. */
  lemma NextIsCanonical(s: bytes)
    requires NextRecord(s).Some?
    ensures var (r, n) := NextRecord(s).value;
            WellTyped(r) && Readable(r) && |EncodeRecord(r)| <= n
  {
    var (t, n) := Scan(s, 5).value;
    var tag: uint32 := t % 0x1_0000_0000;
    var (r, k) := ReadBody(tag, s[n..]).value;
    assert tag == Tag(r);
    ScanIsLonger(s, 5);
    EncodeMonotone(tag, t);
    match r
    case Number(_, v) =>
      ScanIsLonger(s[n..], 10);
      EncodeMonotone(v, Scan(s[n..], 10).value.0);
    case Fixed64(_, raw) =>
    case Delimited(_, d) =>
      ScanIsLonger(s[n..], 5);
    case Fixed32(_, raw) =>
  }

  lemma NextExtends(s: bytes, t: bytes)
    requires NextRecord(s).Some?
    ensures NextRecord(s + t) == NextRecord(s)
  {
    ScanExtend(s, t, 5);
    var (v, n) := Scan(s, 5).value;
    assert (s + t)[n..] == s[n..] + t;
    BodyExtends(v % 0x1_0000_0000, s[n..], t);
  }

  lemma BodyExtends(tag: nat, s: bytes, t: bytes)
    requires ReadBody(tag, s).Some?
    ensures ReadBody(tag, s + t) == ReadBody(tag, s)
  {
    if tag % 8 == 0 {
      ScanExtend(s, t, 10);
    } else if tag % 8 == 1 {
      assert (s + t)[..8] == s[..8];
    } else if tag % 8 == 2 {
      ScanExtend(s, t, 5);
      var (size, n) := ScanSize(s).value;
      assert (s + t)[n..n + size] == s[n..n + size];
    } else {
      assert (s + t)[..4] == s[..4];
    }
  }

  // ---- Many records ----

  ghost predicate AllReadable(rs: seq<Record>) {
    forall i :: 0 <= i < |rs| ==> WellTyped(rs[i]) && Readable(rs[i])
  }

  lemma {:induction false} EncodeAllAppend(a: seq<Record>, b: seq<Record>)
    ensures EncodeAll(a + b) == EncodeAll(a) + EncodeAll(b)
  {
    if a == [] {
      assert a + b == b;
    } else {
      assert (a + b)[1..] == a[1..] + b;
      EncodeAllAppend(a[1..], b);
    }
  }

  lemma EncodeAllSnoc(rs: seq<Record>, r: Record)
    ensures EncodeAll(rs + [r]) == EncodeAll(rs) + EncodeRecord(r)
  {
    EncodeAllAppend(rs, [r]);
    assert EncodeAll([r]) == EncodeRecord(r) + EncodeAll([]);
  }

  /** Canonical bytes are read back as the records they were written from. */
  lemma {:induction false} RecordsOfEncoded(rs: seq<Record>)
    requires AllReadable(rs)
    ensures Records(EncodeAll(rs)) == Some(rs)
  {
    hide NextRecord, EncodeRecord;
    if rs == [] {
    } else {
      var head, rest := EncodeRecord(rs[0]), EncodeAll(rs[1..]);
      NextOfEncoded(rs[0], rest);
      RecordsCons(head + rest, rs[0], |head|);
      assert (head + rest)[|head|..] == rest;
      RecordsOfEncoded(rs[1..]);
      assert [rs[0]] + rs[1..] == rs;
    }
  }

  lemma RecordsCons(s: bytes, r: Record, n: nat)
    requires NextRecord(s) == Some((r, n))
    ensures 0 < n <= |s|
    ensures Records(s) == match Records(s[n..]) case None => None case Some(rs) => Some([r] + rs)
  {
  }

  /** Rewriting canonically keeps the records and never lengthens the bytes. */
  lemma {:induction false} RecordsAreCanonical(s: bytes)
    requires Records(s).Some?
    ensures AllReadable(Records(s).value)
    ensures |EncodeAll(Records(s).value)| <= |s|
    decreases |s|
  {
    if s == [] {
    } else {
      NextIsCanonical(s);
      RecordsAreCanonical(s[NextRecord(s).value.1..]);
    }
  }

  lemma {:induction false} RecordsOfConcat(a: bytes, b: bytes)
    requires Records(a).Some?
    ensures Records(a + b) ==
            match Records(b) case None => None case Some(rs) => Some(Records(a).value + rs)
    decreases |a|
  {
    hide NextRecord;
    if a == [] {
      assert a + b == b;
      assert Records(b).Some? ==> [] + Records(b).value == Records(b).value;
    } else {
      var (r, n) := NextRecord(a).value;
      var rest := a[n..];
      RecordsCons(a, r, n);
      NextExtends(a, b);
      RecordsCons(a + b, r, n);
      assert (a + b)[n..] == rest + b;
      RecordsOfConcat(rest, b);
      if Records(b).Some? {
        assert [r] + (Records(rest).value + Records(b).value) == [r] + Records(rest).value + Records(b).value;
      }
    }
  }

  // ---- The runtime's routines for one field ----

  /** A length-delimited string at `p`: what is read, and where reading goes on. */
  method InlineGreedyStringParser(s: bytes, p: nat) returns (next: int, str: bytes)
    requires p <= |s|
    ensures next == -1 || (p < next <= |s| && |str| <= MAX_SIZE)
    ensures forall tag: nat | tag >= 8 && tag % 8 == 2 ::
              ReadBody(tag, s[p..]) == if next == -1 then None else Some((Delimited(tag / 8, str), next - p))
  {
    var q, size := ReadSize(s, p);
    if q == -1 || q + size > |s| { return -1, []; }
    assert s[p..][q - p..q - p + size] == s[q..q + size];
    return q + size, s[q..q + size];
  }

  ghost predicate NumberBody(body: Option<(Record, nat)>, num: nat, k: int, wide: bool, value: int) {
    && body.Some? && body.value.0.Number? && body.value.0.num == num && body.value.1 == k
    && ToInt32(body.value.0.v) == ToInt32(value)
    && (wide ==> body.value.0.v == value)
  }

  lemma NarrowOfWide(v: int)
    ensures ToInt32(Reduce(v, true)) == ToInt32(Reduce(v, false))
  {
    assert v % 0x1_0000_0000_0000_0000 % 0x1_0000_0000 == v % 0x1_0000_0000;
  }

  /** How a number read at `p` appears as the body of a record. */
  lemma NumberRead(s: bytes, p: nat, wide: bool, next: int, value: int, tag: nat)
    requires p <= |s| && Reads(s, p, 10, wide, next, value)
    requires tag >= 8 && tag % 8 == 0
    ensures next == -1 ==> ReadBody(tag, s[p..]).None?
    ensures next != -1 ==> p < next <= |s|
    ensures next != -1 ==> NumberBody(ReadBody(tag, s[p..]), tag / 8, next - p, wide, value)
  {
    match Scan(s[p..], 10)
    case None => assert ReadBody(tag, s[p..]).None?;
    case Some((v, n)) =>
      assert ReadBody(tag, s[p..]) == Some((Number(tag / 8, Reduce(v, true)), n));
      NarrowOfWide(v);
      hide Reduce, Scan, ReadBody;
  }

  /**
   A field no message type claims: it is appended to `unknown` in canonical form.
   The reader of the tag has already refused tag 0 and end-group tags.
   */
  method UnknownFieldParse(tag: uint32, unknown: bytes, s: bytes, p: nat) returns (next: int, out: bytes)
    requires p <= |s|
    ensures match ReadBody(tag, s[p..])
            case None => next == -1
            case Some((r, k)) => next == p + k && out == unknown + EncodeRecord(r)
  {
    var num := tag / 8;
    if num == 0 { return -1, unknown; }
    if tag % 8 == 0 {
      var value: uint64;
      next, value := ReadVarint64(s, p);
      if next == -1 { return -1, unknown; }
      out := AppendField(Number(num, value), unknown);
    } else if tag % 8 == 1 {
      if |s| - p < 8 { return -1, unknown; }
      assert s[p..][..8] == s[p..p + 8];
      out := AppendField(Fixed64(num, s[p..p + 8]), unknown);
      next := p + 8;
    } else if tag % 8 == 2 {
      var str;
      next, str := InlineGreedyStringParser(s, p);
      if next == -1 { return -1, unknown; }
      out := AppendField(Delimited(num, str), unknown);
    } else if tag % 8 == 5 {
      if |s| - p < 4 { return -1, unknown; }
      assert s[p..][..4] == s[p..p + 4];
      out := AppendField(Fixed32(num, s[p..p + 4]), unknown);
      next := p + 4;
    } else {
      return -1, unknown;
    }
  }

  /** The helper's AddVarint, AddFixed64, ParseLengthDelimited and AddFixed32. */
  method AppendField(r: Record, unknown: bytes) returns (out: bytes)
    requires WellTyped(r)
    ensures out == unknown + EncodeRecord(r)
  {
    hide Encode;
    out := WriteVarint(r.num * 8 + WireType(r), unknown);
    ghost var head := unknown + Encode(Tag(r));
    match r {
      case Number(_, v) =>
        out := WriteVarint(v, out);
      case Fixed64(_, raw) =>
        out := out + raw;
      case Delimited(_, str) =>
        out := WriteVarint(|str|, out);
        out := out + str;
        assert out == head + Payload(r);
      case Fixed32(_, raw) =>
        out := out + raw;
    }
    assert out == head + Payload(r);
    assert head + Payload(r) == unknown + (Encode(Tag(r)) + Payload(r));
  }
}
