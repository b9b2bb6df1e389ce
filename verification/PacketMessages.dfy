/**
 The generated message classes: objects whose methods overwrite fields, advance a read or write
 position, store cached sizes and switch the one-of. Every method is tied to the value-level
 operation it performs; reading past the end of the current limit fails at once here, where the
 runtime notices it at the next loop test.
 */
module PacketMessages {
  import opened Bytes
  import opened Varint
  import opened Wire
  import P = Packet
  import L = PacketLaws
  import E = EnvelopeLaws
  import Utf8
  import opened Wrappers

  // ---- Writers and sizes of single fields ----

  method WriteString(num: nat, str: bytes, target: bytes) returns (t: bytes)
    requires 0 < num < 16 && |str| < 0x1_0000_0000
    ensures t == target + EncodeRecord(Delimited(num, str))
  {
    hide Encode;
    t := WriteVarint(8 * num + 2, target);
    t := WriteVarint(|str|, t);
    t := t + str;
    assert t == target + (Encode(8 * num + 2) + (Encode(|str|) + str));
  }

  method WriteInt32(num: nat, n: int32, target: bytes) returns (t: bytes)
    requires 0 < num < 16
    ensures t == target + EncodeRecord(Number(num, SignExtend(n)))
  {
    hide Encode;
    t := WriteVarint(8 * num, target);
    t := WriteVarint(SignExtend(n), t);
    assert t == target + (Encode(8 * num) + Encode(SignExtend(n)));
  }

  method WriteDouble(num: nat, raw: P.raw64, target: bytes) returns (t: bytes)
    requires 0 < num < 16
    ensures t == target + EncodeRecord(Fixed64(num, raw))
  {
    hide Encode;
    t := WriteVarint(8 * num + 1, target);
    t := t + raw;
    assert t == target + (Encode(8 * num + 1) + raw);
  }

  /** Length prefix and data, without the tag; the prefix is sized in 32 bits. */
  function LengthDelimitedSize(length: nat): nat { length + VarintSize(length % 0x1_0000_0000) }

  /** A computed size is exact, unless both it and the real size are too large to serialise. */
  predicate Sizes(total: nat, exact: nat) { total == exact || (total > 0x7FFF_FFFF && exact > 0x7FFF_FFFF) }

  function Int32SizePlusOne(n: int32): nat {
    (Log2Floor(OrOne(SignExtend(n))) * 9 + 73 + 64) / 64
  }

  lemma DelimitedSize(num: nat, str: bytes)
    requires 0 < num < 16 && |str| < 0x1_0000_0000
    ensures |EncodeRecord(Delimited(num, str))| == 1 + LengthDelimitedSize(|str|)
  {
    hide Encode, VarintSize;
    VarintSizeIsLength(|str|);
    OneByteTag(8 * num + 2);
    assert |str| % 0x1_0000_0000 == |str|;
  }

  lemma NumberSize(num: nat, n: int32)
    requires 0 < num < 16
    ensures |EncodeRecord(Number(num, SignExtend(n)))| == Int32SizePlusOne(n)
  {
    VarintSizeIsLength(SignExtend(n));
    OneByteTag(8 * num);
  }

  lemma RealSize(num: nat, raw: P.raw64)
    requires 0 < num < 16
    ensures |EncodeRecord(Fixed64(num, raw))| == 1 + 8
  {
    OneByteTag(8 * num + 1);
  }

  lemma OneByteTag(tag: nat)
    requires tag < 128
    ensures |Encode(tag)| == 1
  {
  }

  // ---- Optional fields: only a non-default value is written, or counted ----

  method WriteText(num: nat, str: bytes, target: bytes) returns (t: bytes)
    requires 0 < num < 16 && |str| < 0x1_0000_0000
    ensures t == target + EncodeAll(P.TextField(num, str))
  {
    t := target;
    if str != [] {
      t := WriteString(num, str, t);
      EncodeAllOne(Delimited(num, str));
    }
  }

  method WriteInt(num: nat, n: int32, target: bytes) returns (t: bytes)
    requires 0 < num < 16
    ensures t == target + EncodeAll(P.IntField(num, n))
  {
    t := target;
    if n != 0 {
      t := WriteInt32(num, n, t);
      EncodeAllOne(Number(num, SignExtend(n)));
    }
  }

  method WriteReal(num: nat, raw: P.raw64, target: bytes) returns (t: bytes)
    requires 0 < num < 16
    ensures t == target + EncodeAll(P.RealField(num, raw))
  {
    t := target;
    if raw != P.ZERO64 {
      t := WriteDouble(num, raw, t);
      EncodeAllOne(Fixed64(num, raw));
    }
  }

  lemma EncodeAllOne(r: Record)
    ensures EncodeAll([r]) == EncodeRecord(r)
  {
    assert EncodeAll([r]) == EncodeRecord(r) + EncodeAll([]);
  }

  lemma TextSize(num: nat, str: bytes)
    requires 0 < num < 16
    ensures Sizes(TextCount(str), E.SizeOf(P.TextField(num, str)))
    ensures |str| < 0x1_0000_0000 ==> E.SizeOf(P.TextField(num, str)) == TextCount(str)
  {
    hide VarintSize, Encode;
    if str != [] {
      EncodeAllOne(Delimited(num, str));
      if |str| < 0x1_0000_0000 { DelimitedSize(num, str); }
    }
  }

  function TextCount(str: bytes): nat { if str == [] then 0 else 1 + LengthDelimitedSize(|str|) }

  /** Adding a string field keeps a computed size in step with the real one. */
  lemma AddText(num: nat, str: bytes, total: nat, exact: nat) returns (exact': nat)
    requires 0 < num < 16 && Sizes(total, exact)
    ensures exact' == exact + E.SizeOf(P.TextField(num, str)) && Sizes(total + TextCount(str), exact')
  {
    TextSize(num, str);
    exact' := exact + E.SizeOf(P.TextField(num, str));
  }

  lemma IntSize(num: nat, n: int32)
    requires 0 < num < 16
    ensures E.SizeOf(P.IntField(num, n)) == if n == 0 then 0 else Int32SizePlusOne(n)
  {
    if n != 0 {
      EncodeAllOne(Number(num, SignExtend(n)));
      NumberSize(num, n);
    }
  }

  lemma RealFieldSize(num: nat, raw: P.raw64)
    requires 0 < num < 16
    ensures E.SizeOf(P.RealField(num, raw)) == if raw == P.ZERO64 then 0 else 1 + 8
  {
    if raw != P.ZERO64 {
      EncodeAllOne(Fixed64(num, raw));
      RealSize(num, raw);
    }
  }

  /** The runtime computes string sizes in 32 bits. */
  ghost predicate Lengths32(b: P.Body) {
    match b
    case Heartbeat(id, _) => |id| < 0x1_0000_0000
    case Itemlist(items, _) => forall i :: 0 <= i < |items| ==> |items[i]| < 0x1_0000_0000
    case Location(_, _, _, _) => true
    case File(mapN, name, content, _, _, md5, _) =>
      |mapN| < 0x1_0000_0000 && |name| < 0x1_0000_0000 && |content| < 0x1_0000_0000 && |md5| < 0x1_0000_0000
    case Status(_, _, name, _) => |name| < 0x1_0000_0000
  }

  lemma TextFits(num: nat, str: bytes)
    ensures |str| <= E.SizeOf(P.TextField(num, str))
  {
    if str != [] { EncodeAllOne(Delimited(num, str)); }
  }

  /** Whatever SerializeToString accepts has 32-bit lengths throughout. */
  lemma SerializableFits(b: P.Body)
    requires L.Serializable(P.Serialize(b))
    ensures Lengths32(b)
  {
    hide P.Serialize, E.SizeOf, P.TextField, P.IntField;
    match b
    case Heartbeat(id, _) => E.HeartbeatSizeIs(b); TextFits(1, id);
    case Itemlist(items, _) => forall i | 0 <= i < |items| { ItemFits(b, i); }
    case Location(_, _, _, _) =>
    case File(mapN, name, content, _, _, md5, _) =>
      E.FileSizeIs(b);
      TextFits(1, mapN);
      TextFits(2, name);
      TextFits(3, content);
      TextFits(6, md5);
    case Status(_, _, name, _) => E.StatusSizeIs(b); TextFits(3, name);
  }

  lemma HeartbeatBytes(b: P.Body)
    requires b.Heartbeat?
    ensures P.Serialize(b) == EncodeAll(P.TextField(1, b.nodeId)) + b.unknown
  {
  }

  lemma LocationBytes(b: P.Body)
    requires b.Location?
    ensures P.Serialize(b) == EncodeAll(P.RealField(1, b.x)) + EncodeAll(P.RealField(2, b.y))
                              + EncodeAll(P.RealField(3, b.yaw)) + b.unknown
  {
    hide P.RealField, EncodeAll;
    EncodeAllAppend(P.RealField(1, b.x) + P.RealField(2, b.y), P.RealField(3, b.yaw));
    EncodeAllAppend(P.RealField(1, b.x), P.RealField(2, b.y));
  }

  lemma StatusBytes(b: P.Body)
    requires b.Status?
    ensures P.Serialize(b) == EncodeAll(P.IntField(1, b.packetIndex)) + EncodeAll(P.IntField(2, b.totalPackets))
                              + EncodeAll(P.TextField(3, b.currentName)) + b.unknown
  {
    hide P.TextField, P.IntField, EncodeAll;
    EncodeAllAppend(P.IntField(1, b.packetIndex) + P.IntField(2, b.totalPackets), P.TextField(3, b.currentName));
    EncodeAllAppend(P.IntField(1, b.packetIndex), P.IntField(2, b.totalPackets));
  }

  lemma FileBytes(b: P.Body)
    requires b.File?
    ensures P.Serialize(b) ==
            EncodeAll(P.TextField(1, b.mapName)) + EncodeAll(P.TextField(2, b.fileName))
            + EncodeAll(P.TextField(3, b.content)) + EncodeAll(P.IntField(4, b.packetNum))
            + EncodeAll(P.IntField(5, b.packetTotal)) + EncodeAll(P.TextField(6, b.md5)) + b.unknown
  {
    hide P.TextField, P.IntField, EncodeAll;
    var f1, f2, f3 := P.TextField(1, b.mapName), P.TextField(2, b.fileName), P.TextField(3, b.content);
    var f4, f5, f6 := P.IntField(4, b.packetNum), P.IntField(5, b.packetTotal), P.TextField(6, b.md5);
    EncodeAllAppend(f1 + f2 + f3 + f4 + f5, f6);
    EncodeAllAppend(f1 + f2 + f3 + f4, f5);
    EncodeAllAppend(f1 + f2 + f3, f4);
    EncodeAllAppend(f1 + f2, f3);
    EncodeAllAppend(f1, f2);
  }

  // ---- One turn of a parse loop ----

  /** What a parse method reports and leaves in its object. */
  ghost predicate Ended<T>(o: P.Outcome<T>, ok: bool, value: T) {
    if o.Done? then ok && value == o.value else !ok && (o.Spoiled? ==> value == o.value)
  }

  /** The parse once the record that starts at `p` is known. */
  ghost function GoOn(b: P.Body, s: bytes, p: nat, body: Option<(Record, nat)>): P.Outcome<P.Body>
    requires p <= |s| && (body.Some? ==> p + body.value.1 <= |s|)
  {
    match body
    case None => P.Unreadable
    case Some((r, k)) =>
      var o := P.Take(b, r);
      if o.Done? then P.Consume(o.value, s[p + k..]) else o
  }

  ghost function GoOnMessage(m: P.Message, s: bytes, p: nat, body: Option<(Record, nat)>): P.Outcome<P.Message>
    requires p <= |s| && (body.Some? ==> p + body.value.1 <= |s|)
  {
    match body
    case None => P.Unreadable
    case Some((r, k)) =>
      var o := P.TakeMessage(m, r);
      if o.Done? then P.ConsumeMessage(o.value, s[p + k..]) else o
  }

  /** What reading a tag at `p` says about the parse of the rest. */
  lemma Turn(b: P.Body, s: bytes, p: nat, next: int, tag: int)
    requires p < |s| && Reads(s, p, 5, false, next, tag)
    ensures next == -1 ==> P.Consume(b, s[p..]).Unreadable?
    ensures next != -1 ==> p < next <= |s| && 0 <= tag
    ensures next != -1 ==> P.Consume(b, s[p..]) == GoOn(b, s, next, ReadBody(tag, s[next..]))
  {
    hide Scan, ReadBody, P.Take, P.Parse, P.Absorb, P.KindOf, P.BadText;
    if next != -1 {
      assert s[p..][next - p..] == s[next..];
      if ReadBody(tag, s[next..]).Some? {
        var (r, k) := ReadBody(tag, s[next..]).value;
        assert s[p..][next - p + k..] == s[next + k..];
      }
    }
  }

  lemma TurnMessage(m: P.Message, s: bytes, p: nat, next: int, tag: int)
    requires p < |s| && Reads(s, p, 5, false, next, tag)
    ensures next == -1 ==> P.ConsumeMessage(m, s[p..]).Unreadable?
    ensures next != -1 ==> p < next <= |s| && 0 <= tag
    ensures next != -1 ==> P.ConsumeMessage(m, s[p..]) == GoOnMessage(m, s, next, ReadBody(tag, s[next..]))
  {
    hide Scan, ReadBody, P.TakeMessage, P.ParseMessage, P.AbsorbMessage;
    if next != -1 {
      assert s[p..][next - p..] == s[next..];
      if ReadBody(tag, s[next..]).Some? {
        var (r, k) := ReadBody(tag, s[next..]).value;
        assert s[p..][next - p + k..] == s[next + k..];
      }
    }
  }

  /** Tag zero and end-group tags end a message; at a limit or at top level that is a failure. */
  lemma EndTag(tag: nat, s: bytes)
    requires tag == 0 || tag % 8 == 4
    ensures ReadBody(tag, s).None?
  {
  }

  lemma AtEnd(b: P.Body, s: bytes)
    ensures P.Consume(b, s[|s|..]) == P.Done(b)
  {
  }

  // ---- Heartbeat ----

  class Heartbeat {
    var nodeId: bytes
    var unknown: bytes
    var cachedSize: int32

    ghost function Value(): P.Body
      reads this
    {
      P.Heartbeat(nodeId, unknown)
    }

    constructor ()
      ensures Value() == P.Empty(P.HeartbeatKind)
    {
      nodeId := [];
      unknown := [];
      cachedSize := 0;
    }

    method Clear()
      modifies this
      ensures Value() == P.Empty(P.HeartbeatKind)
    {
      nodeId := [];
      unknown := [];
    }

    method InternalParse(s: bytes) returns (ok: bool)
      modifies this
      ensures P.Parse(old(Value()), s) == if ok then Some(Value()) else None
      ensures Ended(P.Consume(old(Value()), s), ok, Value())
    {
      hide Reads, ReadBody, P.Parse, P.Absorb, P.Consume, EncodeRecord, Utf8.Valid;
      var p := 0;
      assert s[0..] == s;
      while p < |s|
        invariant p <= |s|
        invariant P.Consume(old(Value()), s) == P.Consume(Value(), s[p..])
      {
        var next, tag := ReadTag(s, p);
        Turn(Value(), s, p, next, tag);
        if next == -1 { return false; }
        if tag == 10 {
          var q, str := InlineGreedyStringParser(s, next);
          if q == -1 { return false; }
          nodeId := str;
          if !Utf8.Valid(str) { return false; }
          p := q;
        } else if tag == 0 || tag % 8 == 4 {
          EndTag(tag, s[next..]);
          return false;
        } else {
          var q, out := UnknownFieldParse(tag, unknown, s, next);
          if q == -1 { return false; }
          unknown := out;
          p := q;
        }
      }
      AtEnd(Value(), s);
      return true;
    }

    method InternalSerialize(target: bytes) returns (t: bytes)
      requires L.Serializable(P.Serialize(Value()))
      ensures t == target + P.Serialize(Value())
    {
      hide EncodeRecord, EncodeAll, P.Serialize, P.TextField, P.IntField, P.RealField;
      SerializableFits(Value());
      HeartbeatBytes(Value());
      t := target;
      t := WriteText(1, nodeId, t);
      ghost var done := EncodeAll(P.TextField(1, nodeId));
      t := t + unknown;
      assert t == target + (done + unknown);
    }

    method ByteSizeLong() returns (total: nat)
      modifies this`cachedSize
      ensures Sizes(total, |P.Serialize(Value())|) && cachedSize == ToInt32(total)
    {
      hide P.Serialize, LengthDelimitedSize, VarintSize, Int32SizePlusOne, E.SizeOf;
      hide P.TextField, P.IntField, P.RealField;
      E.HeartbeatSizeIs(Value());
      total := 0;
      ghost var exact := 0;
      if nodeId != [] { total := total + 1 + LengthDelimitedSize(|nodeId|); }
      exact := AddText(1, nodeId, total - TextCount(nodeId), exact);
      total := total + |unknown|;
      cachedSize := ToInt32(total);
    }

    method MergeFrom(from: Heartbeat)
      requires from != this
      modifies this
      ensures Value() == P.Merge(old(Value()), from.Value())
    {
      if from.nodeId != [] { nodeId := from.nodeId; }
      unknown := unknown + from.unknown;
    }

    method CopyFrom(from: Heartbeat)
      modifies this
      ensures Value() == old(from.Value())
    {
      if from == this { return; }
      Clear();
      MergeFrom(from);
      L.MergeIntoEmpty(from.Value());
    }
  }

  lemma RealRead(s: bytes, p: nat, tag: nat)
    requires p <= |s| && tag >= 8 && tag % 8 == 1
    ensures ReadBody(tag, s[p..]) == if |s| - p < 8 then None else Some((Fixed64(tag / 8, s[p..p + 8]), 8))
  {
    if |s| - p >= 8 { assert s[p..][..8] == s[p..p + 8]; }
  }

  /** A one-byte tag compared in place reads as that tag. */
  lemma SmallTag(s: bytes, p: nat)
    requires p < |s| && s[p] == 10
    ensures Reads(s, p, 5, false, p + 1, 10)
  {
  }

  lemma ItemSize(str: bytes)
    ensures Sizes(1 + LengthDelimitedSize(|str|), |EncodeRecord(Delimited(1, str))|)
  {
    hide VarintSize, Encode;
    if |str| < 0x1_0000_0000 { DelimitedSize(1, str); }
  }

  lemma ItemFits(b: P.Body, i: nat)
    requires b.Itemlist? && i < |b.items| && L.Serializable(P.Serialize(b))
    ensures |b.items[i]| < 0x8000_0000
  {
    L.FieldsWellTyped(b);
    assert P.Fields(b)[i] == Delimited(1, b.items[i]);
  }

  // ---- Itemlist ----

  class Itemlist {
    var items: seq<bytes>
    var unknown: bytes
    var cachedSize: int32

    ghost function Value(): P.Body
      reads this
    {
      P.Itemlist(items, unknown)
    }

    constructor ()
      ensures Value() == P.Empty(P.ItemlistKind)
    {
      items := [];
      unknown := [];
      cachedSize := 0;
    }

    method Clear()
      modifies this
      ensures Value() == P.Empty(P.ItemlistKind)
    {
      items := [];
      unknown := [];
    }

    /** The inner loop takes a run of items without going back to the tag dispatch. */
    method InternalParse(s: bytes) returns (ok: bool)
      modifies this
      ensures P.Parse(old(Value()), s) == if ok then Some(Value()) else None
      ensures Ended(P.Consume(old(Value()), s), ok, Value())
    {
      hide Reads, ReadBody, P.Parse, P.Absorb, P.Consume, EncodeRecord, Utf8.Valid;
      var p := 0;
      assert s[0..] == s;
      while p < |s|
        invariant p <= |s|
        invariant P.Consume(old(Value()), s) == P.Consume(Value(), s[p..])
      {
        var next, tag := ReadTag(s, p);
        Turn(Value(), s, p, next, tag);
        if next == -1 { return false; }
        if tag == 10 {
          p := next;
          while true
            invariant p <= |s|
            invariant P.Consume(old(Value()), s) == GoOn(Value(), s, p, ReadBody(10, s[p..]))
            decreases |s| - p
          {
            var q, str := InlineGreedyStringParser(s, p);
            if q == -1 { return false; }
            items := items + [str];
            if !Utf8.Valid(str) { return false; }
            p := q;
            if p == |s| || s[p] != 10 { break; }
            SmallTag(s, p);
            Turn(Value(), s, p, p + 1, 10);
            p := p + 1;
          }
        } else if tag == 0 || tag % 8 == 4 {
          EndTag(tag, s[next..]);
          return false;
        } else {
          var q, out := UnknownFieldParse(tag, unknown, s, next);
          if q == -1 { return false; }
          unknown := out;
          p := q;
        }
      }
      AtEnd(Value(), s);
      return true;
    }

    method InternalSerialize(target: bytes) returns (t: bytes)
      requires L.Serializable(P.Serialize(Value()))
      ensures t == target + P.Serialize(Value())
    {
      hide EncodeRecord;
      t := target;
      for i := 0 to |items|
        invariant t == target + EncodeAll(P.ItemFields(items[..i]))
      {
        ItemFits(Value(), i);
        t := WriteString(1, items[i], t);
        E.ItemsSnoc(items[..i], items[i]);
        assert items[..i] + [items[i]] == items[..i + 1];
      }
      assert items[..|items|] == items;
      t := t + unknown;
    }

    method ByteSizeLong() returns (total: nat)
      modifies this`cachedSize
      ensures Sizes(total, |P.Serialize(Value())|) && cachedSize == ToInt32(total)
    {
      hide EncodeRecord, VarintSize;
      total := 1 * |items|;
      for i := 0 to |items|
        invariant |items| - i <= total
        invariant Sizes(total - (|items| - i), |EncodeAll(P.ItemFields(items[..i]))|)
      {
        total := total + LengthDelimitedSize(|items[i]|);
        ItemSize(items[i]);
        E.ItemsSnoc(items[..i], items[i]);
        assert items[..i] + [items[i]] == items[..i + 1];
      }
      assert items[..|items|] == items;
      total := total + |unknown|;
      cachedSize := ToInt32(total);
    }

    method MergeFrom(from: Itemlist)
      requires from != this
      modifies this
      ensures Value() == P.Merge(old(Value()), from.Value())
    {
      items := items + from.items;
      unknown := unknown + from.unknown;
    }

    method CopyFrom(from: Itemlist)
      modifies this
      ensures Value() == old(from.Value())
    {
      if from == this { return; }
      Clear();
      MergeFrom(from);
      L.MergeIntoEmpty(from.Value());
    }
  }

  // ---- Location ----

  class Location {
    var x: P.raw64
    var y: P.raw64
    var yaw: P.raw64
    var unknown: bytes
    var cachedSize: int32

    ghost function Value(): P.Body
      reads this
    {
      P.Location(x, y, yaw, unknown)
    }

    constructor ()
      ensures Value() == P.Empty(P.LocationKind)
    {
      x := P.ZERO64;
      y := P.ZERO64;
      yaw := P.ZERO64;
      unknown := [];
      cachedSize := 0;
    }

    method Clear()
      modifies this
      ensures Value() == P.Empty(P.LocationKind)
    {
      x := P.ZERO64;
      y := P.ZERO64;
      yaw := P.ZERO64;
      unknown := [];
    }

    method InternalParse(s: bytes) returns (ok: bool)
      modifies this
      ensures P.Parse(old(Value()), s) == if ok then Some(Value()) else None
      ensures Ended(P.Consume(old(Value()), s), ok, Value())
    {
      hide Reads, ReadBody, P.Parse, P.Absorb, P.Consume, EncodeRecord, Utf8.Valid;
      var p := 0;
      assert s[0..] == s;
      while p < |s|
        invariant p <= |s|
        invariant P.Consume(old(Value()), s) == P.Consume(Value(), s[p..])
      {
        var next, tag := ReadTag(s, p);
        Turn(Value(), s, p, next, tag);
        if next == -1 { return false; }
        if tag == 9 {
          RealRead(s, next, tag);
          if |s| - next < 8 { return false; }
          x := s[next..next + 8];
          p := next + 8;
        } else if tag == 17 {
          RealRead(s, next, tag);
          if |s| - next < 8 { return false; }
          y := s[next..next + 8];
          p := next + 8;
        } else if tag == 25 {
          RealRead(s, next, tag);
          if |s| - next < 8 { return false; }
          yaw := s[next..next + 8];
          p := next + 8;
        } else if tag == 0 || tag % 8 == 4 {
          EndTag(tag, s[next..]);
          return false;
        } else {
          var q, out := UnknownFieldParse(tag, unknown, s, next);
          if q == -1 { return false; }
          unknown := out;
          p := q;
        }
      }
      AtEnd(Value(), s);
      return true;
    }

    method InternalSerialize(target: bytes) returns (t: bytes)
      requires L.Serializable(P.Serialize(Value()))
      ensures t == target + P.Serialize(Value())
    {
      hide EncodeRecord, EncodeAll, P.Serialize, P.TextField, P.IntField, P.RealField;
      SerializableFits(Value());
      LocationBytes(Value());
      t := target;
      t := WriteReal(1, x, t);
      ghost var done := EncodeAll(P.RealField(1, x));
      t := WriteReal(2, y, t);
      done := done + EncodeAll(P.RealField(2, y));
      assert t == target + done;
      t := WriteReal(3, yaw, t);
      done := done + EncodeAll(P.RealField(3, yaw));
      assert t == target + done;
      t := t + unknown;
      assert t == target + (done + unknown);
    }

    method ByteSizeLong() returns (total: nat)
      modifies this`cachedSize
      ensures Sizes(total, |P.Serialize(Value())|) && cachedSize == ToInt32(total)
    {
      hide P.Serialize, LengthDelimitedSize, VarintSize, Int32SizePlusOne, E.SizeOf;
      hide P.TextField, P.IntField, P.RealField;
      E.LocationSizeIs(Value());
      RealFieldSize(1, x);
      RealFieldSize(2, y);
      RealFieldSize(3, yaw);
      total := 0;
      if x != P.ZERO64 { total := total + 1 + 8; }
      if y != P.ZERO64 { total := total + 1 + 8; }
      if yaw != P.ZERO64 { total := total + 1 + 8; }
      total := total + |unknown|;
      cachedSize := ToInt32(total);
    }

    method MergeFrom(from: Location)
      requires from != this
      modifies this
      ensures Value() == P.Merge(old(Value()), from.Value())
    {
      if from.x != P.ZERO64 { x := from.x; }
      if from.y != P.ZERO64 { y := from.y; }
      if from.yaw != P.ZERO64 { yaw := from.yaw; }
      unknown := unknown + from.unknown;
    }

    method CopyFrom(from: Location)
      modifies this
      ensures Value() == old(from.Value())
    {
      if from == this { return; }
      Clear();
      MergeFrom(from);
      L.MergeIntoEmpty(from.Value());
    }
  }

  // ---- File ----

  lemma FileText(b: P.Body, num: nat, str: bytes)
    requires b.File? && num in {1, 2, 3, 6} && |str| <= MAX_SIZE
    ensures var b' := if num == 1 then b.(mapName := str) else if num == 2 then b.(fileName := str)
                      else if num == 3 then b.(content := str) else b.(md5 := str);
            P.Take(b, Delimited(num, str)) == if num == 3 || Utf8.Valid(str) then P.Done(b') else P.Spoiled(b')
  {
    hide Utf8.Valid, P.Absorb, P.Assign, EncodeRecord;
  }

  lemma FileNumber(b: P.Body, r: Record)
    requires b.File? && r.Number? && r.num in {4, 5}
    ensures P.Take(b, r) ==
            if r.num == 4 then P.Done(b.(packetNum := ToInt32(r.v))) else P.Done(b.(packetTotal := ToInt32(r.v)))
  {
    hide P.Absorb, P.Assign, ToInt32, EncodeRecord;
  }

  lemma FileUnknown(b: P.Body, r: Record)
    requires b.File? && Readable(r) && Tag(r) !in {10, 18, 26, 32, 40, 50}
    ensures P.Take(b, r) == P.Done(P.WithUnknown(b, b.unknown + EncodeRecord(r)))
  {
    hide EncodeRecord, P.Absorb, P.Assign, P.Stored;
  }

  class File {
    var mapName: bytes
    var fileName: bytes
    var content: bytes
    var packetNum: int32
    var packetTotal: int32
    var md5: bytes
    var unknown: bytes
    var cachedSize: int32

    ghost function Value(): P.Body
      reads this
    {
      P.File(mapName, fileName, content, packetNum, packetTotal, md5, unknown)
    }

    constructor ()
      ensures Value() == P.Empty(P.FileKind)
    {
      mapName := [];
      fileName := [];
      content := [];
      packetNum := 0;
      packetTotal := 0;
      md5 := [];
      unknown := [];
      cachedSize := 0;
    }

    method Clear()
      modifies this
      ensures Value() == P.Empty(P.FileKind)
    {
      mapName := [];
      fileName := [];
      content := [];
      packetNum := 0;
      packetTotal := 0;
      md5 := [];
      unknown := [];
    }

    method InternalParse(s: bytes) returns (ok: bool)
      modifies this
      ensures P.Parse(old(Value()), s) == if ok then Some(Value()) else None
      ensures Ended(P.Consume(old(Value()), s), ok, Value())
    {
      hide Reads, ReadBody, GoOn, P.Parse, P.Consume;
      var p := 0;
      assert s[0..] == s;
      while p < |s|
        invariant p <= |s|
        invariant P.Consume(old(Value()), s) == P.Consume(Value(), s[p..])
        decreases |s| - p
      {
        var next, tag := ReadTag(s, p);
        Turn(Value(), s, p, next, tag);
        if next == -1 { return false; }
        var q := ParseField(s, next, tag);
        if q == -1 { return false; }
        p := q;
      }
      AtEnd(Value(), s);
      return true;
    }

    /** The switch on the tag: the field whose value starts at `p`; -1 for a failure. */
    method ParseField(s: bytes, p: nat, tag: uint32) returns (q: int)
      requires p <= |s|
      modifies this
      ensures q == -1 || p <= q <= |s|
      ensures var o := GoOn(old(Value()), s, p, ReadBody(tag, s[p..]));
              if q == -1 then !o.Done? && (o.Spoiled? ==> Value() == o.value) else o == P.Consume(Value(), s[q..])
    {
      hide Reads, ReadBody, P.Parse, P.Absorb, P.Consume, P.Take, P.KindOf, EncodeRecord, Utf8.Valid;
      if tag in {10, 18, 26, 50} {
        var str;
        q, str := InlineGreedyStringParser(s, p);
        if q == -1 { return -1; }
        FileText(Value(), tag / 8, str);
        if tag == 10 {
          mapName := str;
        } else if tag == 18 {
          fileName := str;
        } else if tag == 26 {
          content := str;
        } else {
          md5 := str;
        }
        if tag != 26 && !Utf8.Valid(str) { return -1; }
      } else if tag == 32 || tag == 40 {
        var value;
        q, value := ReadVarint32(s, p);
        NumberRead(s, p, false, q, value, tag);
        if q == -1 { return -1; }
        FileNumber(Value(), ReadBody(tag, s[p..]).value.0);
        if tag == 32 {
          packetNum := ToInt32(value);
        } else {
          packetTotal := ToInt32(value);
        }
      } else if tag == 0 || tag % 8 == 4 {
        EndTag(tag, s[p..]);
        return -1;
      } else {
        if ReadBody(tag, s[p..]).Some? { FileUnknown(Value(), ReadBody(tag, s[p..]).value.0); }
        var out;
        q, out := UnknownFieldParse(tag, unknown, s, p);
        if q == -1 { return -1; }
        unknown := out;
      }
    }

    method InternalSerialize(target: bytes) returns (t: bytes)
      requires L.Serializable(P.Serialize(Value()))
      ensures t == target + P.Serialize(Value())
    {
      hide EncodeRecord, EncodeAll, P.Serialize, P.TextField, P.IntField, P.RealField;
      SerializableFits(Value());
      FileBytes(Value());
      t := target;
      t := WriteText(1, mapName, t);
      ghost var done := EncodeAll(P.TextField(1, mapName));
      t := WriteText(2, fileName, t);
      done := done + EncodeAll(P.TextField(2, fileName));
      assert t == target + done;
      t := WriteText(3, content, t);
      done := done + EncodeAll(P.TextField(3, content));
      assert t == target + done;
      t := WriteInt(4, packetNum, t);
      done := done + EncodeAll(P.IntField(4, packetNum));
      assert t == target + done;
      t := WriteInt(5, packetTotal, t);
      done := done + EncodeAll(P.IntField(5, packetTotal));
      assert t == target + done;
      t := WriteText(6, md5, t);
      done := done + EncodeAll(P.TextField(6, md5));
      assert t == target + done;
      t := t + unknown;
      assert t == target + (done + unknown);
    }

    method ByteSizeLong() returns (total: nat)
      modifies this`cachedSize
      ensures Sizes(total, |P.Serialize(Value())|) && cachedSize == ToInt32(total)
    {
      hide P.Serialize, LengthDelimitedSize, VarintSize, Int32SizePlusOne, E.SizeOf;
      hide P.TextField, P.IntField, P.RealField;
      E.FileSizeIs(Value());
      IntSize(4, packetNum);
      IntSize(5, packetTotal);
      total := 0;
      ghost var exact := 0;
      if mapName != [] { total := total + 1 + LengthDelimitedSize(|mapName|); }
      exact := AddText(1, mapName, total - TextCount(mapName), exact);
      if fileName != [] { total := total + 1 + LengthDelimitedSize(|fileName|); }
      exact := AddText(2, fileName, total - TextCount(fileName), exact);
      if content != [] { total := total + 1 + LengthDelimitedSize(|content|); }
      exact := AddText(3, content, total - TextCount(content), exact);
      if md5 != [] { total := total + 1 + LengthDelimitedSize(|md5|); }
      exact := AddText(6, md5, total - TextCount(md5), exact);
      if packetNum != 0 { total := total + Int32SizePlusOne(packetNum); }
      exact := exact + E.SizeOf(P.IntField(4, packetNum));
      if packetTotal != 0 { total := total + Int32SizePlusOne(packetTotal); }
      exact := exact + E.SizeOf(P.IntField(5, packetTotal));
      assert Sizes(total, exact);
      total := total + |unknown|;
      cachedSize := ToInt32(total);
    }

    method MergeFrom(from: File)
      requires from != this
      modifies this
      ensures Value() == P.Merge(old(Value()), from.Value())
    {
      if from.mapName != [] { mapName := from.mapName; }
      if from.fileName != [] { fileName := from.fileName; }
      if from.content != [] { content := from.content; }
      if from.md5 != [] { md5 := from.md5; }
      if from.packetNum != 0 { packetNum := from.packetNum; }
      if from.packetTotal != 0 { packetTotal := from.packetTotal; }
      unknown := unknown + from.unknown;
    }

    method CopyFrom(from: File)
      modifies this
      ensures Value() == old(from.Value())
    {
      if from == this { return; }
      Clear();
      MergeFrom(from);
      L.MergeIntoEmpty(from.Value());
    }
  }

  // ---- FileTransferStatus ----

  class FileTransferStatus {
    var packetIndex: int32
    var totalPackets: int32
    var currentName: bytes
    var unknown: bytes
    var cachedSize: int32

    ghost function Value(): P.Body
      reads this
    {
      P.Status(packetIndex, totalPackets, currentName, unknown)
    }

    constructor ()
      ensures Value() == P.Empty(P.StatusKind)
    {
      packetIndex := 0;
      totalPackets := 0;
      currentName := [];
      unknown := [];
      cachedSize := 0;
    }

    method Clear()
      modifies this
      ensures Value() == P.Empty(P.StatusKind)
    {
      packetIndex := 0;
      totalPackets := 0;
      currentName := [];
      unknown := [];
    }

    method InternalParse(s: bytes) returns (ok: bool)
      modifies this
      ensures P.Parse(old(Value()), s) == if ok then Some(Value()) else None
      ensures Ended(P.Consume(old(Value()), s), ok, Value())
    {
      hide Reads, ReadBody, P.Parse, P.Absorb, P.Consume, EncodeRecord, Utf8.Valid;
      var p := 0;
      assert s[0..] == s;
      while p < |s|
        invariant p <= |s|
        invariant P.Consume(old(Value()), s) == P.Consume(Value(), s[p..])
      {
        var next, tag := ReadTag(s, p);
        Turn(Value(), s, p, next, tag);
        if next == -1 { return false; }
        if tag == 8 {
          var q, value := ReadVarint32(s, next);
          NumberRead(s, next, false, q, value, tag);
          if q == -1 { return false; }
          packetIndex := ToInt32(value);
          p := q;
        } else if tag == 16 {
          var q, value := ReadVarint32(s, next);
          NumberRead(s, next, false, q, value, tag);
          if q == -1 { return false; }
          totalPackets := ToInt32(value);
          p := q;
        } else if tag == 26 {
          var q, str := InlineGreedyStringParser(s, next);
          if q == -1 { return false; }
          currentName := str;
          if !Utf8.Valid(str) { return false; }
          p := q;
        } else if tag == 0 || tag % 8 == 4 {
          EndTag(tag, s[next..]);
          return false;
        } else {
          var q, out := UnknownFieldParse(tag, unknown, s, next);
          if q == -1 { return false; }
          unknown := out;
          p := q;
        }
      }
      AtEnd(Value(), s);
      return true;
    }

    method InternalSerialize(target: bytes) returns (t: bytes)
      requires L.Serializable(P.Serialize(Value()))
      ensures t == target + P.Serialize(Value())
    {
      hide EncodeRecord, EncodeAll, P.Serialize, P.TextField, P.IntField, P.RealField;
      SerializableFits(Value());
      StatusBytes(Value());
      t := target;
      t := WriteInt(1, packetIndex, t);
      ghost var done := EncodeAll(P.IntField(1, packetIndex));
      t := WriteInt(2, totalPackets, t);
      done := done + EncodeAll(P.IntField(2, totalPackets));
      assert t == target + done;
      t := WriteText(3, currentName, t);
      done := done + EncodeAll(P.TextField(3, currentName));
      assert t == target + done;
      t := t + unknown;
      assert t == target + (done + unknown);
    }

    method ByteSizeLong() returns (total: nat)
      modifies this`cachedSize
      ensures Sizes(total, |P.Serialize(Value())|) && cachedSize == ToInt32(total)
    {
      hide P.Serialize, LengthDelimitedSize, VarintSize, Int32SizePlusOne, E.SizeOf;
      hide P.TextField, P.IntField, P.RealField;
      E.StatusSizeIs(Value());
      IntSize(1, packetIndex);
      IntSize(2, totalPackets);
      total := 0;
      ghost var exact := 0;
      if currentName != [] { total := total + 1 + LengthDelimitedSize(|currentName|); }
      exact := AddText(3, currentName, total - TextCount(currentName), exact);
      if packetIndex != 0 { total := total + Int32SizePlusOne(packetIndex); }
      exact := exact + E.SizeOf(P.IntField(1, packetIndex));
      if totalPackets != 0 { total := total + Int32SizePlusOne(totalPackets); }
      exact := exact + E.SizeOf(P.IntField(2, totalPackets));
      assert Sizes(total, exact);
      total := total + |unknown|;
      cachedSize := ToInt32(total);
    }

    method MergeFrom(from: FileTransferStatus)
      requires from != this
      modifies this
      ensures Value() == P.Merge(old(Value()), from.Value())
    {
      if from.currentName != [] { currentName := from.currentName; }
      if from.packetIndex != 0 { packetIndex := from.packetIndex; }
      if from.totalPackets != 0 { totalPackets := from.totalPackets; }
      unknown := unknown + from.unknown;
    }

    method CopyFrom(from: FileTransferStatus)
      modifies this
      ensures Value() == old(from.Value())
    {
      if from == this { return; }
      Clear();
      MergeFrom(from);
      L.MergeIntoEmpty(from.Value());
    }
  }

  lemma AtMessageEnd(m: P.Message, s: bytes)
    ensures P.ConsumeMessage(m, s[|s|..]) == P.Done(m)
  {
  }

  lemma TypeField(m: P.Message, r: Record)
    requires r.Number? && r.num == 1
    ensures P.TakeMessage(m, r) == P.Done(m.(typ := ToInt32(r.v)))
  {
  }

  lemma PayloadField(m: P.Message, num: nat, sub: bytes)
    requires 2 <= num <= 6 && |sub| <= MAX_SIZE
    ensures P.TakeMessage(m, Delimited(num, sub)) ==
            WithPayload(m, P.Consume(P.Mutable(m.payload, P.KindAt(num).value), sub))
  {
    hide P.Consume, P.Mutable, P.Parse, P.AbsorbMessage, P.KindOf;
  }

  /** The envelope around a payload whose parse ended so. */
  ghost function WithPayload(m: P.Message, o: P.Outcome<P.Body>): P.Outcome<P.Message> {
    match o
    case Done(b) => P.Done(m.(payload := Some(b)))
    case Spoiled(b) => P.Spoiled(m.(payload := Some(b)))
    case Unreadable => P.Unreadable
  }

  lemma UnknownField(m: P.Message, r: Record)
    requires Readable(r) && Tag(r) !in {8, 18, 26, 34, 42, 50}
    ensures P.TakeMessage(m, r) == P.Done(m.(unknown := m.unknown + EncodeRecord(r)))
  {
    hide EncodeRecord;
  }

  lemma EnvelopeBytes(m: P.Message)
    ensures P.SerializeMessage(m) == EncodeAll(P.IntField(1, m.typ)) + EncodeAll(P.PayloadFields(m.payload)) + m.unknown
  {
    hide EncodeAll, P.IntField, P.PayloadFields;
    EncodeAllAppend(P.IntField(1, m.typ), P.PayloadFields(m.payload));
  }

  lemma Regroup(a: bytes, b: bytes, c: bytes, d: bytes)
    ensures a + b + c + d == a + (b + c + d)
  {
  }

  lemma NoPayloadBytes()
    ensures EncodeAll(P.PayloadFields(None)) == []
  {
  }

  lemma PayloadBytes(b: P.Body)
    ensures EncodeAll(P.PayloadFields(Some(b))) ==
            Encode(8 * P.FieldNumber(P.KindOf(b)) + 2) + Encode(|P.Serialize(b)|) + P.Serialize(b)
    ensures forall size: nat :: Sizes(size, |P.Serialize(b)|) ==>
              Sizes(1 + LengthDelimitedSize(size), |EncodeAll(P.PayloadFields(Some(b)))|)
  {
    hide P.Serialize, EncodeAll, Encode, VarintSize;
    var num := P.FieldNumber(P.KindOf(b));
    EncodeAllOne(Delimited(num, P.Serialize(b)));
    if |P.Serialize(b)| < 0x1_0000_0000 { DelimitedSize(num, P.Serialize(b)); }
  }

  /** The tag and the length prefix of InternalWriteMessage. */
  method WriteLengthPrefix(num: nat, cachedSize: int32, target: bytes) returns (t: bytes)
    requires 0 < num < 16 && 0 <= cachedSize
    ensures t == target + (Encode(8 * num + 2) + Encode(cachedSize))
  {
    hide Encode;
    t := WriteVarint(8 * num + 2, target);
    t := WriteVarint(cachedSize, t);
  }

  // ---- Message ----

  /** The envelope. `oneofCase` says which payload pointer is live; zero means none. */
  class Message {
    var typ: int32
    var oneofCase: nat
    var heartbeat: Heartbeat?
    var itemlist: Itemlist?
    var location: Location?
    var file: File?
    var status: FileTransferStatus?
    var unknown: bytes
    var cachedSize: int32

    ghost predicate Valid()
      reads `oneofCase, `heartbeat, `itemlist, `location, `file, `status
    {
      && (oneofCase == 0 || 2 <= oneofCase <= 6)
      && (oneofCase == 2 ==> heartbeat != null)
      && (oneofCase == 3 ==> itemlist != null)
      && (oneofCase == 4 ==> location != null)
      && (oneofCase == 5 ==> file != null)
      && (oneofCase == 6 ==> status != null)
    }

    /** The live payload object. */
    ghost function Live(): (objects: set<object>)
      requires Valid()
      ensures this !in objects
      reads `oneofCase, `heartbeat, `itemlist, `location, `file, `status
    {
      if oneofCase == 2 then {heartbeat}
      else if oneofCase == 3 then {itemlist}
      else if oneofCase == 4 then {location}
      else if oneofCase == 5 then {file}
      else if oneofCase == 6 then {status}
      else {}
    }

    ghost function Payload(): Option<P.Body>
      requires Valid()
      reads `oneofCase, `heartbeat, `itemlist, `location, `file, `status, Live()
    {
      if oneofCase == 2 then Some(heartbeat.Value())
      else if oneofCase == 3 then Some(itemlist.Value())
      else if oneofCase == 4 then Some(location.Value())
      else if oneofCase == 5 then Some(file.Value())
      else if oneofCase == 6 then Some(status.Value())
      else None
    }

    ghost function Value(): P.Message
      requires Valid()
      reads this, Live()
    {
      P.Message(typ, Payload(), unknown)
    }

    constructor ()
      ensures Valid() && Value() == P.EMPTY
    {
      typ, oneofCase, unknown, cachedSize := 0, 0, [], 0;
      heartbeat, itemlist, location, file, status := null, null, null, null, null;
    }

    /** Dropping the payload object; only the case tag is observable. */
    method ClearPayload()
      requires Valid()
      modifies this
      ensures Valid() && Live() == {}
      ensures Value() == old(Value()).(payload := None)
    {
      heartbeat, itemlist, location, file, status := null, null, null, null, null;
      oneofCase := 0;
    }

    method Clear()
      requires Valid()
      modifies this
      ensures Valid() && Live() == {} && Value() == P.EMPTY
    {
      typ := 0;
      ClearPayload();
      unknown := [];
    }

    method MutableHeartbeat() returns (r: Heartbeat)
      requires Valid()
      modifies this
      ensures Valid() && oneofCase == 2 && heartbeat == r && Live() == {r}
      ensures fresh(Live() - old(Live()))
      ensures typ == old(typ) && unknown == old(unknown)
      ensures r.Value() == P.Mutable(old(Payload()), P.HeartbeatKind)
    {
      if oneofCase != 2 {
        ClearPayload();
        oneofCase := 2;
        heartbeat := new Heartbeat();
      }
      r := heartbeat;
    }

    method MutableItemlist() returns (r: Itemlist)
      requires Valid()
      modifies this
      ensures Valid() && oneofCase == 3 && itemlist == r && Live() == {r}
      ensures fresh(Live() - old(Live()))
      ensures typ == old(typ) && unknown == old(unknown)
      ensures r.Value() == P.Mutable(old(Payload()), P.ItemlistKind)
    {
      if oneofCase != 3 {
        ClearPayload();
        oneofCase := 3;
        itemlist := new Itemlist();
      }
      r := itemlist;
    }

    method MutableLocation() returns (r: Location)
      requires Valid()
      modifies this
      ensures Valid() && oneofCase == 4 && location == r && Live() == {r}
      ensures fresh(Live() - old(Live()))
      ensures typ == old(typ) && unknown == old(unknown)
      ensures r.Value() == P.Mutable(old(Payload()), P.LocationKind)
    {
      if oneofCase != 4 {
        ClearPayload();
        oneofCase := 4;
        location := new Location();
      }
      r := location;
    }

    method MutableFile() returns (r: File)
      requires Valid()
      modifies this
      ensures Valid() && oneofCase == 5 && file == r && Live() == {r}
      ensures fresh(Live() - old(Live()))
      ensures typ == old(typ) && unknown == old(unknown)
      ensures r.Value() == P.Mutable(old(Payload()), P.FileKind)
    {
      if oneofCase != 5 {
        ClearPayload();
        oneofCase := 5;
        file := new File();
      }
      r := file;
    }

    method MutableFileTransferStatus() returns (r: FileTransferStatus)
      requires Valid()
      modifies this
      ensures Valid() && oneofCase == 6 && status == r && Live() == {r}
      ensures fresh(Live() - old(Live()))
      ensures typ == old(typ) && unknown == old(unknown)
      ensures r.Value() == P.Mutable(old(Payload()), P.StatusKind)
    {
      if oneofCase != 6 {
        ClearPayload();
        oneofCase := 6;
        status := new FileTransferStatus();
      }
      r := status;
    }

    method InternalParse(s: bytes) returns (ok: bool)
      requires Valid()
      modifies this, Live()
      ensures Valid() && fresh(Live() - old(Live()))
      ensures P.ParseMessage(old(Value()), s) == if ok then Some(Value()) else None
      ensures Ended(P.ConsumeMessage(old(Value()), s), ok, Value())
    {
      hide Payload, Reads, ReadBody, P.ParseMessage, P.ConsumeMessage, GoOnMessage;
      var p := 0;
      assert s[0..] == s;
      while p < |s|
        invariant p <= |s| && Valid() && fresh(Live() - old(Live()))
        invariant P.ConsumeMessage(old(Value()), s) == P.ConsumeMessage(Value(), s[p..])
        decreases |s| - p
      {
        var next, tag := ReadTag(s, p);
        TurnMessage(Value(), s, p, next, tag);
        if next == -1 { return false; }
        var q := ParseField(s, next, tag);
        if q == -1 { return false; }
        p := q;
      }
      AtMessageEnd(Value(), s);
      return true;
    }

    /** The switch on the tag: the field whose value starts at `p`; -1 for a failure. */
    method ParseField(s: bytes, p: nat, tag: uint32) returns (q: int)
      requires Valid() && p <= |s|
      modifies this, Live()
      ensures Valid() && fresh(Live() - old(Live()))
      ensures q == -1 || p <= q <= |s|
      ensures var o := GoOnMessage(old(Value()), s, p, ReadBody(tag, s[p..]));
              if q == -1 then !o.Done? && (o.Spoiled? ==> Value() == o.value)
              else o == P.ConsumeMessage(Value(), s[q..])
    {
      hide Payload, Reads, ReadBody, P.ConsumeMessage, P.TakeMessage, P.Consume, P.Mutable, P.KindAt, EncodeRecord;
      hide P.ParseMessage, P.AbsorbMessage, P.Parse, P.Absorb;
      if tag == 8 {
        var value;
        q, value := ReadVarint64(s, p);
        NumberRead(s, p, true, q, value, tag);
        if q == -1 { return -1; }
        TypeField(Value(), ReadBody(tag, s[p..]).value.0);
        typ := ToInt32(value);
      } else if tag in {18, 26, 34, 42, 50} {
        var sub;
        q, sub := InlineGreedyStringParser(s, p);
        if q == -1 { return -1; }
        PayloadField(Value(), tag / 8, sub);
        var good := ParsePayload(tag / 8, sub);
        if !good { return -1; }
      } else if tag == 0 || tag % 8 == 4 {
        EndTag(tag, s[p..]);
        return -1;
      } else {
        if ReadBody(tag, s[p..]).Some? { UnknownField(Value(), ReadBody(tag, s[p..]).value.0); }
        var out;
        q, out := UnknownFieldParse(tag, unknown, s, p);
        if q == -1 { return -1; }
        unknown := out;
      }
    }

    /** ParseMessage on the sub-message of field `num`, over the bytes its length prefix delimits. */
    method ParsePayload(num: nat, sub: bytes) returns (ok: bool)
      requires Valid() && 2 <= num <= 6
      modifies this, Live()
      ensures Valid() && fresh(Live() - old(Live()))
      ensures var o := P.Consume(P.Mutable(old(Payload()), P.KindAt(num).value), sub);
              Ended(WithPayload(old(Value()), o), ok, Value())
    {
      hide P.Parse, P.Consume;
      if num == 2 {
        var m := MutableHeartbeat();
        ok := m.InternalParse(sub);
      } else if num == 3 {
        var m := MutableItemlist();
        ok := m.InternalParse(sub);
      } else if num == 4 {
        var m := MutableLocation();
        ok := m.InternalParse(sub);
      } else if num == 5 {
        var m := MutableFile();
        ok := m.InternalParse(sub);
      } else {
        var m := MutableFileTransferStatus();
        ok := m.InternalParse(sub);
      }
    }

    ghost predicate CachedSizes()
      requires Valid()
      reads `oneofCase, `heartbeat, `itemlist, `location, `file, `status, Live()
    {
      && (oneofCase == 2 ==> heartbeat.cachedSize == |P.Serialize(heartbeat.Value())|)
      && (oneofCase == 3 ==> itemlist.cachedSize == |P.Serialize(itemlist.Value())|)
      && (oneofCase == 4 ==> location.cachedSize == |P.Serialize(location.Value())|)
      && (oneofCase == 5 ==> file.cachedSize == |P.Serialize(file.Value())|)
      && (oneofCase == 6 ==> status.cachedSize == |P.Serialize(status.Value())|)
    }

    /** The payload, behind its tag and the length its object has cached. */
    method WritePayload(target: bytes) returns (t: bytes)
      requires Valid() && CachedSizes()
      requires Payload().Some? ==> L.Serializable(P.Serialize(Payload().value))
      ensures t == target + EncodeAll(P.PayloadFields(Payload()))
    {
      hide P.Serialize, P.PayloadFields, EncodeAll, Encode;
      NoPayloadBytes();
      t := target;
      if Payload().Some? { PayloadBytes(Payload().value); }
      if oneofCase == 2 {
        t := WriteLengthPrefix(2, heartbeat.cachedSize, t);
        t := heartbeat.InternalSerialize(t);
      } else if oneofCase == 3 {
        t := WriteLengthPrefix(3, itemlist.cachedSize, t);
        t := itemlist.InternalSerialize(t);
      } else if oneofCase == 4 {
        t := WriteLengthPrefix(4, location.cachedSize, t);
        t := location.InternalSerialize(t);
      } else if oneofCase == 5 {
        t := WriteLengthPrefix(5, file.cachedSize, t);
        t := file.InternalSerialize(t);
      } else if oneofCase == 6 {
        t := WriteLengthPrefix(6, status.cachedSize, t);
        t := status.InternalSerialize(t);
      }
    }

    /** The length prefix of the payload is its cached size, which ByteSizeLong must have stored. */
    method InternalSerialize(target: bytes) returns (t: bytes)
      requires Valid() && CachedSizes() && L.Serializable(P.SerializeMessage(Value()))
      ensures t == target + P.SerializeMessage(Value())
    {
      hide P.Serialize, P.SerializeMessage, EncodeAll, P.IntField, P.PayloadFields;
      EnvelopeBytes(Value());
      E.PayloadSize(Value());
      t := WriteInt(1, typ, target);
      t := WritePayload(t);
      t := t + unknown;
      Regroup(target, EncodeAll(P.IntField(1, typ)), EncodeAll(P.PayloadFields(Payload())), unknown);
    }

    /** Bytes the payload takes with tag and prefix; every object under it caches its size. */
    method PayloadSizeLong() returns (size: nat)
      requires Valid()
      modifies Live()
      ensures Valid() && Live() == old(Live()) && Payload() == old(Payload())
      ensures Sizes(size, |EncodeAll(P.PayloadFields(Payload()))|)
      ensures size <= 0x7FFF_FFFF ==> CachedSizes()
    {
      hide P.Serialize, EncodeAll, P.PayloadFields, VarintSize;
      NoPayloadBytes();
      if Payload().Some? { PayloadBytes(Payload().value); }
      size := 0;
      if oneofCase == 2 {
        size := heartbeat.ByteSizeLong();
        size := 1 + LengthDelimitedSize(size);
      } else if oneofCase == 3 {
        size := itemlist.ByteSizeLong();
        size := 1 + LengthDelimitedSize(size);
      } else if oneofCase == 4 {
        size := location.ByteSizeLong();
        size := 1 + LengthDelimitedSize(size);
      } else if oneofCase == 5 {
        size := file.ByteSizeLong();
        size := 1 + LengthDelimitedSize(size);
      } else if oneofCase == 6 {
        size := status.ByteSizeLong();
        size := 1 + LengthDelimitedSize(size);
      }
    }

    method ByteSizeLong() returns (total: nat)
      requires Valid()
      modifies this`cachedSize, Live()
      ensures Valid() && Live() == old(Live()) && Value() == old(Value())
      ensures Sizes(total, |P.SerializeMessage(Value())|) && cachedSize == ToInt32(total)
      ensures total <= 0x7FFF_FFFF ==> CachedSizes()
    {
      hide P.Serialize, P.SerializeMessage, EncodeAll, P.IntField, P.PayloadFields, Int32SizePlusOne;
      EnvelopeBytes(Value());
      IntSize(1, typ);
      total := 0;
      if typ != 0 { total := total + Int32SizePlusOne(typ); }
      var size := PayloadSizeLong();
      total := total + size;
      total := total + |unknown|;
      cachedSize := ToInt32(total);
    }

    /** The switch on the other message's case. */
    method MergePayload(from: Message)
      requires Valid() && from.Valid() && from != this && Live() !! from.Live()
      modifies this, Live()
      ensures Valid() && fresh(Live() - old(Live()))
      ensures typ == old(typ) && unknown == old(unknown)
      ensures Payload() == P.MergePayload(old(Payload()), old(from.Payload()))
    {
      hide P.Merge, P.Mutable;
      if from.oneofCase == 2 {
        var mine := MutableHeartbeat();
        mine.MergeFrom(from.heartbeat);
      } else if from.oneofCase == 3 {
        var mine := MutableItemlist();
        mine.MergeFrom(from.itemlist);
      } else if from.oneofCase == 4 {
        var mine := MutableLocation();
        mine.MergeFrom(from.location);
      } else if from.oneofCase == 5 {
        var mine := MutableFile();
        mine.MergeFrom(from.file);
      } else if from.oneofCase == 6 {
        var mine := MutableFileTransferStatus();
        mine.MergeFrom(from.status);
      }
    }

    method MergeFrom(from: Message)
      requires Valid() && from.Valid() && from != this && Live() !! from.Live()
      modifies this, Live()
      ensures Valid() && fresh(Live() - old(Live()))
      ensures Value() == P.MergeMessage(old(Value()), old(from.Value()))
    {
      hide Payload, P.MergePayload;
      if from.typ != 0 { typ := from.typ; }
      MergePayload(from);
      unknown := unknown + from.unknown;
    }

    method CopyFrom(from: Message)
      requires Valid() && from.Valid() && (from == this || Live() !! from.Live())
      modifies this, Live()
      ensures Valid() && fresh(Live() - old(Live()))
      ensures Value() == old(from.Value())
    {
      hide Payload, P.MergeMessage;
      if from == this { return; }
      Clear();
      E.MergeMessageIntoEmpty(from.Value());
      MergeFrom(from);
    }

    method ParseFromString(s: bytes) returns (ok: bool)
      requires Valid()
      modifies this, Live()
      ensures Valid() && fresh(Live() - old(Live()))
      ensures P.ParseMessage(P.EMPTY, s) == if ok then Some(Value()) else None
      ensures Ended(P.ConsumeMessage(P.EMPTY, s), ok, Value())
    {
      Clear();
      ok := InternalParse(s);
    }

    /** ByteSizeLong, the 2 GB check, then _InternalSerialize with the sizes just cached. */
    method SerializeToString() returns (ok: bool, out: bytes)
      requires Valid()
      modifies this`cachedSize, Live()
      ensures Valid() && Live() == old(Live()) && Value() == old(Value())
      ensures ok <==> |P.SerializeMessage(Value())| <= 2147483647
      ensures ok ==> out == P.SerializeMessage(Value())
    {
      var size := ByteSizeLong();
      if size > 0x7FFF_FFFF { return false, []; }
      out := InternalSerialize([]);
      return true, out;
    }
  }
}
