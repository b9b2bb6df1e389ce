/**
 The bytes of the messages, with every tag written out: what each field is written as, and what
 each tag read does. Tags are the one-byte varints of header.proto's field numbers.
 */
module FieldBytes {
  import opened Bytes
  import opened Varint
  import opened Wire
  import opened Packet
  import M = PacketMessages
  import Utf8
  import opened Wrappers

  // ---- Writing ----

  /** A text field that is not empty: its tag, its length, its bytes. */
  function Text(tag: byte, s: bytes): bytes { if s == [] then [] else [tag] + Encode(|s|) + s }

  /** A number that is not zero: its tag and its varint, ten bytes long if it is negative. */
  function Int(tag: byte, n: int32): bytes {
    if n == 0 then [] else [tag] + Encode(if n < 0 then n + 0x1_0000_0000_0000_0000 else n)
  }

  /** A double whose bits are not all zero. */
  function Real(tag: byte, raw: raw64): bytes { if raw == [0, 0, 0, 0, 0, 0, 0, 0] then [] else [tag] + raw }

  /** Every item is written, the empty one too. */
  function Items(items: seq<bytes>): bytes {
    if items == [] then [] else Items(items[..|items| - 1]) + ([10] + Encode(|items[|items| - 1]|) + items[|items| - 1])
  }

  lemma OneByte(tag: byte)
    requires tag < 128
    ensures Encode(tag) == [tag]
  {}

  lemma TextIs(num: nat, s: bytes)
    requires 0 < num < 16
    ensures EncodeAll(TextField(num, s)) == Text(8 * num + 2, s)
  {
    hide Encode, EncodeAll;
    if s == [] {
      assert EncodeAll([]) == [] by { M.NoPayloadBytes(); }
    } else {
      OneByte(8 * num + 2);
      M.EncodeAllOne(Delimited(num, s));
      var t: bytes := [8 * num + 2];
      assert t + (Encode(|s|) + s) == t + Encode(|s|) + s;
    }
  }

  lemma IntIs(num: nat, n: int32)
    requires 0 < num < 16
    ensures EncodeAll(IntField(num, n)) == Int(8 * num, n)
  {
    hide Encode;
    if n != 0 {
      OneByte(8 * num);
      M.EncodeAllOne(Number(num, SignExtend(n)));
    }
  }

  lemma RealIs(num: nat, raw: raw64)
    requires 0 < num < 16
    ensures EncodeAll(RealField(num, raw)) == Real(8 * num + 1, raw)
  {
    hide Encode;
    if raw != ZERO64 {
      OneByte(8 * num + 1);
      M.EncodeAllOne(Fixed64(num, raw));
    }
  }

  lemma {:induction false} ItemsAre(items: seq<bytes>)
    ensures EncodeAll(ItemFields(items)) == Items(items)
    decreases |items|
  {
    hide Encode, ItemFields, EncodeAll;
    if items == [] {
      NoItems();
    } else {
      var init, last := items[..|items| - 1], items[|items| - 1];
      ItemsAre(init);
      OneByte(10);
      assert init + [last] == items;
      ItemLast(init, last);
      assert EncodeRecord(Delimited(1, last)) == [10] + Encode(|last|) + last;
    }
  }

  lemma NoItems()
    ensures EncodeAll(ItemFields([])) == []
  {}

  lemma ItemLast(items: seq<bytes>, s: bytes)
    ensures EncodeAll(ItemFields(items + [s])) == EncodeAll(ItemFields(items)) + EncodeRecord(Delimited(1, s))
  {
    hide EncodeRecord;
    assert ItemFields(items + [s]) == ItemFields(items) + [Delimited(1, s)];
    EncodeAllSnoc(ItemFields(items), Delimited(1, s));
  }

  /** What each body is written as, in field order, the unknown bytes behind the fields. */
  lemma BodyBytes(b: Body)
    ensures b.Heartbeat? ==> Serialize(b) == Text(10, b.nodeId) + b.unknown
    ensures b.Itemlist? ==> Serialize(b) == Items(b.items) + b.unknown
    ensures b.Location? ==> Serialize(b) == Real(9, b.x) + Real(17, b.y) + Real(25, b.yaw) + b.unknown
    ensures b.File? ==>
              Serialize(b) == Text(10, b.mapName) + Text(18, b.fileName) + Text(26, b.content)
                              + Int(32, b.packetNum) + Int(40, b.packetTotal) + Text(50, b.md5) + b.unknown
    ensures b.Status? ==>
              Serialize(b) == Int(8, b.packetIndex) + Int(16, b.totalPackets) + Text(26, b.currentName) + b.unknown
  {
    hide Text, Int, Real, TextField, IntField, RealField, EncodeAll, Items;
    match b
    case Heartbeat(id, _) => M.HeartbeatBytes(b); TextIs(1, id);
    case Itemlist(items, _) => ItemlistBytes(b);
    case Location(x, y, yaw, _) => M.LocationBytes(b); RealIs(1, x); RealIs(2, y); RealIs(3, yaw);
    case File(mapN, name, content, num, total, md5, _) =>
      M.FileBytes(b);
      TextIs(1, mapN);
      TextIs(2, name);
      TextIs(3, content);
      IntIs(4, num);
      IntIs(5, total);
      TextIs(6, md5);
    case Status(index, total, name, _) => M.StatusBytes(b); IntIs(1, index); IntIs(2, total); TextIs(3, name);
  }

  lemma ItemlistBytes(b: Body)
    requires b.Itemlist?
    ensures Serialize(b) == Items(b.items) + b.unknown
  {
    ItemsAre(b.items);
  }

  /** The envelope: the type, then the payload behind the tag of its kind. */
  lemma EnvelopeIs(m: Message)
    ensures m.payload.None? ==> SerializeMessage(m) == Int(8, m.typ) + m.unknown
    ensures m.payload.Some? ==>
              var b := m.payload.value;
              var s := Encode(|Serialize(b)|) + Serialize(b);
              && (b.Heartbeat? ==> SerializeMessage(m) == Int(8, m.typ) + ([18] + s) + m.unknown)
              && (b.Itemlist? ==> SerializeMessage(m) == Int(8, m.typ) + ([26] + s) + m.unknown)
              && (b.Location? ==> SerializeMessage(m) == Int(8, m.typ) + ([34] + s) + m.unknown)
              && (b.File? ==> SerializeMessage(m) == Int(8, m.typ) + ([42] + s) + m.unknown)
              && (b.Status? ==> SerializeMessage(m) == Int(8, m.typ) + ([50] + s) + m.unknown)
  {
    hide Encode, Serialize, EncodeAll, IntField, Int;
    M.EnvelopeBytes(m);
    IntIs(1, m.typ);
    if m.payload.None? {
      M.NoPayloadBytes();
    } else {
      var b := m.payload.value;
      M.PayloadBytes(b);
      OneByte(8 * FieldNumber(KindOf(b)) + 2);
      var t, n, s := Encode(8 * FieldNumber(KindOf(b)) + 2), Encode(|Serialize(b)|), Serialize(b);
      assert t + n + s == t + (n + s);
    }
  }

  // ---- Reading: one record ----

  /** The tag is one byte: the rest of the record follows it. */
  lemma TagFirst(tag: byte, s: bytes)
    requires tag < 128
    ensures NextRecord([tag] + s) ==
            match ReadBody(tag, s) case None => None case Some((r, k)) => Some((r, 1 + k))
  {
    hide ReadBody;
    assert ([tag] + s)[0] == tag && ([tag] + s)[1..] == s;
  }

  /** Wire type 2: as many bytes as declared, up to INT_MAX - 16 and as there are. */
  lemma DelimitedRead(num: nat, n: nat, s: bytes)
    requires 0 < num < 16 && n < 0x8_0000_0000
    ensures NextRecord([8 * num + 2] + (Encode(n) + s)) ==
            if n <= 2147483647 - 16 && n <= |s| then Some((Delimited(num, s[..n]), 1 + |Encode(n)| + n)) else None
  {
    hide Encode, Scan;
    TagFirst(8 * num + 2, Encode(n) + s);
    PowValues();
    EncodeLength(n, 5);
    ScanEncode(n, s, 5);
    var t, k := Encode(n) + s, |Encode(n)|;
    if n <= |s| { assert t[k..k + n] == s[..n]; }
  }

  /** Wire type 0: any varint of up to ten bytes, reduced to sixty-four bits. */
  lemma NumberRead(num: nat, s: bytes, rest: bytes, v: nat)
    requires 0 < num < 16 && Scan(s, 10) == Some((v, |s|))
    ensures NextRecord([8 * num] + (s + rest)) ==
            Some((Number(num, v % 0x1_0000_0000_0000_0000), 1 + |s|))
  {
    hide Scan;
    TagFirst(8 * num, s + rest);
    ScanExtend(s, rest, 10);
  }

  /** Wire types 1 and 5: eight bytes and four. */
  lemma FixedRead(num: nat, s: bytes)
    requires 0 < num < 16
    ensures NextRecord([8 * num + 1] + s) == if |s| < 8 then None else Some((Fixed64(num, s[..8]), 9))
    ensures NextRecord([8 * num + 5] + s) == if |s| < 4 then None else Some((Fixed32(num, s[..4]), 5))
  {
    hide NextRecord, Scan;
    TagFirst(8 * num + 1, s);
    TagFirst(8 * num + 5, s);
  }

  /** No record begins with field number zero, or with one of the other wire types. */
  lemma NoRecord(tag: byte, s: bytes)
    requires tag < 128 && (tag < 8 || tag % 8 in {4, 6, 7})
    ensures NextRecord([tag] + s) == None
  {
    TagFirst(tag, s);
  }

  // ---- Reading: one field of a body ----

  /** What a text leads to: parsing goes on behind it, or stops with it in place. */
  function AfterText(b: Body, s: bytes, rest: bytes): Outcome<Body> {
    if Utf8.Valid(s) then Consume(b, rest) else Spoiled(b)
  }

  lemma ConsumeStep(b: Body, head: bytes, rest: bytes, r: Record)
    requires head != [] && NextRecord(head + rest) == Some((r, |head|))
    ensures Consume(b, head + rest) == var o := Take(b, r); if o.Done? then Consume(o.value, rest) else o
  {
    hide NextRecord, Take, Parse;
    assert (head + rest)[|head|..] == rest;
  }

  lemma TextStep(b: Body, num: nat, s: bytes, rest: bytes)
    requires 0 < num < 16 && |s| <= 2147483647 - 16
    ensures Consume(b, [8 * num + 2] + Encode(|s|) + s + rest) ==
            var o := Take(b, Delimited(num, s)); if o.Done? then Consume(o.value, rest) else o
  {
    hide Encode, NextRecord, Take, Parse, Consume;
    DelimitedRead(num, |s|, s + rest);
    var head := [8 * num + 2] + Encode(|s|) + s;
    assert head + rest == [8 * num + 2] + (Encode(|s|) + (s + rest));
    assert (s + rest)[..|s|] == s;
    ConsumeStep(b, head, rest, Delimited(num, s));
  }

  lemma NumberStep(b: Body, num: nat, s: bytes, rest: bytes, v: nat)
    requires 0 < num < 16 && Scan(s, 10) == Some((v, |s|))
    ensures Consume(b, [8 * num] + s + rest) ==
            var o := Take(b, Number(num, v % 0x1_0000_0000_0000_0000)); if o.Done? then Consume(o.value, rest) else o
  {
    hide NextRecord, Take, Parse, Consume, Scan;
    NumberRead(num, s, rest, v);
    assert [8 * num] + s + rest == [8 * num] + (s + rest);
    ConsumeStep(b, [8 * num] + s, rest, Number(num, v % 0x1_0000_0000_0000_0000));
  }

  lemma RealStep(b: Body, num: nat, raw: raw64, rest: bytes)
    requires 0 < num < 16
    ensures Consume(b, [8 * num + 1] + raw + rest) ==
            var o := Take(b, Fixed64(num, raw)); if o.Done? then Consume(o.value, rest) else o
  {
    hide NextRecord, Take, Parse, Consume;
    FixedRead(num, raw + rest);
    assert [8 * num + 1] + raw + rest == [8 * num + 1] + (raw + rest);
    assert (raw + rest)[..8] == raw;
    ConsumeStep(b, [8 * num + 1] + raw, rest, Fixed64(num, raw));
  }

  /** Tag 10 of a heartbeat is the node's id; of an item list one more item. */
  lemma TextsRead(b: Body, s: bytes, rest: bytes)
    requires |s| <= 2147483647 - 16
    ensures b.Heartbeat? ==>
              Consume(b, [10] + Encode(|s|) + s + rest) == AfterText(b.(nodeId := s), s, rest)
    ensures b.Itemlist? ==>
              Consume(b, [10] + Encode(|s|) + s + rest) == AfterText(b.(items := b.items + [s]), s, rest)
    ensures b.Status? ==>
              Consume(b, [26] + Encode(|s|) + s + rest) == AfterText(b.(currentName := s), s, rest)
  {
    hide Encode, Utf8.Valid, Consume, Absorb, Parse;
    TextStep(b, 1, s, rest);
    TextStep(b, 3, s, rest);
  }

  /** The texts of a file packet; its content is bytes and is not looked at. */
  lemma FileTextsRead(b: Body, s: bytes, rest: bytes)
    requires b.File? && |s| <= 2147483647 - 16
    ensures Consume(b, [10] + Encode(|s|) + s + rest) == AfterText(b.(mapName := s), s, rest)
    ensures Consume(b, [18] + Encode(|s|) + s + rest) == AfterText(b.(fileName := s), s, rest)
    ensures Consume(b, [26] + Encode(|s|) + s + rest) == Consume(b.(content := s), rest)
    ensures Consume(b, [50] + Encode(|s|) + s + rest) == AfterText(b.(md5 := s), s, rest)
  {
    hide Encode, Consume, AfterText;
    FileTextRead(b, 1, 10, s, rest, b.(mapName := s));
    FileTextRead(b, 2, 18, s, rest, b.(fileName := s));
    FileTextRead(b, 3, 26, s, rest, b.(content := s));
    FileTextRead(b, 6, 50, s, rest, b.(md5 := s));
  }

  lemma FileTextRead(b: Body, num: nat, tag: byte, s: bytes, rest: bytes, b': Body)
    requires b.File? && num in {1, 2, 3, 6} && tag == 8 * num + 2 && |s| <= 2147483647 - 16
    requires b' == if num == 1 then b.(mapName := s) else if num == 2 then b.(fileName := s)
                   else if num == 3 then b.(content := s) else b.(md5 := s)
    ensures Consume(b, [tag] + Encode(|s|) + s + rest) ==
            if num == 3 then Consume(b', rest) else AfterText(b', s, rest)
  {
    hide Encode, Utf8.Valid, Consume, Absorb, Parse, Take;
    TextStep(b, num, s, rest);
    M.FileText(b, num, s);
  }

  /** The numbers keep the low thirty-two bits of whatever varint was sent. */
  lemma FileNumbersRead(b: Body, s: bytes, rest: bytes, v: nat)
    requires b.File? && Scan(s, 10) == Some((v, |s|))
    ensures Consume(b, [32] + s + rest) == Consume(b.(packetNum := ToInt32(v)), rest)
    ensures Consume(b, [40] + s + rest) == Consume(b.(packetTotal := ToInt32(v)), rest)
  {
    hide Consume, Take, Parse, Scan, ToInt32;
    NarrowOfWide64(v);
    NumbersTaken(b, v % 0x1_0000_0000_0000_0000);
    NumberStep(b, 4, s, rest, v);
    NumberStep(b, 5, s, rest, v);
  }

  lemma StatusNumbersRead(b: Body, s: bytes, rest: bytes, v: nat)
    requires b.Status? && Scan(s, 10) == Some((v, |s|))
    ensures Consume(b, [8] + s + rest) == Consume(b.(packetIndex := ToInt32(v)), rest)
    ensures Consume(b, [16] + s + rest) == Consume(b.(totalPackets := ToInt32(v)), rest)
  {
    hide Consume, Take, Parse, Scan, ToInt32;
    NarrowOfWide64(v);
    NumbersTaken(b, v % 0x1_0000_0000_0000_0000);
    NumberStep(b, 1, s, rest, v);
    NumberStep(b, 2, s, rest, v);
  }

  lemma NumbersTaken(b: Body, v: nat)
    ensures b.File? ==> Take(b, Number(4, v)) == Done(b.(packetNum := ToInt32(v)))
    ensures b.File? ==> Take(b, Number(5, v)) == Done(b.(packetTotal := ToInt32(v)))
    ensures b.Status? ==> Take(b, Number(1, v)) == Done(b.(packetIndex := ToInt32(v)))
    ensures b.Status? ==> Take(b, Number(2, v)) == Done(b.(totalPackets := ToInt32(v)))
  {
    hide Absorb, ToInt32;
  }

  lemma NarrowOfWide64(v: nat)
    ensures ToInt32(v % 0x1_0000_0000_0000_0000) == ToInt32(v)
  {
    assert v % 0x1_0000_0000_0000_0000 % 0x1_0000_0000 == v % 0x1_0000_0000;
  }

  lemma RealsRead(b: Body, raw: raw64, rest: bytes)
    requires b.Location?
    ensures Consume(b, [9] + raw + rest) == Consume(b.(x := raw), rest)
    ensures Consume(b, [17] + raw + rest) == Consume(b.(y := raw), rest)
    ensures Consume(b, [25] + raw + rest) == Consume(b.(yaw := raw), rest)
  {
    hide Consume, Absorb, Parse, Take;
    RealStep(b, 1, raw, rest);
    RealStep(b, 2, raw, rest);
    RealStep(b, 3, raw, rest);
    RealTaken(b, raw);
  }

  lemma RealTaken(b: Body, raw: raw64)
    requires b.Location?
    ensures Take(b, Fixed64(1, raw)) == Done(b.(x := raw))
    ensures Take(b, Fixed64(2, raw)) == Done(b.(y := raw))
    ensures Take(b, Fixed64(3, raw)) == Done(b.(yaw := raw))
  {
    hide Absorb;
  }

  /** Any other record is kept as it would be written, and changes nothing else. */
  lemma OthersKept(b: Body, r: Record, rest: bytes)
    requires WellTyped(r) && Readable(r)
    requires b.Heartbeat? || b.Itemlist? ==> Tag(r) != 10
    requires b.Location? ==> Tag(r) !in {9, 17, 25}
    requires b.File? ==> Tag(r) !in {10, 18, 26, 32, 40, 50}
    requires b.Status? ==> Tag(r) !in {8, 16, 26}
    ensures Consume(b, EncodeRecord(r) + rest) == Consume(b.(unknown := b.unknown + EncodeRecord(r)), rest)
  {
    hide Consume, Parse, NextRecord, EncodeRecord, Absorb;
    NextOfEncoded(r, rest);
    ConsumeStep(b, EncodeRecord(r), rest, r);
  }

  // ---- Reading: the envelope ----

  /** What a payload's parse leads to. */
  function AfterPayload(m: Message, o: Outcome<Body>, rest: bytes): Outcome<Message> {
    match o
    case Done(b) => ConsumeMessage(m.(payload := Some(b)), rest)
    case Spoiled(b) => Spoiled(m.(payload := Some(b)))
    case Unreadable => Unreadable
  }

  lemma MessageStep(m: Message, head: bytes, rest: bytes, r: Record)
    requires head != [] && NextRecord(head + rest) == Some((r, |head|))
    ensures ConsumeMessage(m, head + rest) ==
            var o := TakeMessage(m, r); if o.Done? then ConsumeMessage(o.value, rest) else o
  {
    hide NextRecord, TakeMessage, ParseMessage;
    assert (head + rest)[|head|..] == rest;
  }

  /** The payload a field number's bytes go into. */
  function Held(p: Option<Body>, num: nat): Body
    requires 2 <= num <= 6
  {
    Mutable(p, KindAt(num).value)
  }

  lemma PayloadStep(m: Message, num: nat, s: bytes, rest: bytes)
    requires 2 <= num <= 6 && |s| <= 2147483647 - 16
    ensures ConsumeMessage(m, [8 * num + 2] + Encode(|s|) + s + rest) ==
            AfterPayload(m, Consume(Held(m.payload, num), s), rest)
  {
    hide Encode, NextRecord, Consume, TakeMessage, ParseMessage, ConsumeMessage, Mutable;
    DelimitedRead(num, |s|, s + rest);
    var head := [8 * num + 2] + Encode(|s|) + s;
    assert head + rest == [8 * num + 2] + (Encode(|s|) + (s + rest));
    assert (s + rest)[..|s|] == s;
    MessageStep(m, head, rest, Delimited(num, s));
    M.PayloadField(m, num, s);
  }

  /**
   Which payload each tag brings. It goes into the payload that is there if that is of the kind,
   and else into a fresh one in its place.
   */
  lemma PayloadsRead(m: Message, s: bytes, rest: bytes)
    requires |s| <= 2147483647 - 16
    ensures ConsumeMessage(m, [18] + Encode(|s|) + s + rest) == AfterPayload(m, Consume(
              if m.payload.Some? && m.payload.value.Heartbeat? then m.payload.value else Heartbeat([], []), s), rest)
    ensures ConsumeMessage(m, [26] + Encode(|s|) + s + rest) == AfterPayload(m, Consume(
              if m.payload.Some? && m.payload.value.Itemlist? then m.payload.value else Itemlist([], []), s), rest)
    ensures ConsumeMessage(m, [34] + Encode(|s|) + s + rest) == AfterPayload(m, Consume(
              if m.payload.Some? && m.payload.value.Location? then m.payload.value
              else Location(ZERO64, ZERO64, ZERO64, []), s), rest)
    ensures ConsumeMessage(m, [42] + Encode(|s|) + s + rest) == AfterPayload(m, Consume(
              if m.payload.Some? && m.payload.value.File? then m.payload.value
              else File([], [], [], 0, 0, [], []), s), rest)
    ensures ConsumeMessage(m, [50] + Encode(|s|) + s + rest) == AfterPayload(m, Consume(
              if m.payload.Some? && m.payload.value.Status? then m.payload.value else Status(0, 0, [], []), s), rest)
  {
    hide Encode, Consume, ConsumeMessage, AfterPayload;
    var p := m.payload;
    assert Held(p, 2) == if p.Some? && p.value.Heartbeat? then p.value else Heartbeat([], []);
    assert Held(p, 3) == if p.Some? && p.value.Itemlist? then p.value else Itemlist([], []);
    assert Held(p, 4) == if p.Some? && p.value.Location? then p.value else Location(ZERO64, ZERO64, ZERO64, []);
    assert Held(p, 5) == if p.Some? && p.value.File? then p.value else File([], [], [], 0, 0, [], []);
    assert Held(p, 6) == if p.Some? && p.value.Status? then p.value else Status(0, 0, [], []);
    hide Held;
    PayloadStep(m, 2, s, rest);
    PayloadStep(m, 3, s, rest);
    PayloadStep(m, 4, s, rest);
    PayloadStep(m, 5, s, rest);
    PayloadStep(m, 6, s, rest);
  }

  /** Tag 8 sets the type, and any record that is no field of the envelope is kept. */
  lemma TypeRead(m: Message, s: bytes, rest: bytes, v: nat)
    requires Scan(s, 10) == Some((v, |s|))
    ensures ConsumeMessage(m, [8] + s + rest) == ConsumeMessage(m.(typ := ToInt32(v)), rest)
  {
    hide ConsumeMessage, NextRecord, Scan, TakeMessage, ParseMessage, ToInt32;
    NarrowOfWide64(v);
    NumberRead(1, s, rest, v);
    assert [8] + s + rest == [8] + (s + rest);
    var r := Number(1, v % 0x1_0000_0000_0000_0000);
    MessageStep(m, [8] + s, rest, r);
    M.TypeField(m, r);
  }

  lemma OthersKeptInMessage(m: Message, r: Record, rest: bytes)
    requires WellTyped(r) && Readable(r) && Tag(r) !in {8, 18, 26, 34, 42, 50}
    ensures ConsumeMessage(m, EncodeRecord(r) + rest) ==
            ConsumeMessage(m.(unknown := m.unknown + EncodeRecord(r)), rest)
  {
    hide ConsumeMessage, ParseMessage, NextRecord, EncodeRecord, TakeMessage;
    NextOfEncoded(r, rest);
    MessageStep(m, EncodeRecord(r), rest, r);
    M.UnknownField(m, r);
  }

  // ---- An example ----

  lemma ExampleFields()
    ensures Text(10, [0x6D]) == [10, 1, 0x6D] && Text(18, [0x66]) == [18, 1, 0x66]
    ensures Text(26, [0xFF, 0x00]) == [26, 2, 0xFF, 0x00] && Text(50, []) == []
    ensures Int(32, 1) == [32, 1] && Int(40, 3) == [40, 3] && Int(8, 4) == [8, 4] && Encode(14) == [14]
  {
    hide Encode;
    OneByte(1);
    OneByte(2);
    OneByte(3);
    OneByte(4);
    OneByte(14);
  }

  /** Packet 1 of 3 of the file "f" of map "m", and the message it travels in. */
  lemma FileExample()
    ensures var p := File([0x6D], [0x66], [0xFF, 0x00], 1, 3, [], []);
            SerializeMessage(Message(4, Some(p), [])) ==
            [8, 4, 42, 14, 10, 1, 0x6D, 18, 1, 0x66, 26, 2, 0xFF, 0x00, 32, 1, 40, 3]
  {
    hide Encode, Serialize, SerializeMessage, Text, Int;
    var p := File([0x6D], [0x66], [0xFF, 0x00], 1, 3, [], []);
    BodyBytes(p);
    ExampleFields();
    ExampleBytes([10, 1, 0x6D, 18, 1, 0x66, 26, 2, 0xFF, 0x00, 32, 1, 40, 3]);
    EnvelopeIs(Message(4, Some(p), []));
  }

  lemma ExampleBytes(body: bytes)
    requires body == [10, 1, 0x6D, 18, 1, 0x66, 26, 2, 0xFF, 0x00, 32, 1, 40, 3]
    ensures [10, 1, 0x6D] + [18, 1, 0x66] + [26, 2, 0xFF, 0x00] + [32, 1] + [40, 3] + [] + [] == body
    ensures [8, 4] + ([42] + ([14] + body)) + [] ==
            [8, 4, 42, 14, 10, 1, 0x6D, 18, 1, 0x66, 26, 2, 0xFF, 0x00, 32, 1, 40, 3]
  {}
}
