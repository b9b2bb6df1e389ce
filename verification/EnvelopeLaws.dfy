/**
 The laws of the codec for the envelope with its one-of: parsing a serialisation is merging,
 a parse of a concatenation is the parse of its parts, reserialising is a normal form, and how
 far it can grow.
 */
module EnvelopeLaws {
  import opened Bytes
  import opened Varint
  import opened Wire
  import opened Packet
  import opened PacketLaws
  import opened Wrappers

  function AbsorbMessageAll(m: Message, rs: seq<Record>): Option<Message>
    decreases |rs|
  {
    if rs == [] then Some(m)
    else
      match AbsorbMessage(m, rs[0])
      case None => None
      case Some(m') => AbsorbMessageAll(m', rs[1..])
  }

  lemma {:induction false} ParseMessageEncoded(m: Message, rs: seq<Record>, t: bytes)
    requires AllWellTyped(rs)
    ensures ParseMessage(m, EncodeAll(rs) + t) ==
            match AbsorbMessageAll(m, rs) case None => None case Some(m') => ParseMessage(m', t)
    decreases |rs|
  {
    hide Parse, KindAt, NextRecord, EncodeRecord;
    if rs == [] {
      assert EncodeAll(rs) + t == t;
    } else {
      var head, rest := EncodeRecord(rs[0]), EncodeAll(rs[1..]) + t;
      assert EncodeAll(rs) + t == head + rest;
      NextOfEncoded(rs[0], rest);
      assert (head + rest)[|head|..] == rest;
      if AbsorbMessage(m, rs[0]).Some? {
        ParseMessageEncoded(AbsorbMessage(m, rs[0]).value, rs[1..], t);
      }
    }
  }

  lemma {:induction false} AbsorbUnknownInMessage(m: Message, us: seq<Record>)
    requires AllReadable(us) && forall i :: 0 <= i < |us| ==> !KnownInMessage(us[i])
    ensures AbsorbMessageAll(m, us) == Some(m.(unknown := m.unknown + EncodeAll(us)))
    decreases |us|
  {
    hide EncodeRecord, KindAt;
    if us == [] {
      assert m.unknown + EncodeAll(us) == m.unknown;
    } else {
      var m' := m.(unknown := m.unknown + EncodeRecord(us[0]));
      assert AbsorbMessage(m, us[0]) == Some(m');
      AbsorbUnknownInMessage(m', us[1..]);
      assert m'.unknown + EncodeAll(us[1..]) == m.unknown + EncodeAll(us);
    }
  }

  // ---- Parsing a serialisation is merging ----

  lemma PayloadSize(m: Message)
    ensures m.payload.Some? ==> |Serialize(m.payload.value)| <= |SerializeMessage(m)|
    ensures Serializable(SerializeMessage(m)) ==> AllWellTyped(MessageFields(m))
  {
    hide Encode, Serialize;
    EachFits(MessageFields(m));
    forall i | 0 <= i < |MessageFields(m)|
      ensures |Payload(MessageFields(m)[i])| <= |SerializeMessage(m)|
    {
      assert |EncodeRecord(MessageFields(m)[i])| >= |Payload(MessageFields(m)[i])|;
    }
    if m.payload.Some? {
      var last := MessageFields(m)[|IntField(1, m.typ)|];
      assert last == Delimited(FieldNumber(KindOf(m.payload.value)), Serialize(m.payload.value));
    }
  }

  /** The payload record, absorbed: the one-of switches or merges, or the bytes are refused. */
  lemma AbsorbPayload(x: Message, p: Body)
    requires WellFormed(p) && Serializable(Serialize(p))
    ensures AbsorbMessageAll(x, PayloadFields(Some(p))) ==
            if Accepted(p) && |Serialize(p)| <= MAX_SIZE
            then Some(x.(payload := MergePayload(x.payload, Some(p)))) else None
  {
    hide Serialize, Accepted, WellFormed, Parse;
    var k := KindOf(p);
    var rs := PayloadFields(Some(p));
    ParseOfSerialize(Mutable(x.payload, k), p);
    assert KindAt(FieldNumber(k)) == Some(k);
    assert rs[1..] == [];
  }

  lemma AbsorbMessageFields(x: Message, b: Message)
    requires WellFormedMessage(b) && Serializable(SerializeMessage(b))
    ensures AbsorbMessageAll(x, MessageFields(b)) ==
            if AcceptedMessage(b)
            then Some(Message(PickInt(x.typ, b.typ), MergePayload(x.payload, b.payload), x.unknown)) else None
  {
    hide Serialize, Accepted, WellFormed, Parse;
    PayloadSize(b);
    var rs := PayloadFields(b.payload);
    var x1 := x.(typ := PickInt(x.typ, b.typ));
    assert AbsorbMessageAll(x, MessageFields(b)) == AbsorbMessageAll(x1, rs) by {
      if b.typ == 0 {
        assert MessageFields(b) == rs;
      } else {
        var r := Number(1, SignExtend(b.typ));
        assert MessageFields(b) == [r] + rs;
        assert AbsorbMessage(x, r) == Some(x1);
        assert ([r] + rs)[1..] == rs;
      }
    }
    if b.payload.Some? { AbsorbPayload(x1, b.payload.value); }
  }

  /**
   Parsing the serialisation of `b` into any message `x` is x.MergeFrom(b), and it is accepted
   exactly when the payload's strings are UTF-8 and every nested length is one a reader takes.
   */
  lemma ParseMessageOfSerialize(x: Message, b: Message)
    requires WellFormedMessage(b) && Serializable(SerializeMessage(b))
    ensures ParseMessage(x, SerializeMessage(b)) ==
            if AcceptedMessage(b) then Some(MergeMessage(x, b)) else None
  {
    hide MessageFields, AcceptedMessage, ParseMessage, KnownInMessage;
    PayloadSize(b);
    ParseMessageEncoded(x, MessageFields(b), b.unknown);
    AbsorbMessageFields(x, b);
    if AcceptedMessage(b) {
      var x1 := Message(PickInt(x.typ, b.typ), MergePayload(x.payload, b.payload), x.unknown);
      var us := Records(b.unknown).value;
      RecordsAreCanonical(b.unknown);
      ParseMessageEncoded(x1, us, []);
      assert EncodeAll(us) + [] == b.unknown;
      AbsorbUnknownInMessage(x1, us);
      assert ParseMessage(MergeMessage(x, b), []) == Some(MergeMessage(x, b)) by { ParseNothing(MergeMessage(x, b)); }
    }
  }

  lemma ParseNothing(m: Message)
    ensures ParseMessage(m, []) == Some(m)
  {
  }

  lemma MergeMessageIntoEmpty(b: Message)
    ensures MergeMessage(EMPTY, b) == b
  {
    if b.payload.Some? { MergeIntoEmpty(b.payload.value); }
    assert [] + b.unknown == b.unknown;
  }

  /** ParseFromString undoes SerializeToString, and only messages that can travel come back. */
  lemma RoundTripMessage(b: Message)
    requires WellFormedMessage(b) && Serializable(SerializeMessage(b))
    ensures ParseMessage(EMPTY, SerializeMessage(b)) == Some(b) <==> AcceptedMessage(b)
    ensures ParseMessage(EMPTY, SerializeMessage(b)).Some? <==> AcceptedMessage(b)
  {
    ParseMessageOfSerialize(EMPTY, b);
    MergeMessageIntoEmpty(b);
  }

  /** A parse that accepts `s` goes on with `t` from the message `s` left. */
  lemma {:induction false} ParseMessageConcat(x: Message, s: bytes, t: bytes)
    requires ParseMessage(x, s).Some?
    ensures ParseMessage(x, s + t) == ParseMessage(ParseMessage(x, s).value, t)
    decreases |s|
  {
    hide AbsorbMessage, NextRecord;
    if s == [] {
      assert s + t == t;
    } else {
      var (r, n) := NextRecord(s).value;
      NextExtends(s, t);
      assert (s + t)[n..] == s[n..] + t;
      ParseMessageConcat(AbsorbMessage(x, r).value, s[n..], t);
    }
  }

  /** Serialisations laid end to end parse to the merge of the messages. */
  lemma ConcatenationIsMerge(a: Message, b: Message)
    requires WellFormedMessage(a) && AcceptedMessage(a) && Serializable(SerializeMessage(a))
    requires WellFormedMessage(b) && Serializable(SerializeMessage(b))
    ensures ParseMessage(EMPTY, SerializeMessage(a) + SerializeMessage(b)) ==
            if AcceptedMessage(b) then Some(MergeMessage(a, b)) else None
  {
    RoundTripMessage(a);
    ParseMessageConcat(EMPTY, SerializeMessage(a), SerializeMessage(b));
    ParseMessageOfSerialize(a, b);
  }

  // ---- Reserialising ----

  lemma AbsorbMessageKeeps(m: Message, r: Record)
    requires WellFormedMessage(m) && WellTyped(r) && AbsorbMessage(m, r).Some?
    ensures WellFormedMessage(AbsorbMessage(m, r).value)
    ensures (m.payload.Some? ==> Accepted(m.payload.value)) ==>
              var p := AbsorbMessage(m, r).value.payload; p.Some? ==> Accepted(p.value)
  {
    hide Known, EncodeRecord, NextRecord, Accepted, WellFormed;
    if KnownInMessage(r) {
      if r.Delimited? {
        var k := KindAt(r.num).value;
        EmptyIsWellFormed(k);
        ParseKeeps(Mutable(m.payload, k), r.s);
      }
    } else {
      var us := Records(m.unknown).value;
      RecordsAreCanonical(m.unknown);
      EncodeAllSnoc(us, r);
      RecordsOfEncoded(us + [r]);
    }
  }

  lemma {:induction false} ParseMessageKeeps(m: Message, s: bytes)
    requires WellFormedMessage(m) && ParseMessage(m, s).Some?
    ensures WellFormedMessage(ParseMessage(m, s).value)
    ensures (m.payload.Some? ==> Accepted(m.payload.value)) ==>
              var p := ParseMessage(m, s).value.payload; p.Some? ==> Accepted(p.value)
    decreases |s|
  {
    hide AbsorbMessage, NextRecord, Accepted, WellFormedMessage;
    if s == [] {
    } else {
      var (r, n) := NextRecord(s).value;
      NextIsCanonical(s);
      AbsorbMessageKeeps(m, r);
      ParseMessageKeeps(AbsorbMessage(m, r).value, s[n..]);
    }
  }

  /** The message serialised, if the serialiser does not refuse it, and parsed again. */
  function Reparsed(m: Message): Option<Message> {
    if Serializable(SerializeMessage(m)) then ParseMessage(EMPTY, SerializeMessage(m)) else None
  }

  /**
   For every byte string the parser accepts, what it parsed to survives another serialise and
   parse, unless the whole has become longer than the serialiser writes or the nested payload
   longer than a reader takes; then there is no second parse at all.
   */
  lemma ReserialisingIsNormalForm(s: bytes)
    requires ParseMessage(EMPTY, s).Some?
    ensures var m := ParseMessage(EMPTY, s).value;
            && Reparsed(m) in {None, Some(m)}
            && (Reparsed(m).Some? <==> |SerializeMessage(m)| <= 2147483647
                                       && (m.payload.Some? ==> |Serialize(m.payload.value)| <= 2147483647 - 16))
  {
    hide WellFormedMessage;
    EmptyMessageWellFormed();
    ParseMessageKeeps(EMPTY, s);
    var m := ParseMessage(EMPTY, s).value;
    if Serializable(SerializeMessage(m)) { RoundTripMessage(m); }
  }

  lemma EmptyMessageWellFormed()
    ensures WellFormedMessage(EMPTY)
  {
    assert Records([]) == Some([]);
  }

  // ---- Unknown fields ----

  /** The records no field of the envelope claims, in the order they arrived. */
  function Unclaimed(rs: seq<Record>): seq<Record> {
    if rs == [] then []
    else (if KnownInMessage(rs[0]) then [] else [rs[0]]) + Unclaimed(rs[1..])
  }

  /** An accepted input is a list of records, and those unclaimed are appended in that order. */
  lemma {:induction false} UnknownsKeptInOrder(m: Message, s: bytes)
    requires ParseMessage(m, s).Some?
    ensures Records(s).Some?
    ensures ParseMessage(m, s).value.unknown == m.unknown + EncodeAll(Unclaimed(Records(s).value))
    decreases |s|
  {
    hide NextRecord, KindAt, EncodeRecord, Parse;
    if s == [] {
      assert m.unknown + EncodeAll([]) == m.unknown;
    } else {
      var (r, n) := NextRecord(s).value;
      var m' := AbsorbMessage(m, r).value;
      UnknownsKeptInOrder(m', s[n..]);
      var rest := Unclaimed(Records(s[n..]).value);
      RecordsCons(s, r, n);
      var rs := Records(s).value;
      assert rs[1..] == Records(s[n..]).value;
      if KnownInMessage(r) {
        assert Unclaimed(rs) == [] + rest == rest;
      } else {
        assert Unclaimed(rs) == [r] + rest;
        assert ([r] + rest)[1..] == rest;
        assert m.unknown + EncodeRecord(r) + EncodeAll(rest) == m.unknown + (EncodeRecord(r) + EncodeAll(rest));
      }
    }
  }

  // ---- How far a reserialisation can grow ----

  function Negative(n: int32): nat { if n < 0 then 1 else 0 }

  /** Integer fields holding a negative number: read from as few as five bytes, written in ten. */
  function Negatives(b: Body): (n: nat)
    ensures n <= 2
  {
    match b
    case File(_, _, _, num, total, _, _) => Negative(num) + Negative(total)
    case Status(index, total, _, _) => Negative(index) + Negative(total)
    case _ => 0
  }

  function Weight(b: Body): int { |Serialize(b)| - 5 * Negatives(b) }

  function SizeOf(rs: seq<Record>): nat { |EncodeAll(rs)| }

  lemma SizeAppend(a: seq<Record>, b: seq<Record>)
    ensures SizeOf(a + b) == SizeOf(a) + SizeOf(b)
  {
    EncodeAllAppend(a, b);
  }

  lemma SizeOne(r: Record)
    ensures SizeOf([r]) == |EncodeRecord(r)|
  {
    assert EncodeAll([r]) == EncodeRecord(r) + EncodeAll([]);
  }

  lemma SizeText(num: nat, s: bytes)
    ensures SizeOf(TextField(num, s)) <= |EncodeRecord(Delimited(num, s))|
  {
    SizeOne(Delimited(num, s));
  }

  /** A number read back from `v` is written in at most five bytes more, and only if negative. */
  lemma SizeInt(num: nat, v: nat)
    requires v < 0x1_0000_0000_0000_0000
    ensures SizeOf(IntField(num, ToInt32(v))) - 5 * Negative(ToInt32(v)) <= |EncodeRecord(Number(num, v))|
  {
    var n := ToInt32(v);
    SizeOne(Number(num, SignExtend(n)));
    if n < 0 {
      EncodeLengths();
      PowValues();
      EncodeLength(v, 4);
    } else {
      EncodeMonotone(n, v);
    }
  }

  lemma SizeReal(num: nat, raw: raw64)
    ensures SizeOf(RealField(num, raw)) <= |EncodeRecord(Fixed64(num, raw))|
  {
    SizeOne(Fixed64(num, raw));
  }

  lemma ItemsSnoc(items: seq<bytes>, s: bytes)
    ensures EncodeAll(ItemFields(items + [s])) == EncodeAll(ItemFields(items)) + EncodeRecord(Delimited(1, s))
    ensures SizeOf(ItemFields(items + [s])) == SizeOf(ItemFields(items)) + |EncodeRecord(Delimited(1, s))|
  {
    hide EncodeRecord;
    assert ItemFields(items + [s]) == ItemFields(items) + [Delimited(1, s)];
    EncodeAllSnoc(ItemFields(items), Delimited(1, s));
  }

  function FileSize(b: Body): nat
    requires b.File?
  {
    SizeOf(TextField(1, b.mapName)) + SizeOf(TextField(2, b.fileName)) + SizeOf(TextField(3, b.content))
    + SizeOf(IntField(4, b.packetNum)) + SizeOf(IntField(5, b.packetTotal)) + SizeOf(TextField(6, b.md5))
  }

  lemma FileSizeIs(b: Body)
    requires b.File?
    ensures |Serialize(b)| == FileSize(b) + |b.unknown|
  {
    hide TextField, IntField;
    var f1, f2, f3 := TextField(1, b.mapName), TextField(2, b.fileName), TextField(3, b.content);
    var f4, f5, f6 := IntField(4, b.packetNum), IntField(5, b.packetTotal), TextField(6, b.md5);
    SizeAppend(f1 + f2 + f3 + f4 + f5, f6);
    SizeAppend(f1 + f2 + f3 + f4, f5);
    SizeAppend(f1 + f2 + f3, f4);
    SizeAppend(f1 + f2, f3);
    SizeAppend(f1, f2);
  }

  lemma LocationSizeIs(b: Body)
    requires b.Location?
    ensures |Serialize(b)| == SizeOf(RealField(1, b.x)) + SizeOf(RealField(2, b.y)) + SizeOf(RealField(3, b.yaw))
                              + |b.unknown|
  {
    SizeAppend(RealField(1, b.x) + RealField(2, b.y), RealField(3, b.yaw));
    SizeAppend(RealField(1, b.x), RealField(2, b.y));
  }

  lemma StatusSizeIs(b: Body)
    requires b.Status?
    ensures |Serialize(b)| == SizeOf(IntField(1, b.packetIndex)) + SizeOf(IntField(2, b.totalPackets))
                              + SizeOf(TextField(3, b.currentName)) + |b.unknown|
  {
    SizeAppend(IntField(1, b.packetIndex) + IntField(2, b.totalPackets), TextField(3, b.currentName));
    SizeAppend(IntField(1, b.packetIndex), IntField(2, b.totalPackets));
  }

  lemma AssignWeight(b: Body, r: Record)
    requires WellTyped(r) && Known(KindOf(b), r) && Assign(b, r).Some?
    ensures Weight(Assign(b, r).value) <= Weight(b) + |EncodeRecord(r)|
  {
    hide SizeOf, EncodeRecord, TextField, IntField, RealField, ItemFields, Serialize, EncodeAll;
    var b' := Assign(b, r).value;
    match b
    case Heartbeat(_, _) => HeartbeatSizeIs(b); HeartbeatSizeIs(b'); SizeText(1, r.s);
    case Itemlist(items, _) => ItemlistSizeIs(b); ItemlistSizeIs(b'); ItemsSnoc(items, r.s);
    case Location(_, _, _, _) => LocationSizeIs(b); LocationSizeIs(b'); SizeReal(r.num, r.raw);
    case File(_, _, _, _, _, _, _) =>
      FileSizeIs(b);
      FileSizeIs(b');
      NegativeSize(4, b.packetNum);
      NegativeSize(5, b.packetTotal);
      if r.Number? { SizeInt(r.num, r.v); } else { SizeText(r.num, r.s); }
    case Status(_, _, _, _) =>
      StatusSizeIs(b);
      StatusSizeIs(b');
      NegativeSize(1, b.packetIndex);
      NegativeSize(2, b.totalPackets);
      if r.Number? { SizeInt(r.num, r.v); } else { SizeText(r.num, r.s); }
  }

  lemma HeartbeatSizeIs(b: Body)
    requires b.Heartbeat?
    ensures |Serialize(b)| == SizeOf(TextField(1, b.nodeId)) + |b.unknown|
  {
  }

  lemma ItemlistSizeIs(b: Body)
    requires b.Itemlist?
    ensures |Serialize(b)| == SizeOf(ItemFields(b.items)) + |b.unknown|
  {
  }

  lemma AbsorbWeight(b: Body, r: Record)
    requires WellTyped(r) && Absorb(b, r).Some?
    ensures Weight(Absorb(b, r).value) <= Weight(b) + |EncodeRecord(r)|
  {
    hide EncodeRecord, Known, Assign;
    if Known(KindOf(b), r) {
      AssignWeight(b, r);
    } else {
      var b' := WithUnknown(b, b.unknown + EncodeRecord(r));
      assert Fields(b') == Fields(b) && Negatives(b') == Negatives(b);
    }
  }

  lemma {:induction false} ParseWeight(b: Body, s: bytes)
    requires Parse(b, s).Some?
    ensures Weight(Parse(b, s).value) <= Weight(b) + |s|
    decreases |s|
  {
    hide Absorb, NextRecord, Weight, EncodeRecord;
    if s == [] {
    } else {
      var (r, n) := NextRecord(s).value;
      NextIsCanonical(s);
      AbsorbWeight(b, r);
      ParseWeight(Absorb(b, r).value, s[n..]);
    }
  }

  function PayloadWeight(p: Option<Body>): int { if p.Some? then Weight(p.value) else 0 }

  lemma MutableWeight(p: Option<Body>, k: Kind)
    requires PayloadWeight(p) >= 0
    ensures Weight(Mutable(p, k)) <= PayloadWeight(p)
  {
    EmptyIsWellFormed(k);
  }

  lemma WeightNonNegative(b: Body)
    ensures Weight(b) >= 0
  {
    hide SizeOf, TextField, ItemFields, RealField, EncodeAll, Serialize;
    match b
    case File(_, _, _, num, total, _, _) => FileSizeIs(b); NegativeSize(4, num); NegativeSize(5, total);
    case Status(index, total, _, _) => StatusSizeIs(b); NegativeSize(1, index); NegativeSize(2, total);
    case _ =>
  }

  lemma NegativeSize(num: nat, n: int32)
    ensures SizeOf(IntField(num, n)) >= 5 * Negative(n)
  {
    if n < 0 {
      SizeOne(Number(num, SignExtend(n)));
      PowValues();
      EncodeLength(SignExtend(n), 5);
    }
  }

  /** Payload weight and unknown bytes together. */
  function MessageWeight(m: Message): int { PayloadWeight(m.payload) + |m.unknown| }

  lemma AbsorbMessageWeight(m: Message, r: Record)
    requires WellTyped(r) && AbsorbMessage(m, r).Some?
    ensures MessageWeight(AbsorbMessage(m, r).value) <= MessageWeight(m) + |EncodeRecord(r)|
  {
    hide Weight, Encode, Parse, KindAt;
    if r.Delimited? && KindAt(r.num).Some? {
      if m.payload.Some? { WeightNonNegative(m.payload.value); }
      MutableWeight(m.payload, KindAt(r.num).value);
      ParseWeight(Mutable(m.payload, KindAt(r.num).value), r.s);
      assert |r.s| <= |EncodeRecord(r)|;
    }
  }

  lemma {:induction false} ParseMessageWeight(m: Message, s: bytes)
    requires ParseMessage(m, s).Some?
    ensures MessageWeight(ParseMessage(m, s).value) <= MessageWeight(m) + |s|
    decreases |s|
  {
    hide NextRecord, AbsorbMessage, MessageWeight, EncodeRecord;
    if s == [] {
    } else {
      var (r, n) := NextRecord(s).value;
      NextIsCanonical(s);
      AbsorbMessageWeight(m, r);
      ParseMessageWeight(AbsorbMessage(m, r).value, s[n..]);
    }
  }

  /**
   A nested payload is never more than ten bytes longer, rewritten, than all the input it came
   from; the whole message never more than twenty-seven.
   */
  lemma ReserialisedSize(s: bytes)
    requires ParseMessage(EMPTY, s).Some?
    ensures var m := ParseMessage(EMPTY, s).value;
            && (m.payload.Some? ==> |Serialize(m.payload.value)| <= |s| + 10)
            && (|s| <= MAX_SIZE - 11 ==> |SerializeMessage(m)| <= |s| + 27)
  {
    hide ParseMessage, Negatives, Serialize;
    ParseMessageWeight(EMPTY, s);
    var m := ParseMessage(EMPTY, s).value;
    if |s| <= MAX_SIZE - 11 { EnvelopeSize(m); }
  }

  lemma EnvelopeSize(m: Message)
    requires m.payload.Some? ==> |Serialize(m.payload.value)| <= MAX_SIZE
    ensures |SerializeMessage(m)| <=
            17 + (if m.payload.Some? then |Serialize(m.payload.value)| else 0) + |m.unknown|
  {
    hide Serialize;
    EncodeLengths();
    EncodeAllAppend(IntField(1, m.typ), PayloadFields(m.payload));
    assert |EncodeAll(IntField(1, m.typ))| <= 11 by {
      SizeOne(Number(1, SignExtend(m.typ)));
      assert |Encode(8)| == 1;
    }
    if m.payload.Some? {
      var r := Delimited(FieldNumber(KindOf(m.payload.value)), Serialize(m.payload.value));
      SizeOne(r);
      assert Tag(r) < 128;
    }
  }

  /** So every input of up to MAX_SIZE - 11 bytes that is accepted has a normal form. */
  lemma NormalFormOfShortInput(s: bytes)
    requires ParseMessage(EMPTY, s).Some? && |s| <= MAX_SIZE - 11
    ensures Reparsed(ParseMessage(EMPTY, s).value) == ParseMessage(EMPTY, s)
  {
    hide ParseMessage, SerializeMessage;
    ReserialisedSize(s);
    ReserialisingIsNormalForm(s);
  }

  // ---- The growth is real: five bytes that hold 2^31 come back as ten ----

  const NARROW: bytes := [0x20, 0x80, 0x80, 0x80, 0x80, 0x08]

  lemma NarrowIsARecord()
    ensures EncodeRecord(Number(4, 0x8000_0000)) == NARROW
  {
    assert Encode(8) == [8];
    assert Encode(0x400) == [0x80] + Encode(8);
    assert Encode(0x2_0000) == [0x80] + Encode(0x400);
    assert Encode(0x100_0000) == [0x80] + Encode(0x2_0000);
    assert Encode(0x8000_0000) == [0x80] + Encode(0x100_0000);
    assert Encode(32) == [0x20];
  }

  lemma WideIsTen()
    ensures |EncodeRecord(Number(4, SignExtend(-0x8000_0000)))| == 11
  {
    var v := SignExtend(-0x8000_0000);
    PowValues();
    EncodeLength(v, 10);
    EncodeLength(v, 9);
    assert |Encode(32)| == 1;
  }

  lemma GrowthExample()
    ensures var b := Parse(Empty(FileKind), NARROW);
            b.Some? && b.value.packetNum == -0x8000_0000 && |Serialize(b.value)| == |NARROW| + 5
  {
    hide EncodeRecord, NextRecord;
    var r := Number(4, 0x8000_0000);
    NarrowIsARecord();
    assert NARROW + [] == NARROW;
    NextOfEncoded(r, []);
    var b := File([], [], [], -0x8000_0000, 0, [], []);
    assert NARROW[6..] == [];
    assert Parse(Empty(FileKind), NARROW) == Parse(b, NARROW[6..]);
    FileSizeIs(b);
    SizeOne(Number(4, SignExtend(-0x8000_0000)));
    WideIsTen();
    assert FileSize(b) == SizeOf(IntField(4, b.packetNum)) by { assert SizeOf([]) == 0; }
  }

  // ---- An input without a normal form ----

  function Zeros(n: nat): (s: bytes)
    ensures |s| == n
  {
    seq(n, _ => 0)
  }

  lemma LongRecordSize(num: nat, s: bytes)
    requires 0 < num < 16 && 0x1000_0000 <= |s| < 0x8000_0000
    ensures |EncodeRecord(Delimited(num, s))| == 6 + |s|
  {
    hide Encode;
    PowValues();
    EncodeLength(8 * num + 2, 1);
    EncodeLength(|s|, 4);
    EncodeLength(|s|, 5);
  }

  /** A file content and the narrow number, as long together as a nested payload may be. */
  function FullPayload(): bytes { EncodeRecord(Delimited(3, Zeros(MAX_SIZE - 12))) + NARROW }

  function FullFile(): (b: Body)
    ensures b.File?
  {
    File([], [], Zeros(MAX_SIZE - 12), -0x8000_0000, 0, [], [])
  }

  lemma FullPayloadParses()
    ensures |FullPayload()| == MAX_SIZE && Parse(Empty(FileKind), FullPayload()) == Some(FullFile())
  {
    hide EncodeRecord, NextRecord, Zeros;
    var z := Zeros(MAX_SIZE - 12);
    var r1, r2 := Delimited(3, z), Number(4, 0x8000_0000);
    LongRecordSize(3, z);
    NextOfEncoded(r1, NARROW);
    var b1 := File([], [], z, 0, 0, [], []);
    assert Absorb(Empty(FileKind), r1) == Some(b1);
    assert FullPayload()[|EncodeRecord(r1)|..] == NARROW;
    NarrowIsARecord();
    assert NARROW + [] == NARROW && NARROW[6..] == [];
    NextOfEncoded(r2, []);
    assert Absorb(b1, r2) == Some(FullFile());
    assert Parse(FullFile(), []) == Some(FullFile());
    assert Parse(b1, NARROW) == Parse(FullFile(), NARROW[6..]);
  }

  lemma FullFileSize()
    ensures |Serialize(FullFile())| == MAX_SIZE + 5
  {
    hide EncodeRecord, Zeros, Serialize;
    var z := Zeros(MAX_SIZE - 12);
    FileSizeIs(FullFile());
    LongRecordSize(3, z);
    SizeOne(Delimited(3, z));
    SizeOne(Number(4, SignExtend(-0x8000_0000)));
    WideIsTen();
    assert SizeOf([]) == 0;
  }

  /** The growth breaks the normal form: this input is accepted, and its serialisation is not. */
  lemma NormalFormFails() returns (s: bytes)
    ensures |s| <= 0x7FFF_FFFF && ParseMessage(EMPTY, s).Some?
    ensures var m := ParseMessage(EMPTY, s).value;
            Serializable(SerializeMessage(m)) && ParseMessage(EMPTY, SerializeMessage(m)).None?
  {
    hide EncodeRecord, NextRecord, Parse, Serialize, SerializeMessage, FullPayload, FullFile;
    var r := Delimited(5, FullPayload());
    s := EncodeRecord(r);
    FullPayloadParses();
    LongRecordSize(5, FullPayload());
    NextOfEncoded(r, []);
    assert s + [] == s && s[|s|..] == [];
    var m := Message(0, Some(FullFile()), []);
    assert AbsorbMessage(EMPTY, r) == Some(m);
    ParseNothing(m);
    assert ParseMessage(EMPTY, s) == Some(m);
    FullFileSize();
    FullEnvelopeSize(m);
    ReserialisingIsNormalForm(s);
  }

  lemma FullEnvelopeSize(m: Message)
    requires m.typ == 0 && m.unknown == [] && m.payload == Some(FullFile())
    ensures |SerializeMessage(m)| == MAX_SIZE + 11
  {
    hide EncodeRecord, Serialize, FullFile;
    FullFileSize();
    var r := Delimited(5, Serialize(FullFile()));
    LongRecordSize(5, r.s);
    SizeOne(r);
    assert MessageFields(m) == [r];
  }
}
