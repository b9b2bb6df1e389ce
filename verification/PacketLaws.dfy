/**
 The laws of the codec: parsing a serialisation is merging, for payloads and for the envelope;
 hence the round trip, the law of concatenation, and reserialising as a normal form.
 */
module PacketLaws {
  import opened Bytes
  import opened Varint
  import opened Wire
  import opened Packet
  import opened Wrappers

  /** A parse loop over records already read. */
  function AbsorbAll(b: Body, rs: seq<Record>): (r: Option<Body>)
    ensures r.Some? ==> KindOf(r.value) == KindOf(b)
    decreases |rs|
  {
    if rs == [] then Some(b)
    else
      match Absorb(b, rs[0])
      case None => None
      case Some(b') => AbsorbAll(b', rs[1..])
  }

  function AbsorbThen(b: Option<Body>, rs: seq<Record>): Option<Body> {
    match b case None => None case Some(v) => AbsorbAll(v, rs)
  }

  ghost predicate AllWellTyped(rs: seq<Record>) {
    forall i :: 0 <= i < |rs| ==> WellTyped(rs[i])
  }

  lemma {:induction false} AbsorbAppend(b: Body, a: seq<Record>, c: seq<Record>)
    ensures AbsorbAll(b, a + c) == AbsorbThen(AbsorbAll(b, a), c)
    decreases |a|
  {
    hide Absorb;
    if a == [] {
      assert a + c == c;
    } else {
      assert (a + c)[1..] == a[1..] + c;
      assert (a + c)[0] == a[0];
      if Absorb(b, a[0]).Some? {
        AbsorbAppend(Absorb(b, a[0]).value, a[1..], c);
      }
    }
  }

  /** Parsing canonical bytes absorbs their records, then goes on with what follows. */
  lemma {:induction false} ParseEncoded(b: Body, rs: seq<Record>, t: bytes)
    requires AllWellTyped(rs)
    ensures Parse(b, EncodeAll(rs) + t) ==
            match AbsorbAll(b, rs) case None => None case Some(b') => Parse(b', t)
    decreases |rs|
  {
    hide Assign, Known, NextRecord, EncodeRecord;
    if rs == [] {
      assert EncodeAll(rs) + t == t;
    } else {
      var head, rest := EncodeRecord(rs[0]), EncodeAll(rs[1..]) + t;
      assert EncodeAll(rs) + t == head + rest;
      NextOfEncoded(rs[0], rest);
      assert (head + rest)[|head|..] == rest;
      if Absorb(b, rs[0]).Some? {
        ParseEncoded(Absorb(b, rs[0]).value, rs[1..], t);
      }
    }
  }

  // ---- Known fields ----

  lemma AbsorbText(b: Body, num: nat, s: bytes)
    requires Known(KindOf(b), Delimited(num, s))
    ensures AbsorbAll(b, TextField(num, s)) == if s == [] then Some(b) else Absorb(b, Delimited(num, s))
  {
    AbsorbOne(b, Delimited(num, s));
  }

  lemma AbsorbInt(b: Body, num: nat, n: int32)
    ensures AbsorbAll(b, IntField(num, n)) == if n == 0 then Some(b) else Absorb(b, Number(num, SignExtend(n)))
  {
    AbsorbOne(b, Number(num, SignExtend(n)));
  }

  lemma AbsorbReal(b: Body, num: nat, raw: raw64)
    ensures AbsorbAll(b, RealField(num, raw)) == if raw == ZERO64 then Some(b) else Absorb(b, Fixed64(num, raw))
  {
    AbsorbOne(b, Fixed64(num, raw));
  }

  lemma AbsorbOne(b: Body, r: Record)
    ensures AbsorbAll(b, [r]) == Absorb(b, r)
  {
    hide Absorb;
    assert [r][1..] == [];
    if Absorb(b, r).Some? {
      assert AbsorbAll(Absorb(b, r).value, []) == Absorb(b, r);
    }
  }

  lemma {:induction false} AbsorbItems(b: Body, items: seq<bytes>)
    requires b.Itemlist?
    ensures AbsorbAll(b, ItemFields(items)) ==
            if forall i :: 0 <= i < |items| ==> TextOk(items[i]) then Some(b.(items := b.items + items)) else None
    decreases |items|
  {
    hide WithUnknown, EncodeRecord, ItemFields;
    if items == [] {
      assert b.items + items == b.items;
    } else {
      var fs := ItemFields(items);
      assert fs[1..] == ItemFields(items[1..]);
      assert AbsorbAll(b, fs) == AbsorbThen(Absorb(b, fs[0]), fs[1..]);
      assert forall i :: 1 <= i < |items| ==> items[i] == items[1..][i - 1];
      if TextOk(items[0]) {
        var b' := b.(items := b.items + [items[0]]);
        assert Absorb(b, fs[0]) == Some(b');
        AbsorbItems(b', items[1..]);
        assert b'.items + items[1..] == b.items + items;
      } else {
        assert Absorb(b, fs[0]).None?;
      }
    }
  }

  /** The known fields of `b`, absorbed by `x`, are the known part of the merge. */
  lemma AbsorbFields(x: Body, b: Body)
    requires KindOf(x) == KindOf(b)
    ensures AbsorbAll(x, Fields(b)) == if Accepted(b) then Some(Merge(x, WithUnknown(b, []))) else None
  {
    match b
    case Heartbeat(id, _) =>
      AbsorbText(x, 1, id);
      assert x.unknown + [] == x.unknown;
    case Itemlist(items, _) =>
      AbsorbItems(x, items);
      assert x.unknown + [] == x.unknown;
    case Location(_, _, _, _) => AbsorbLocation(x, b);
    case File(_, _, _, _, _, _, _) => AbsorbFile(x, b);
    case Status(_, _, _, _) => AbsorbStatus(x, b);
  }

  lemma AbsorbLocation(x: Body, b: Body)
    requires x.Location? && b.Location?
    ensures AbsorbAll(x, Fields(b)) == Some(Merge(x, WithUnknown(b, [])))
  {
    AbsorbAppend(x, RealField(1, b.x) + RealField(2, b.y), RealField(3, b.yaw));
    AbsorbAppend(x, RealField(1, b.x), RealField(2, b.y));
    var x1 := x.(x := PickReal(x.x, b.x));
    var x2 := x1.(y := PickReal(x.y, b.y));
    AbsorbReal(x, 1, b.x);
    AbsorbReal(x1, 2, b.y);
    AbsorbReal(x2, 3, b.yaw);
    assert x.unknown + [] == x.unknown;
  }

  lemma AbsorbStatus(x: Body, b: Body)
    requires x.Status? && b.Status?
    ensures AbsorbAll(x, Fields(b)) == if Accepted(b) then Some(Merge(x, WithUnknown(b, []))) else None
  {
    var f1, f2, f3 := IntField(1, b.packetIndex), IntField(2, b.totalPackets), TextField(3, b.currentName);
    AbsorbAppend(x, f1 + f2, f3);
    AbsorbAppend(x, f1, f2);
    var x1 := x.(packetIndex := PickInt(x.packetIndex, b.packetIndex));
    var x2 := x1.(totalPackets := PickInt(x.totalPackets, b.totalPackets));
    AbsorbInt(x, 1, b.packetIndex);
    AbsorbInt(x1, 2, b.totalPackets);
    AbsorbText(x2, 3, b.currentName);
    assert x.unknown + [] == x.unknown;
  }

  lemma AbsorbFile(x: Body, b: Body)
    requires x.File? && b.File?
    ensures AbsorbAll(x, Fields(b)) == if Accepted(b) then Some(Merge(x, WithUnknown(b, []))) else None
  {
    var f1, f2, f3 := TextField(1, b.mapName), TextField(2, b.fileName), TextField(3, b.content);
    var f4, f5, f6 := IntField(4, b.packetNum), IntField(5, b.packetTotal), TextField(6, b.md5);
    assert Fields(b) == (f1 + f2 + f3) + (f4 + f5 + f6);
    AbsorbAppend(x, f1 + f2 + f3, f4 + f5 + f6);
    AbsorbFileTexts(x, b);
    if TextOk(b.mapName) && TextOk(b.fileName) && |b.content| <= MAX_SIZE {
      AbsorbFileRest(x.(mapName := PickText(x.mapName, b.mapName), fileName := PickText(x.fileName, b.fileName),
                        content := PickText(x.content, b.content)), b);
    }
    assert x.unknown + [] == x.unknown;
  }

  lemma AbsorbFileTexts(x: Body, b: Body)
    requires x.File? && b.File?
    ensures AbsorbAll(x, TextField(1, b.mapName) + TextField(2, b.fileName) + TextField(3, b.content)) ==
            if TextOk(b.mapName) && TextOk(b.fileName) && |b.content| <= MAX_SIZE
            then Some(x.(mapName := PickText(x.mapName, b.mapName), fileName := PickText(x.fileName, b.fileName),
                         content := PickText(x.content, b.content)))
            else None
  {
    var f1, f2, f3 := TextField(1, b.mapName), TextField(2, b.fileName), TextField(3, b.content);
    AbsorbAppend(x, f1 + f2, f3);
    AbsorbAppend(x, f1, f2);
    var x1 := x.(mapName := PickText(x.mapName, b.mapName));
    var x2 := x1.(fileName := PickText(x.fileName, b.fileName));
    AbsorbText(x, 1, b.mapName);
    AbsorbText(x1, 2, b.fileName);
    AbsorbText(x2, 3, b.content);
  }

  lemma AbsorbFileRest(x: Body, b: Body)
    requires x.File? && b.File?
    ensures AbsorbAll(x, IntField(4, b.packetNum) + IntField(5, b.packetTotal) + TextField(6, b.md5)) ==
            if TextOk(b.md5)
            then Some(x.(packetNum := PickInt(x.packetNum, b.packetNum),
                         packetTotal := PickInt(x.packetTotal, b.packetTotal), md5 := PickText(x.md5, b.md5)))
            else None
  {
    var f4, f5, f6 := IntField(4, b.packetNum), IntField(5, b.packetTotal), TextField(6, b.md5);
    AbsorbAppend(x, f4 + f5, f6);
    AbsorbAppend(x, f4, f5);
    var x1 := x.(packetNum := PickInt(x.packetNum, b.packetNum));
    var x2 := x1.(packetTotal := PickInt(x.packetTotal, b.packetTotal));
    AbsorbInt(x, 4, b.packetNum);
    AbsorbInt(x1, 5, b.packetTotal);
    AbsorbText(x2, 6, b.md5);
  }

  // ---- Unknown fields ----

  lemma {:induction false} AbsorbUnknown(x: Body, us: seq<Record>)
    requires AllReadable(us) && NoneKnown(KindOf(x), us)
    ensures AbsorbAll(x, us) == Some(WithUnknown(x, x.unknown + EncodeAll(us)))
    decreases |us|
  {
    hide Known, EncodeRecord;
    if us == [] {
      assert x.unknown + EncodeAll(us) == x.unknown;
    } else {
      var x' := WithUnknown(x, x.unknown + EncodeRecord(us[0]));
      assert Absorb(x, us[0]) == Some(x');
      AbsorbUnknown(x', us[1..]);
      assert x'.unknown + EncodeAll(us[1..]) == x.unknown + EncodeAll(us);
    }
  }

  // ---- Payloads: parsing a serialisation is merging ----

  /** What SerializeToString accepts: its size is an int. */
  predicate Serializable(s: bytes) { |s| <= 0x7FFF_FFFF }

  lemma FieldsWellTyped(b: Body)
    requires Serializable(Serialize(b))
    ensures AllWellTyped(Fields(b))
  {
    hide Encode;
    FieldsShape(b);
    EachFits(Fields(b));
    forall i | 0 <= i < |Fields(b)| ensures WellTyped(Fields(b)[i]) {
      var r := Fields(b)[i];
      assert |EncodeRecord(r)| >= |Payload(r)|;
    }
  }

  predicate Shape(r: Record) {
    0 < r.num < 7 && match r
                     case Number(_, v) => v < 0x1_0000_0000_0000_0000
                     case Fixed64(_, raw) => |raw| == 8
                     case Delimited(_, _) => true
                     case Fixed32(_, _) => false
  }

  ghost predicate AllShaped(rs: seq<Record>) { forall i :: 0 <= i < |rs| ==> Shape(rs[i]) }

  lemma AllShapedAppend(a: seq<Record>, b: seq<Record>)
    requires AllShaped(a) && AllShaped(b)
    ensures AllShaped(a + b)
  {}

  lemma TextShape(num: nat, s: bytes)
    requires 0 < num < 7
    ensures AllShaped(TextField(num, s))
  {}

  lemma IntShape(num: nat, n: int32)
    requires 0 < num < 7
    ensures AllShaped(IntField(num, n))
  {}

  lemma RealShape(num: nat, raw: raw64)
    requires 0 < num < 7
    ensures AllShaped(RealField(num, raw))
  {}

  lemma ItemsShape(items: seq<bytes>)
    ensures AllShaped(ItemFields(items))
  {}

  lemma FieldsShape(b: Body)
    ensures AllShaped(Fields(b))
  {
    match b
    case Heartbeat(id, _) => TextShape(1, id);
    case Itemlist(items, _) => ItemsShape(items);
    case Location(x, y, yaw, _) =>
      RealShape(1, x);
      RealShape(2, y);
      RealShape(3, yaw);
      AllShapedAppend(RealField(1, x), RealField(2, y));
      AllShapedAppend(RealField(1, x) + RealField(2, y), RealField(3, yaw));
    case File(_, _, _, _, _, _, _) => FileShape(b);
    case Status(index, total, name, _) =>
      IntShape(1, index);
      IntShape(2, total);
      TextShape(3, name);
      AllShapedAppend(IntField(1, index), IntField(2, total));
      AllShapedAppend(IntField(1, index) + IntField(2, total), TextField(3, name));
  }

  lemma FileShape(b: Body)
    requires b.File?
    ensures AllShaped(Fields(b))
  {
    hide TextField, IntField, AllShaped;
    var f1, f2, f3 := TextField(1, b.mapName), TextField(2, b.fileName), TextField(3, b.content);
    var f4, f5, f6 := IntField(4, b.packetNum), IntField(5, b.packetTotal), TextField(6, b.md5);
    TextShape(1, b.mapName);
    TextShape(2, b.fileName);
    TextShape(3, b.content);
    IntShape(4, b.packetNum);
    IntShape(5, b.packetTotal);
    TextShape(6, b.md5);
    AllShapedAppend(f1, f2);
    AllShapedAppend(f1 + f2, f3);
    AllShapedAppend(f1 + f2 + f3, f4);
    AllShapedAppend(f1 + f2 + f3 + f4, f5);
    AllShapedAppend(f1 + f2 + f3 + f4 + f5, f6);
  }

  lemma {:induction false} EachFits(rs: seq<Record>)
    ensures forall i :: 0 <= i < |rs| ==> |EncodeRecord(rs[i])| <= |EncodeAll(rs)|
  {
    if rs == [] {
    } else {
      EachFits(rs[1..]);
      assert forall i :: 1 <= i < |rs| ==> rs[i] == rs[1..][i - 1];
    }
  }

  /**
   Parsing the serialisation of `b` into `x` gives exactly MergeFrom, and it is accepted
   exactly when every string of `b` is UTF-8 and every length one a reader takes.
   */
  lemma ParseOfSerialize(x: Body, b: Body)
    requires KindOf(x) == KindOf(b)
    requires WellFormed(b) && Serializable(Serialize(b))
    ensures Parse(x, Serialize(b)) == if Accepted(b) then Some(Merge(x, b)) else None
  {
    hide Known, Accepted, EncodeRecord;
    FieldsWellTyped(b);
    ParseEncoded(x, Fields(b), b.unknown);
    AbsorbFields(x, b);
    if Accepted(b) {
      ParseUnknown(Merge(x, WithUnknown(b, [])), b.unknown);
      MergeUnknown(x, b);
    }
  }

  lemma ParseUnknown(x: Body, u: bytes)
    requires UnknownOk(KindOf(x), u)
    ensures Parse(x, u) == Some(WithUnknown(x, x.unknown + u))
  {
    var us := Records(u).value;
    RecordsAreCanonical(u);
    ParseEncoded(x, us, []);
    assert EncodeAll(us) + [] == u;
    AbsorbUnknown(x, us);
  }

  lemma MergeUnknown(x: Body, b: Body)
    requires KindOf(x) == KindOf(b)
    ensures var m := Merge(x, WithUnknown(b, []));
            Merge(x, b) == WithUnknown(m, m.unknown + b.unknown)
  {
    assert x.unknown + [] + b.unknown == x.unknown + b.unknown;
  }

  lemma MergeIntoEmpty(b: Body)
    ensures Merge(Empty(KindOf(b)), b) == b
  {
    assert [] + b.unknown == b.unknown;
    if b.Itemlist? { assert [] + b.items == b.items; }
  }

  lemma RoundTrip(b: Body)
    requires WellFormed(b) && Accepted(b) && Serializable(Serialize(b))
    ensures Parse(Empty(KindOf(b)), Serialize(b)) == Some(b)
  {
    ParseOfSerialize(Empty(KindOf(b)), b);
    MergeIntoEmpty(b);
  }

  // ---- What parsing keeps ----

  lemma UnknownAppend(k: Kind, u: bytes, r: Record)
    requires UnknownOk(k, u) && WellTyped(r) && Readable(r) && !Known(k, r)
    ensures UnknownOk(k, u + EncodeRecord(r))
  {
    hide Known, EncodeRecord, NextRecord;
    var us := Records(u).value;
    RecordsAreCanonical(u);
    EncodeAllSnoc(us, r);
    RecordsOfEncoded(us + [r]);
  }

  lemma AbsorbKeeps(b: Body, r: Record)
    requires WellFormed(b) && WellTyped(r) && Absorb(b, r).Some?
    ensures WellFormed(Absorb(b, r).value)
    ensures Accepted(b) ==> Accepted(Absorb(b, r).value)
  {
    if Known(KindOf(b), r) {
      assert Assign(b, r).value.unknown == b.unknown;
    } else {
      UnknownAppend(KindOf(b), b.unknown, r);
    }
  }

  /** Whatever bytes are accepted, what they leave behind is well formed and can travel again. */
  lemma {:induction false} ParseKeeps(b: Body, s: bytes)
    requires WellFormed(b)
    ensures Parse(b, s).Some? ==> WellFormed(Parse(b, s).value)
    ensures Parse(b, s).Some? && Accepted(b) ==> Accepted(Parse(b, s).value)
    decreases |s|
  {
    hide Absorb, NextRecord, Accepted, WellFormed;
    if s == [] || Parse(b, s).None? {
    } else {
      var (r, n) := NextRecord(s).value;
      NextIsCanonical(s);
      AbsorbKeeps(b, r);
      ParseKeeps(Absorb(b, r).value, s[n..]);
    }
  }

  lemma EmptyIsWellFormed(k: Kind)
    ensures WellFormed(Empty(k)) && Accepted(Empty(k)) && Serialize(Empty(k)) == []
  {
    assert Records([]) == Some([]);
    assert Fields(Empty(k)) == [];
  }

  lemma MergeKeeps(a: Body, b: Body)
    requires KindOf(a) == KindOf(b) && WellFormed(a) && WellFormed(b)
    ensures WellFormed(Merge(a, b))
    ensures Accepted(a) && Accepted(b) ==> Accepted(Merge(a, b))
  {
    hide EncodeRecord, NextRecord, Known;
    var ra, rb := Records(a.unknown).value, Records(b.unknown).value;
    RecordsOfConcat(a.unknown, b.unknown);
    EncodeAllAppend(ra, rb);
  }
}
