/**
 The `packet` messages as values, and what each operation of the generated code means on them.

 A `Body` is the content of one of the five payload types, a `Message` the envelope with its
 one-of. Absorb is one turn of a parse loop; Fields are the records a serialiser writes;
 Merge is MergeFrom. Doubles are their eight little-endian bytes, since the code only tests
 their bit pattern for zero.
 */
module Packet {
  import opened Bytes
  import opened Varint
  import opened Wire
  import Utf8
  import opened Wrappers

  type raw64 = s: bytes | |s| == 8 witness [0, 0, 0, 0, 0, 0, 0, 0]

  const ZERO64: raw64 := [0, 0, 0, 0, 0, 0, 0, 0]

  datatype Kind = HeartbeatKind | ItemlistKind | LocationKind | FileKind | StatusKind

  datatype Body =
    | Heartbeat(nodeId: bytes, unknown: bytes)
    | Itemlist(items: seq<bytes>, unknown: bytes)
    | Location(x: raw64, y: raw64, yaw: raw64, unknown: bytes)
    | File(mapName: bytes, fileName: bytes, content: bytes, packetNum: int32, packetTotal: int32,
           md5: bytes, unknown: bytes)
    | Status(packetIndex: int32, totalPackets: int32, currentName: bytes, unknown: bytes)

  function KindOf(b: Body): Kind {
    match b
    case Heartbeat(_, _) => HeartbeatKind
    case Itemlist(_, _) => ItemlistKind
    case Location(_, _, _, _) => LocationKind
    case File(_, _, _, _, _, _, _) => FileKind
    case Status(_, _, _, _) => StatusKind
  }

  /** A default instance. */
  function Empty(k: Kind): (b: Body)
    ensures KindOf(b) == k
  {
    match k
    case HeartbeatKind => Heartbeat([], [])
    case ItemlistKind => Itemlist([], [])
    case LocationKind => Location(ZERO64, ZERO64, ZERO64, [])
    case FileKind => File([], [], [], 0, 0, [], [])
    case StatusKind => Status(0, 0, [], [])
  }

  // ---- Serialising ----

  function TextField(num: nat, s: bytes): seq<Record> { if s == [] then [] else [Delimited(num, s)] }

  function IntField(num: nat, n: int32): seq<Record> { if n == 0 then [] else [Number(num, SignExtend(n))] }

  function RealField(num: nat, raw: raw64): seq<Record> { if raw == ZERO64 then [] else [Fixed64(num, raw)] }

  function ItemFields(items: seq<bytes>): (rs: seq<Record>)
    ensures |rs| == |items| && forall i :: 0 <= i < |rs| ==> rs[i] == Delimited(1, items[i])
  {
    seq(|items|, i requires 0 <= i < |items| => Delimited(1, items[i]))
  }

  /** The known fields in the order they are written: only non-default values travel. */
  function Fields(b: Body): seq<Record> {
    match b
    case Heartbeat(id, _) => TextField(1, id)
    case Itemlist(items, _) => ItemFields(items)
    case Location(x, y, yaw, _) => RealField(1, x) + RealField(2, y) + RealField(3, yaw)
    case File(mapN, name, content, num, total, md5, _) =>
      TextField(1, mapN) + TextField(2, name) + TextField(3, content)
      + IntField(4, num) + IntField(5, total) + TextField(6, md5)
    case Status(index, total, name, _) => IntField(1, index) + IntField(2, total) + TextField(3, name)
  }

  function Serialize(b: Body): bytes { EncodeAll(Fields(b)) + b.unknown }

  // ---- Parsing ----

  /** The record belongs to a field of the type, with the wire type that field has. */
  predicate Known(k: Kind, r: Record) {
    match k
    case HeartbeatKind => r.Delimited? && r.num == 1
    case ItemlistKind => r.Delimited? && r.num == 1
    case LocationKind => r.Fixed64? && r.num in {1, 2, 3} && |r.raw| == 8
    case FileKind => (r.Delimited? && r.num in {1, 2, 3, 6}) || (r.Number? && r.num in {4, 5})
    case StatusKind => (r.Delimited? && r.num == 3) || (r.Number? && r.num in {1, 2})
  }

  /** The record is text that is not UTF-8; file content is bytes and may be anything. */
  predicate BadText(k: Kind, r: Record) {
    r.Delimited? && !(k == FileKind && r.num == 3) && !Utf8.Valid(r.s)
  }

  /** What the record does to the field it belongs to. The text is stored before it is looked at. */
  function Stored(b: Body, r: Record): (b': Body)
    requires Known(KindOf(b), r)
    ensures KindOf(b') == KindOf(b)
  {
    match b
    case Heartbeat(_, _) => b.(nodeId := r.s)
    case Itemlist(items, _) => b.(items := items + [r.s])
    case Location(_, _, _, _) =>
      if r.num == 1 then b.(x := r.raw) else if r.num == 2 then b.(y := r.raw) else b.(yaw := r.raw)
    case File(_, _, _, _, _, _, _) =>
      if r.num == 1 then b.(mapName := r.s)
      else if r.num == 2 then b.(fileName := r.s)
      else if r.num == 3 then b.(content := r.s)
      else if r.num == 4 then b.(packetNum := ToInt32(r.v))
      else if r.num == 5 then b.(packetTotal := ToInt32(r.v))
      else b.(md5 := r.s)
    case Status(_, _, _, _) =>
      if r.num == 1 then b.(packetIndex := ToInt32(r.v))
      else if r.num == 2 then b.(totalPackets := ToInt32(r.v))
      else b.(currentName := r.s)
  }

  /** What the record does to the field it belongs to, if it is accepted. */
  function Assign(b: Body, r: Record): (r': Option<Body>)
    requires Known(KindOf(b), r)
    ensures r'.Some? ==> KindOf(r'.value) == KindOf(b)
  {
    if BadText(KindOf(b), r) then None else Some(Stored(b, r))
  }

  function WithUnknown(b: Body, u: bytes): (b': Body)
    ensures KindOf(b') == KindOf(b) && b'.unknown == u
  {
    b.(unknown := u)
  }

  /** One turn of a parse loop. A record of no known field is kept, rewritten canonically. */
  function Absorb(b: Body, r: Record): (r': Option<Body>)
    ensures r'.Some? ==> KindOf(r'.value) == KindOf(b)
  {
    if !Readable(r) then None
    else if Known(KindOf(b), r) then Assign(b, r)
    else Some(WithUnknown(b, b.unknown + EncodeRecord(r)))
  }

  /** _InternalParse over the whole of `s`, into the message `b`. */
  function Parse(b: Body, s: bytes): (r: Option<Body>)
    ensures r.Some? ==> KindOf(r.value) == KindOf(b)
    decreases |s|
  {
    if s == [] then Some(b)
    else
      match NextRecord(s)
      case None => None
      case Some((r, n)) =>
        match Absorb(b, r)
        case None => None
        case Some(b') => Parse(b', s[n..])
  }

  // ---- What a parse leaves behind ----

  /**
   How a parse ends: well; at a text that is not UTF-8, with this in the object; or at bytes that
   are no record. What is in the object then depends on the reader's buffers.
   */
  datatype Outcome<+T> = Done(value: T) | Spoiled(value: T) | Unreadable

  function Take(b: Body, r: Record): (o: Outcome<Body>)
    ensures !o.Unreadable? ==> KindOf(o.value) == KindOf(b)
    ensures Absorb(b, r) == if o.Done? then Some(o.value) else None
  {
    if !Readable(r) then Unreadable
    else if !Known(KindOf(b), r) then Done(WithUnknown(b, b.unknown + EncodeRecord(r)))
    else if BadText(KindOf(b), r) then Spoiled(Stored(b, r))
    else Done(Stored(b, r))
  }

  function Consume(b: Body, s: bytes): (o: Outcome<Body>)
    ensures !o.Unreadable? ==> KindOf(o.value) == KindOf(b)
    ensures Parse(b, s) == if o.Done? then Some(o.value) else None
    decreases |s|
  {
    if s == [] then Done(b)
    else
      match NextRecord(s)
      case None => Unreadable
      case Some((r, n)) =>
        var o := Take(b, r);
        if o.Done? then Consume(o.value, s[n..]) else o
  }

  // ---- Merging ----

  function PickText(mine: bytes, theirs: bytes): bytes { if theirs == [] then mine else theirs }

  function PickInt(mine: int32, theirs: int32): int32 { if theirs == 0 then mine else theirs }

  function PickReal(mine: raw64, theirs: raw64): raw64 { if theirs == ZERO64 then mine else theirs }

  /** MergeFrom: non-default values win, repeated fields and unknown bytes are appended. */
  function Merge(a: Body, b: Body): (m: Body)
    requires KindOf(a) == KindOf(b)
    ensures KindOf(m) == KindOf(a)
  {
    match b
    case Heartbeat(id, u) => Heartbeat(PickText(a.nodeId, id), a.unknown + u)
    case Itemlist(items, u) => Itemlist(a.items + items, a.unknown + u)
    case Location(x, y, yaw, u) =>
      Location(PickReal(a.x, x), PickReal(a.y, y), PickReal(a.yaw, yaw), a.unknown + u)
    case File(mapN, name, content, num, total, md5, u) =>
      File(PickText(a.mapName, mapN), PickText(a.fileName, name), PickText(a.content, content),
           PickInt(a.packetNum, num), PickInt(a.packetTotal, total), PickText(a.md5, md5), a.unknown + u)
    case Status(index, total, name, u) =>
      Status(PickInt(a.packetIndex, index), PickInt(a.totalPackets, total),
             PickText(a.currentName, name), a.unknown + u)
  }

  // ---- Which values can travel ----

  predicate TextOk(s: bytes) { Utf8.Valid(s) && |s| <= MAX_SIZE }

  /** Strings are UTF-8 and no field is longer than a reader accepts. */
  predicate Accepted(b: Body) {
    match b
    case Heartbeat(id, _) => TextOk(id)
    case Itemlist(items, _) => forall i :: 0 <= i < |items| ==> TextOk(items[i])
    case Location(_, _, _, _) => true
    case File(mapN, name, content, _, _, md5, _) => TextOk(mapN) && TextOk(name) && |content| <= MAX_SIZE && TextOk(md5)
    case Status(_, _, name, _) => TextOk(name)
  }

  predicate NoneKnown(k: Kind, rs: seq<Record>) {
    forall i :: 0 <= i < |rs| ==> !Known(k, rs[i])
  }

  /** Canonical bytes of fields the type does not have: what a parse leaves in `unknown`. */
  predicate UnknownOk(k: Kind, u: bytes) {
    match Records(u)
    case None => false
    case Some(rs) => EncodeAll(rs) == u && NoneKnown(k, rs)
  }

  /** The invariant of every message built by parsing, merging, clearing and setting fields. */
  predicate WellFormed(b: Body) { UnknownOk(KindOf(b), b.unknown) }

  // ---- The envelope ----

  datatype Message = Message(typ: int32, payload: Option<Body>, unknown: bytes)

  const EMPTY: Message := Message(0, None, [])

  function FieldNumber(k: Kind): nat {
    match k
    case HeartbeatKind => 2
    case ItemlistKind => 3
    case LocationKind => 4
    case FileKind => 5
    case StatusKind => 6
  }

  function KindAt(num: nat): Option<Kind> {
    if num == 2 then Some(HeartbeatKind)
    else if num == 3 then Some(ItemlistKind)
    else if num == 4 then Some(LocationKind)
    else if num == 5 then Some(FileKind)
    else if num == 6 then Some(StatusKind)
    else None
  }

  function PayloadFields(p: Option<Body>): seq<Record> {
    match p
    case None => []
    case Some(b) => [Delimited(FieldNumber(KindOf(b)), Serialize(b))]
  }

  function MessageFields(m: Message): seq<Record> { IntField(1, m.typ) + PayloadFields(m.payload) }

  function SerializeMessage(m: Message): bytes { EncodeAll(MessageFields(m)) + m.unknown }

  /** _internal_mutable_*: the payload if it already is of that kind, else a fresh one in its place. */
  function Mutable(p: Option<Body>, k: Kind): (b: Body)
    ensures KindOf(b) == k
  {
    if p.Some? && KindOf(p.value) == k then p.value else Empty(k)
  }

  predicate KnownInMessage(r: Record) {
    (r.Number? && r.num == 1) || (r.Delimited? && KindAt(r.num).Some?)
  }

  function AbsorbMessage(m: Message, r: Record): Option<Message> {
    if !Readable(r) then None
    else if r.Number? && r.num == 1 then Some(m.(typ := ToInt32(r.v)))
    else if r.Delimited? && KindAt(r.num).Some? then
      match Parse(Mutable(m.payload, KindAt(r.num).value), r.s)
      case None => None
      case Some(b) => Some(m.(payload := Some(b)))
    else Some(m.(unknown := m.unknown + EncodeRecord(r)))
  }

  function ParseMessage(m: Message, s: bytes): Option<Message>
    decreases |s|
  {
    if s == [] then Some(m)
    else
      match NextRecord(s)
      case None => None
      case Some((r, n)) =>
        match AbsorbMessage(m, r)
        case None => None
        case Some(m') => ParseMessage(m', s[n..])
  }

  function TakeMessage(m: Message, r: Record): (o: Outcome<Message>)
    ensures AbsorbMessage(m, r) == if o.Done? then Some(o.value) else None
  {
    if !Readable(r) then Unreadable
    else if r.Number? && r.num == 1 then Done(m.(typ := ToInt32(r.v)))
    else if r.Delimited? && KindAt(r.num).Some? then
      match Consume(Mutable(m.payload, KindAt(r.num).value), r.s)
      case Unreadable => Unreadable
      case Spoiled(b) => Spoiled(m.(payload := Some(b)))
      case Done(b) => Done(m.(payload := Some(b)))
    else Done(m.(unknown := m.unknown + EncodeRecord(r)))
  }

  function ConsumeMessage(m: Message, s: bytes): (o: Outcome<Message>)
    ensures ParseMessage(m, s) == if o.Done? then Some(o.value) else None
    decreases |s|
  {
    if s == [] then Done(m)
    else
      match NextRecord(s)
      case None => Unreadable
      case Some((r, n)) =>
        var o := TakeMessage(m, r);
        if o.Done? then ConsumeMessage(o.value, s[n..]) else o
  }

  function MergePayload(a: Option<Body>, b: Option<Body>): Option<Body> {
    match b
    case None => a
    case Some(p) => Some(Merge(Mutable(a, KindOf(p)), p))
  }

  function MergeMessage(a: Message, b: Message): Message {
    Message(PickInt(a.typ, b.typ), MergePayload(a.payload, b.payload), a.unknown + b.unknown)
  }

  predicate AcceptedMessage(m: Message) {
    m.payload.Some? ==> Accepted(m.payload.value) && |Serialize(m.payload.value)| <= MAX_SIZE
  }

  predicate UnknownOkInMessage(u: bytes) {
    match Records(u)
    case None => false
    case Some(rs) => EncodeAll(rs) == u && forall i :: 0 <= i < |rs| ==> !KnownInMessage(rs[i])
  }

  predicate WellFormedMessage(m: Message) {
    UnknownOkInMessage(m.unknown) && (m.payload.Some? ==> WellFormed(m.payload.value))
  }
}
