/**
 Sending a file as packets and collecting packets into a file: the values, the receiver as a
 step function over one upload packet, and the `hxFile` object.
 A write to disk is an entry of a log; whether a file opens for writing is an oracle.
 */
module FileTransfer {
  import opened Bytes
  import P = Packet
  import V = Varint
  import L = PacketLaws
  import E = EnvelopeLaws
  import M = PacketMessages
  import Utf8
  import opened Framing
  import opened Wrappers

  const PACKET_SIZE: nat := 1200

  // ---- Splitting ----

  function Chunks(content: bytes): (cs: seq<bytes>)
    decreases |content|
  {
    if content == [] then []
    else if |content| <= PACKET_SIZE then [content]
    else [content[..PACKET_SIZE]] + Chunks(content[PACKET_SIZE..])
  }

  datatype Upload = Upload(mapName: bytes, fileName: bytes, content: bytes)

  /** The packets of an upload; an empty file is one packet, numbered 1 of 1. */
  function PacketsOf(u: Upload): (ps: seq<P.Body>)
    ensures |ps| > 0
    ensures forall i :: 0 <= i < |ps| ==> ps[i].File? && ps[i].fileName == u.fileName
  {
    var cs := Chunks(u.content);
    if cs == [] then [P.File(u.mapName, u.fileName, [], 1, 1, [], [])]
    else seq(|cs|, i requires 0 <= i < |cs| =>
                     P.File(u.mapName, u.fileName, cs[i], ToInt32(i), ToInt32(|cs|), [], []))
  }

  const TYPE_MAPLIST: int32 := 2
  const TYPE_FILE: int32 := 4

  function Envelope(p: P.Body): P.Message { P.Message(TYPE_FILE, Some(p), []) }

  /** What SerializeToString leaves in its output: nothing if the message is over 2 GB. */
  function Body(m: P.Message): bytes {
    if L.Serializable(P.SerializeMessage(m)) then P.SerializeMessage(m) else []
  }

  function Bodies(ps: seq<P.Body>): (bs: seq<bytes>)
    ensures |bs| == |ps| && forall i :: 0 <= i < |ps| ==> bs[i] == Body(Envelope(ps[i]))
  {
    seq(|ps|, i requires 0 <= i < |ps| => Body(Envelope(ps[i])))
  }

  // ---- Receiving ----

  datatype Entry = Entry(mapName: bytes, fileName: bytes, total: int32, packets: map<int32, bytes>, md5: bytes)

  const FRESH: Entry := Entry([], [], 0, map[], [])

  datatype Write = Write(mapName: bytes, fileName: bytes, data: bytes)

  /** The first packet with a name fixes the metadata. */
  function SetFileInfo(e: Entry, mapName: bytes, fileName: bytes, total: int32, md5: bytes): Entry {
    if e.fileName != [] then e else Entry(mapName, fileName, total, e.packets, md5)
  }

  /** The entry a packet is put into: its own, with the metadata settled. */
  function Settled(e: Entry, p: P.Body): Entry
    requires p.File?
  {
    SetFileInfo(e, p.mapName, p.fileName, p.packetTotal, p.md5)
  }

  /** The count is compared as an unsigned 64-bit number: a negative total is never reached. */
  predicate Enough(packets: map<int32, bytes>, total: int32) { |packets| >= SignExtend(total) }

  function At(packets: map<int32, bytes>, k: int32): bytes { if k in packets then packets[k] else [] }

  /** Packets `from` up to `total` in order, an absent one counting as empty. */
  function Assembled(packets: map<int32, bytes>, from: nat, total: int32): bytes
    decreases total - from
  {
    if from >= total then [] else At(packets, from) + Assembled(packets, from + 1, total)
  }

  const SLASH: byte := 0x2F

  /** The path below the root directory, whose own path is ASCII. */
  function PathOf(mapName: bytes, fileName: bytes): bytes { mapName + [SLASH] + fileName }

  /** The conversion to wide characters that comes before any file is opened; it throws on the others. */
  predicate Converts(mapName: bytes, fileName: bytes) { Utf8.Valid(PathOf(mapName, fileName)) }

  /** Both names must be text, and nothing else matters. */
  lemma ConvertsIffText(root: bytes, mapName: bytes, fileName: bytes)
    requires forall i :: 0 <= i < |root| ==> root[i] < 0x80
    ensures Converts(mapName, fileName) <==> Utf8.Valid(mapName) && Utf8.Valid(fileName)
    ensures Utf8.Valid(root + PathOf(mapName, fileName)) <==> Converts(mapName, fileName)
  {
    Utf8.Separated(mapName, SLASH, fileName);
    Utf8.AsciiFront(root, PathOf(mapName, fileName));
  }

  /**
   How receiving a packet ends: nothing written, for want of packets or because the file did not
   open; an exception from the conversion of the path; or the file written.
   */
  datatype Verdict = Waiting | Thrown | Written(write: Write)

  function Receive(e: Entry, num: int32, content: bytes, opens: bool): (Entry, Verdict) {
    var e' := e.(packets := e.packets[num := content]);
    if !Enough(e'.packets, e'.total) then (e', Waiting)
    else if !Converts(e.mapName, e.fileName) then (e', Thrown)
    else if !opens then (e', Waiting)
    else (e'.(packets := map[]), Written(Write(e.mapName, e.fileName, Assembled(e'.packets, 0, e'.total))))
  }

  type Files = map<bytes, Entry>

  function Lookup(files: Files, name: bytes): Entry { if name in files then files[name] else FRESH }

  /** One upload packet: the entry it leaves under its name, or the write that ends the entry. */
  function Step(files: Files, p: P.Body, opens: bool): (Files, Verdict)
    requires p.File?
  {
    var (e, w) := Receive(Settled(Lookup(files, p.fileName), p), p.packetNum, p.content, opens);
    (if w.Written? then files - {p.fileName} else files[p.fileName := e], w)
  }

  datatype Event = Event(p: P.Body, opens: bool)

  ghost predicate AllFiles(evs: seq<Event>) { forall i :: 0 <= i < |evs| ==> evs[i].p.File? }

  function ToSeq(w: Verdict): seq<Write> { if w.Written? then [w.write] else [] }

  /**
   Calls of the receiver one after the other: the entries left and the writes made, in order. A
   caller that stops at an exception makes a run of the events up to it.
   */
  function Run(files: Files, evs: seq<Event>): (Files, seq<Write>)
    requires AllFiles(evs)
    decreases |evs|
  {
    if evs == [] then (files, [])
    else
      var (files', w) := Step(files, evs[0].p, evs[0].opens);
      var (files'', ws) := Run(files', evs[1..]);
      (files'', ToSeq(w) + ws)
  }

  // ---- The object ----

  /** Every write made, in order. */
  class Disk {
    var log: seq<Write>
  }

  class HxFile {
    var mapName: bytes
    var fileName: bytes
    var total: int32
    var packets: map<int32, bytes>
    var md5: bytes

    ghost function Value(): Entry
      reads this
    {
      Entry(mapName, fileName, total, packets, md5)
    }

    constructor ()
      ensures Value() == FRESH
    {
      mapName, fileName, total, packets, md5 := [], [], 0, map[], [];
    }

    method SetInfo(mapN: bytes, name: bytes, packetTotal: int32, fileMd5: bytes)
      modifies this
      ensures Value() == SetFileInfo(old(Value()), mapN, name, packetTotal, fileMd5)
    {
      if fileName != [] { return; }
      mapName := mapN;
      fileName := name;
      total := packetTotal;
      md5 := fileMd5;
    }

    method ReceivePacket(num: int32, content: bytes, opens: bool, disk: Disk) returns (ok: bool, thrown: bool)
      modifies this, disk
      ensures var (e, w) := Receive(old(Value()), num, content, opens);
              && Value() == e && ok == w.Written? && thrown == w.Thrown?
              && disk.log == old(disk.log) + ToSeq(w)
    {
      hide Converts;
      packets := packets[num := content];
      if |packets| < SignExtend(total) { return false, false; }
      ok, thrown := AssembleAndSaveFile(opens, disk);
    }

    /**
     The path is converted, then the file opened. Reading a packet through operator[] puts an empty
     one in place of a missing one.
     */
    method AssembleAndSaveFile(opens: bool, disk: Disk) returns (ok: bool, thrown: bool)
      modifies this, disk
      ensures thrown == !Converts(old(mapName), old(fileName)) && ok == (!thrown && opens)
      ensures !ok ==> Value() == old(Value()) && disk.log == old(disk.log)
      ensures ok ==> Value() == old(Value()).(packets := map[])
      ensures ok ==> disk.log == old(disk.log) + [Write(mapName, fileName, Assembled(old(packets), 0, total))]
    {
      hide Assembled, Converts;
      if !Converts(mapName, fileName) { return false, true; }
      if !opens { return false, false; }
      var out: bytes := [];
      var i := 0;
      while i < total
        invariant 0 <= i && (total >= 0 ==> i <= total)
        invariant mapName == old(mapName) && fileName == old(fileName) && total == old(total) && md5 == old(md5)
        invariant disk.log == old(disk.log)
        invariant forall k: int32 :: At(packets, k) == At(old(packets), k)
        invariant out + Assembled(old(packets), i, total) == Assembled(old(packets), 0, total)
      {
        if i !in packets { packets := packets[i := []]; }
        AssembledStep(old(packets), i, total, out);
        out := out + packets[i];
        i := i + 1;
      }
      assert out + Assembled(old(packets), i, total) == out by { AssembledEnd(old(packets), i, total); }
      disk.log := disk.log + [Write(mapName, fileName, out)];
      packets := map[];
      return true, false;
    }

    /** Converts the path, then splits the file read from disk and appends its framed packets. */
    method SplitToVector(file: Option<bytes>, sendVector: seq<bytes>) returns (out: seq<bytes>, thrown: bool)
      ensures thrown == !Converts(mapName, fileName)
      ensures out == sendVector + (if thrown || file.None? then [] else
                                     Frames(Bodies(PacketsOf(Upload(mapName, fileName, file.value)))))
    {
      hide Frame, Body, Chunks, PacketsOf, Converts;
      if !Converts(mapName, fileName) { return sendVector, true; }
      if file.None? { return sendVector, false; }
      var packets := SplitContent(file.value);
      out := SendPackets(Upload(mapName, fileName, file.value), packets, sendVector);
      return out, false;
    }
  }

  lemma AssembledStep(packets: map<int32, bytes>, i: nat, total: int32, out: bytes)
    requires i < total
    ensures out + At(packets, i) + Assembled(packets, i + 1, total) == out + Assembled(packets, i, total)
  {
    Regroup(out, At(packets, i), Assembled(packets, i + 1, total));
  }

  lemma Regroup(a: bytes, b: bytes, c: bytes)
    ensures a + b + c == a + (b + c)
  {}

  lemma AssembledEnd(packets: map<int32, bytes>, i: nat, total: int32)
    requires i >= total
    ensures Assembled(packets, i, total) == []
  {
  }

  /** The first loop: pieces of 1200 bytes and a last shorter one. */
  method SplitContent(content: bytes) returns (packets: seq<bytes>)
    ensures packets == Chunks(content)
  {
    hide Chunks;
    var size := |content|;
    packets := [];
    var offset := 0;
    assert Chunks([]) == [] by { NoChunks(); }
    assert content[0..] == content && [] + Chunks(content) == Chunks(content);
    while offset < size
      invariant packets + Chunks(Behind(content, offset)) == Chunks(content)
    {
      var currentSize := if PACKET_SIZE < size - offset then PACKET_SIZE else size - offset;
      var packet := content[offset..offset + currentSize];
      ChunksStep(packets, content, offset);
      packets := packets + [packet];
      offset := offset + PACKET_SIZE;
    }
    assert Behind(content, offset) == [];
    assert packets + [] == packets;
  }

  lemma NoChunks()
    ensures Chunks([]) == []
  {
  }

  function Behind(content: bytes, offset: nat): bytes {
    if offset <= |content| then content[offset..] else []
  }

  lemma ChunksStep(done: seq<bytes>, content: bytes, offset: nat)
    requires offset < |content|
    ensures var n := if PACKET_SIZE < |content| - offset then PACKET_SIZE else |content| - offset;
            done + Chunks(Behind(content, offset)) ==
            done + [content[offset..offset + n]] + Chunks(Behind(content, offset + PACKET_SIZE))
  {
    var rest := content[offset..];
    var n := if PACKET_SIZE < |rest| then PACKET_SIZE else |rest|;
    if PACKET_SIZE < |rest| {
      assert rest[..PACKET_SIZE] == content[offset..offset + PACKET_SIZE];
      assert rest[PACKET_SIZE..] == content[offset + PACKET_SIZE..];
    } else {
      assert content[offset..offset + |rest|] == rest;
      assert Behind(content, offset + PACKET_SIZE) == [];
    }
    assert Chunks(rest) == [content[offset..offset + n]] + Chunks(Behind(content, offset + PACKET_SIZE));
  }

  lemma {:induction false} ChunksAreSmall(content: bytes)
    ensures forall i :: 0 <= i < |Chunks(content)| ==> 0 < |Chunks(content)[i]| <= PACKET_SIZE
    decreases |content|
  {
    if |content| <= PACKET_SIZE {
    } else {
      ChunksAreSmall(content[PACKET_SIZE..]);
    }
  }

  /** The reused message, with the names of the upload set and nothing unknown in it. */
  ghost predicate Prepared(message: M.Message, packet: M.File, u: Upload)
    reads message, packet
  {
    && message.Valid() && message.oneofCase == 5 && message.file == packet
    && message.typ == TYPE_FILE && message.unknown == []
    && packet.mapName == u.mapName && packet.fileName == u.fileName && packet.md5 == [] && packet.unknown == []
  }

  /** The second loop reuses one message: only content, number and total change between packets. */
  method SendPackets(u: Upload, packets: seq<bytes>, sendVector: seq<bytes>) returns (out: seq<bytes>)
    requires packets == Chunks(u.content)
    ensures out == sendVector + Frames(Bodies(PacketsOf(u)))
  {
    hide Frame, Body, Chunks, Frames, Bodies, Prepared, Envelope;
    BodiesNone();
    out := sendVector;
    var message, packet := NewPacket(u);
    ghost var ps := PacketsOf(u);
    for i := 0 to |packets|
      invariant fresh(message) && fresh(packet) && Prepared(message, packet, u)
      invariant out == sendVector + Frames(Bodies(ps[..i]))
    {
      out := SendPiece(message, packet, u, packets[i], i, |packets|, ps[i], out);
      BodiesSnoc(ps, i);
    }
    if packets == [] {
      out := SendPiece(message, packet, u, [], 1, 1, ps[0], out);
      BodiesSnoc(ps, 0);
      assert ps[..1] == ps;
    } else {
      assert ps[..|packets|] == ps;
    }
  }

  method NewPacket(u: Upload) returns (message: M.Message, packet: M.File)
    ensures fresh(message) && fresh(packet) && Prepared(message, packet, u)
  {
    message := new M.Message();
    message.typ := TYPE_FILE;
    packet := message.MutableFile();
    packet.mapName := u.mapName;
    packet.fileName := u.fileName;
  }

  method SendPiece(message: M.Message, packet: M.File, u: Upload, content: bytes, num: nat, total: nat,
                   ghost p: P.Body, sent: seq<bytes>)
    returns (out: seq<bytes>)
    requires Prepared(message, packet, u)
    requires p == P.File(u.mapName, u.fileName, content, ToInt32(num), ToInt32(total), [], [])
    modifies message`cachedSize, packet
    ensures Prepared(message, packet, u)
    ensures out == sent + [Frame(Body(Envelope(p)))]
  {
    hide Frame, Body, Envelope, ToInt32;
    packet.content := content;
    packet.packetNum := ToInt32(num);
    packet.packetTotal := ToInt32(total);
    out := SendOne(message, packet, p, sent);
  }

  lemma BodiesNone()
    ensures Frames(Bodies([])) == []
  {}

  lemma BodiesSnoc(ps: seq<P.Body>, i: nat)
    requires i < |ps|
    ensures Frames(Bodies(ps[..i + 1])) == Frames(Bodies(ps[..i])) + [Frame(Body(Envelope(ps[i])))]
  {
    hide Frame, Body, Envelope;
    assert ps[..i + 1] == ps[..i] + [ps[i]];
  }

  /** A packet of a split: two names that came in one message, at most 1200 bytes, no checksum. */
  predicate SmallPacket(p: P.Body) {
    && p.File? && p.md5 == [] && p.unknown == []
    && |p.mapName| + |p.fileName| <= 0x7FFF_FFFF && |p.content| <= PACKET_SIZE
  }

  lemma PacketFits(p: P.Body)
    requires SmallPacket(p)
    ensures |P.Serialize(p)| <= |p.mapName| + |p.fileName| + |p.content| + 40
  {
    hide P.Serialize, E.SizeOf, P.TextField, P.IntField;
    E.FileSizeIs(p);
    TextAtMost(1, p.mapName);
    TextAtMost(2, p.fileName);
    TextAtMost(3, p.content);
    TextAtMost(6, p.md5);
    IntAtMost(4, p.packetNum);
    IntAtMost(5, p.packetTotal);
  }

  lemma TextAtMost(num: nat, s: bytes)
    requires 0 < num < 16 && |s| < 0x1_0000_0000
    ensures E.SizeOf(P.TextField(num, s)) <= if s == [] then 0 else |s| + 6
  {
    hide V.VarintSize, V.Encode, E.SizeOf;
    M.TextSize(num, s);
    assert |s| % 0x1_0000_0000 == |s|;
    V.VarintSizeIsLength(|s|);
    V.EncodeLengths();
  }

  lemma IntAtMost(num: nat, n: int32)
    requires 0 < num < 16
    ensures E.SizeOf(P.IntField(num, n)) <= 11
  {
    hide V.Encode, E.SizeOf;
    M.IntSize(num, n);
    if n != 0 {
      V.VarintSizeIsLength(SignExtend(n));
      V.EncodeLengths();
    }
  }

  /** Serialise the message as it stands, frame it, append it. */
  method SendOne(message: M.Message, packet: M.File, ghost p: P.Body, sent: seq<bytes>) returns (out: seq<bytes>)
    requires message.Valid() && message.oneofCase == 5 && message.file == packet
    requires message.typ == TYPE_FILE && message.unknown == [] && packet.Value() == p
    requires p.File?
    modifies message`cachedSize, packet
    ensures message.Valid() && packet.Value() == p
    ensures out == sent + [Frame(Body(Envelope(p)))]
  {
    var ok, data := message.SerializeToString();
    if !ok { data := []; }
    var stream := ToBigEndianByteStream(data);
    out := sent + [stream[..]];
  }
}
