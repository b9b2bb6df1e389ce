/** The TCP server: what one package makes it do. */
module MapServer {
  import opened Wrappers
  import opened Bytes
  import P = Packet
  import M = PacketMessages
  import Utf8
  import opened Framing
  import opened FileTransfer

  /** Files on the server's disk, by map name and file name. */
  type Store = map<(bytes, bytes), bytes>

  /** The part of a std::string that a C string shows: everything before the first NUL. */
  function CStr(s: bytes): (r: bytes)
    ensures r <= s && 0 !in r && (|r| < |s| ==> s[|r|] == 0)
  {
    if s == [] || s[0] == 0 then [] else [s[0]] + CStr(s[1..])
  }

  const MAP_LIST: seq<bytes> := [
    [0x61, 0x61, 0x61], [0x63, 0x63, 0x63],
    [0xE5, 0xB8, 0x83, 0xE9, 0xB2, 0x81, 0xE5, 0xA1, 0x9E, 0xE5, 0xB0, 0x94],
    [0xE5, 0xB7, 0xA5, 0xE4, 0xBD, 0x9C, 0xE5, 0x8C, 0xBA]]

  const MAP_LIST_MESSAGE: P.Message := P.Message(TYPE_MAPLIST, Some(P.Itemlist(MAP_LIST, [])), [])

  function Fetch(store: Store, mapName: bytes, name: bytes): Option<bytes> {
    if (mapName, name) in store then Some(store[(mapName, name)]) else None
  }

  /** The packets sent for the requested files, one file after the other; unreadable ones are skipped. */
  function DownloadPackets(store: Store, mapName: bytes, names: seq<bytes>): (ps: seq<P.Body>)
    ensures forall i :: 0 <= i < |ps| ==> ps[i].File?
  {
    if names == [] then []
    else PacketsFor(store, mapName, names[0]) + DownloadPackets(store, mapName, names[1..])
  }

  function PacketsFor(store: Store, mapName: bytes, name: bytes): (ps: seq<P.Body>)
    ensures forall i :: 0 <= i < |ps| ==> ps[i].File?
  {
    match Fetch(store, mapName, name)
    case None => []
    case Some(content) => PacketsOf(Upload(mapName, name, content))
  }

  /** The names asked for are the items behind the first. */
  function Requested(items: seq<bytes>): seq<bytes>
    requires items != []
  {
    seq(|items| - 1, i requires 0 <= i < |items| - 1 => CStr(items[i + 1]))
  }

  /** The path of every file can be converted; otherwise splitting one of them throws. */
  predicate AllConvert(mapName: bytes, names: seq<bytes>) {
    forall i :: 0 <= i < |names| ==> Converts(mapName, names[i])
  }

  /** A handler call: an exception leaves no replies. */
  datatype Effect = Effect(files: Files, verdict: Verdict, replies: seq<bytes>)

  /** The switch of the message handler. An item list without entries is ignored here. */
  function Handle(store: Store, files: Files, m: P.Message, opens: bool): Effect {
    if m.typ == TYPE_MAPLIST then Effect(files, Waiting, [Frame(Body(MAP_LIST_MESSAGE))])
    else if m.typ == TYPE_FILE && m.payload.Some? && m.payload.value.Itemlist? then
      var items := m.payload.value.items;
      if items == [] then Effect(files, Waiting, [])
      else if !AllConvert(items[0], Requested(items)) then Effect(files, Thrown, [])
      else Effect(files, Waiting, Frames(Bodies(DownloadPackets(store, items[0], Requested(items)))))
    else if m.typ == TYPE_FILE && m.payload.Some? && m.payload.value.File? then
      var (files', verdict) := Step(files, m.payload.value, opens);
      Effect(files', verdict, [])
    else Effect(files, Waiting, [])
  }

  // ---- The server object ----

  class Server {
    var filesReceiver: map<bytes, HxFile>

    /** Distinct keys have distinct objects: the std::map holds them by value. */
    ghost predicate Valid()
      reads this
    {
      forall a, b :: a in filesReceiver && b in filesReceiver && filesReceiver[a] == filesReceiver[b] ==> a == b
    }

    ghost function State(): Files
      reads this, filesReceiver.Values
    {
      map n | n in filesReceiver :: filesReceiver[n].Value()
    }

    constructor ()
      ensures Valid() && State() == map[]
    {
      filesReceiver := map[];
    }

    /** filesReceiver[name]: the entry under the name, a fresh one if there is none. */
    method At(name: bytes) returns (f: HxFile)
      requires Valid()
      modifies this
      ensures Valid() && name in filesReceiver && filesReceiver[name] == f
      ensures f in old(filesReceiver.Values) || fresh(f)
      ensures fresh(filesReceiver.Values - old(filesReceiver.Values))
      ensures State() == old(State())[name := old(Lookup(State(), name))]
    {
      if name !in filesReceiver {
        f := new HxFile();
        filesReceiver := filesReceiver[name := f];
      }
      f := filesReceiver[name];
    }

    /** The two calls on the entry: metadata first, then the packet. */
    method Deliver(name: bytes, f: HxFile, file: M.File, opens: bool, disk: Disk) returns (ok: bool, thrown: bool)
      requires Valid() && name in filesReceiver && filesReceiver[name] == f && file.fileName == name
      modifies f, disk
      ensures filesReceiver == old(filesReceiver)
      ensures var mine := Settled(old(f.Value()), old(file.Value()));
              var (e, w) := Receive(mine, old(file.packetNum), old(file.content), opens);
              && State() == old(State())[name := e] && ok == w.Written? && thrown == w.Thrown?
              && disk.log == old(disk.log) + ToSeq(w)
    {
      hide Receive, SetFileInfo;
      f.SetInfo(file.mapName, name, file.packetTotal, file.md5);
      ok, thrown := f.ReceivePacket(file.packetNum, file.content, opens, disk);
    }

    method Erase(name: bytes)
      requires Valid()
      modifies this
      ensures Valid() && State() == old(State()) - {name}
      ensures filesReceiver.Values <= old(filesReceiver.Values)
    {
      filesReceiver := filesReceiver - {name};
    }

    /** An exception passes by the erasing. */
    method OnUpload(file: M.File, opens: bool, disk: Disk) returns (thrown: bool)
      requires Valid()
      modifies this, filesReceiver.Values, disk
      ensures Valid() && fresh(filesReceiver.Values - old(filesReceiver.Values))
      ensures var (files, w) := Step(old(State()), old(file.Value()), opens);
              State() == files && disk.log == old(disk.log) + ToSeq(w) && thrown == w.Thrown?
    {
      hide Receive, Settled, State, Lookup;
      var name := file.fileName;
      ghost var before, p := State(), file.Value();
      ghost var mine := Lookup(before, name);
      ghost var (e, w) := Receive(Settled(mine, p), file.packetNum, file.content, opens);
      var f := At(name);
      EntryValue(name, f);
      assert f.Value() == mine;
      var succeeded;
      succeeded, thrown := Deliver(name, f, file, opens, disk);
      UpdateThenErase(before, name, mine, e);
      if succeeded { Erase(name); }
    }

    lemma EntryValue(name: bytes, f: HxFile)
      requires name in filesReceiver && filesReceiver[name] == f
      ensures name in State() && State()[name] == f.Value()
    {
    }

    /**
     The message handler for one package off the stream. Whether parsing succeeded is ignored, so
     what a parse stopped by bad text has left is acted on like any other message. Replies are
     written at the end, after anything that can throw.
     */
    method OnMessage(package: bytes, store: Store, opens: bool, disk: Disk)
      returns (replies: seq<bytes>, thrown: bool, ghost m: P.Message)
      requires Valid() && |package| >= HEAD
      modifies this, filesReceiver.Values, disk
      ensures Valid() && fresh(filesReceiver.Values - old(filesReceiver.Values))
      ensures var o := P.ConsumeMessage(P.EMPTY, package[HEAD..]); !o.Unreadable? ==> m == o.value
      ensures var e := Handle(store, old(State()), m, opens);
              && State() == e.files && disk.log == old(disk.log) + ToSeq(e.verdict)
              && replies == e.replies && thrown == e.verdict.Thrown?
    {
      hide P.ParseMessage, P.ConsumeMessage, Step, State, Body, Frame, AllConvert;
      var message := new M.Message();
      var ok := message.ParseFromString(package[HEAD..]);
      m := message.Value();
      replies, thrown := [], false;
      if message.typ == TYPE_MAPLIST {
        var reply := OnReceiveMapRequest();
        replies := [reply];
      } else if message.typ == TYPE_FILE {
        if message.oneofCase == 3 {
          var items := message.itemlist.items;
          if items != [] {
            replies, thrown := OnReceiveDownloadMapRequest(store, items[0], Requested(items));
          }
        } else if message.oneofCase == 5 {
          thrown := OnUpload(message.file, opens, disk);
        }
      }
      assert disk.log == old(disk.log) ==> disk.log == old(disk.log) + [];
    }
  }

  method OnReceiveMapRequest() returns (reply: bytes)
    ensures reply == Frame(Body(MAP_LIST_MESSAGE))
  {
    var list := new M.Itemlist();
    for i := 0 to 4
      invariant list.items == MAP_LIST[..i] && list.unknown == []
    {
      list.items := list.items + [MAP_LIST[i]];
    }
    var message := new M.Message();
    message.typ := TYPE_MAPLIST;
    var payload := message.MutableItemlist();
    payload.CopyFrom(list);
    assert MAP_LIST[..4] == MAP_LIST;
    assert message.Value() == MAP_LIST_MESSAGE;
    var ok, data := message.SerializeToString();
    if !ok { data := []; }
    var stream := ToBigEndianByteStream(data);
    reply := stream[..];
  }

  /** The vector is given up when splitting a file throws. */
  method OnReceiveDownloadMapRequest(store: Store, mapName: bytes, fileList: seq<bytes>)
    returns (sendVector: seq<bytes>, thrown: bool)
    ensures thrown == !AllConvert(mapName, fileList)
    ensures sendVector == if thrown then [] else Frames(Bodies(DownloadPackets(store, mapName, fileList)))
  {
    hide PacketsOf, Bodies, Frames, DownloadPackets, PacketsFor, Converts;
    DownloadNothing(store, mapName);
    sendVector := [];
    for i := 0 to |fileList|
      invariant forall j :: 0 <= j < i ==> Converts(mapName, fileList[j])
      invariant sendVector == Frames(Bodies(DownloadPackets(store, mapName, fileList[..i])))
    {
      sendVector, thrown := SendFile(store, mapName, fileList[i], sendVector);
      if thrown { return [], true; }
      DownloadMore(store, mapName, fileList, i);
    }
    assert fileList[..|fileList|] == fileList;
    return sendVector, false;
  }

  method SendFile(store: Store, mapName: bytes, name: bytes, sendVector: seq<bytes>)
    returns (out: seq<bytes>, thrown: bool)
    ensures thrown == !Converts(mapName, name)
    ensures !thrown ==> out == sendVector + Frames(Bodies(PacketsFor(store, mapName, name)))
  {
    hide PacketsOf, Bodies, Frames, PacketsFor, Converts;
    var splitFile := new HxFile();
    splitFile.SetInfo(mapName, name, 0, []);
    out, thrown := splitFile.SplitToVector(Fetch(store, mapName, name), sendVector);
    FramesFor(store, mapName, name);
  }

  /** The frames of one file, as splitting it gives them. */
  lemma FramesFor(store: Store, mapName: bytes, name: bytes)
    ensures Frames(Bodies(PacketsFor(store, mapName, name))) ==
            var file := Fetch(store, mapName, name);
            if file.None? then [] else Frames(Bodies(PacketsOf(Upload(mapName, name, file.value))))
  {
    hide PacketsOf, Frame, Body;
  }

  lemma DownloadMore(store: Store, mapName: bytes, names: seq<bytes>, i: nat)
    requires i < |names|
    ensures Frames(Bodies(DownloadPackets(store, mapName, names[..i + 1]))) ==
            Frames(Bodies(DownloadPackets(store, mapName, names[..i])))
            + Frames(Bodies(PacketsFor(store, mapName, names[i])))
  {
    hide DownloadPackets, PacketsFor, Frames, Bodies;
    assert names[..i] + [names[i]] == names[..i + 1];
    DownloadSnoc(store, mapName, names[..i], names[i]);
    PacketsConcat(DownloadPackets(store, mapName, names[..i]), PacketsFor(store, mapName, names[i]));
  }

  lemma DownloadNothing(store: Store, mapName: bytes)
    ensures Frames(Bodies(DownloadPackets(store, mapName, []))) == []
    ensures Frames(Bodies([])) == []
  {
  }

  lemma PacketsConcat(a: seq<P.Body>, b: seq<P.Body>)
    requires (forall i :: 0 <= i < |a| ==> a[i].File?) && forall i :: 0 <= i < |b| ==> b[i].File?
    ensures Frames(Bodies(a + b)) == Frames(Bodies(a)) + Frames(Bodies(b)) && a + [] == a == [] + a
    ensures Frames(Bodies([])) == []
  {
    hide Body, Frame;
  }

  lemma {:induction false} DownloadSnoc(store: Store, mapName: bytes, names: seq<bytes>, name: bytes)
    ensures DownloadPackets(store, mapName, names + [name]) ==
            DownloadPackets(store, mapName, names) + PacketsFor(store, mapName, name)
  {
    hide PacketsFor;
    if names == [] {
      assert [name][1..] == [];
      assert [] + [name] == [name];
    } else {
      DownloadSnoc(store, mapName, names[1..], name);
      assert (names + [name])[1..] == names[1..] + [name];
      var first, rest := PacketsFor(store, mapName, names[0]), DownloadPackets(store, mapName, names[1..]);
      assert first + (rest + PacketsFor(store, mapName, name)) == first + rest + PacketsFor(store, mapName, name);
    }
  }

  lemma UpdateThenErase(files: Files, name: bytes, a: Entry, b: Entry)
    ensures files[name := a][name := b] == files[name := b]
    ensures files[name := a][name := b] - {name} == files - {name}
  {
  }
}
