/**
 What the server answers: the dispatch of a message, a download request from the bytes asked to
 the files written, and the map list.
 */
module DownloadLaws {
  import opened Wrappers
  import opened Bytes
  import P = Packet
  import E = EnvelopeLaws
  import W = Wire
  import V = Varint
  import F = FieldBytes
  import Utf8
  import opened Framing
  import opened FileTransfer
  import opened TransferLaws
  import opened MapServer
  import opened ServerLaws

  // ---- The dispatch ----

  /** What each type of message is answered by; any other, or one without its payload, by nothing. */
  lemma Dispatch(store: Store, files: Files, m: P.Message, opens: bool)
    ensures m.typ == 2 ==> Handle(store, files, m, opens) == Effect(files, Waiting, [Frame(Body(MAP_LIST_MESSAGE))])
    ensures m.typ == 4 && m.payload.Some? && m.payload.value.File? ==>
              var (files', verdict) := Step(files, m.payload.value, opens);
              Handle(store, files, m, opens) == Effect(files', verdict, [])
    ensures m.typ !in {2, 4} || (m.typ == 4 && (m.payload.None? || m.payload.value.Heartbeat? ||
                                                m.payload.value.Location? || m.payload.value.Status? ||
                                                (m.payload.value.Itemlist? && m.payload.value.items == []))) ==>
              Handle(store, files, m, opens) == Effect(files, Waiting, [])
  {
    hide Step, Body, Frame;
  }

  // ---- Which names a request asks for ----

  /** The items behind the first, each up to its first NUL. */
  lemma RequestedAre(items: seq<bytes>)
    requires items != []
    ensures |Requested(items)| == |items| - 1
    ensures forall i :: 1 <= i < |items| ==> Requested(items)[i - 1] == CStr(items[i])
    ensures (forall i :: 1 <= i < |items| ==> 0 !in items[i]) ==> Requested(items) == items[1..]
  {
    forall i | 1 <= i < |items| && 0 !in items[i] ensures CStr(items[i]) == items[i] {
      WholeCStr(items[i]);
    }
  }

  lemma WholeCStr(s: bytes)
    ensures 0 in s || CStr(s) == s
  {
    var r := CStr(s);
    if |r| < |s| { assert s[|r|] in s; }
  }

  /** The bytes a client sends for a request are read as that request. */
  lemma RequestRead(items: seq<bytes>)
    requires forall i :: 0 <= i < |items| ==> Utf8.Valid(items[i])
    requires |F.Items(items)| <= MAX_PACKAGE
    ensures var s := F.Items(items);
            P.ParseMessage(P.EMPTY, [8, 4, 26] + V.Encode(|s|) + s) ==
            Some(P.Message(4, Some(P.Itemlist(items, [])), []))
  {
    hide P.ParseMessage, P.Serialize, P.SerializeMessage, Utf8.Valid, F.Items, V.Encode, F.Int, P.WellFormedMessage;
    hide P.WellFormed;
    var m, s := P.Message(4, Some(P.Itemlist(items, [])), []), F.Items(items);
    F.BodyBytes(m.payload.value);
    assert s + [] == s;
    E.EmptyMessageWellFormed();
    ItemlistWellFormed(items);
    ItemsAccepted(items);
    F.EnvelopeIs(m);
    TypeFour();
    E.EnvelopeSize(m);
    E.RoundTripMessage(m);
    assert [8, 4] + ([26] + (V.Encode(|s|) + s)) + [] == [8, 4, 26] + V.Encode(|s|) + s;
  }

  lemma TypeFour()
    ensures F.Int(8, 4) == [8, 4]
  {
    F.OneByte(4);
  }

  lemma ItemlistWellFormed(items: seq<bytes>)
    ensures P.WellFormedMessage(P.Message(4, Some(P.Itemlist(items, [])), []))
  {
    assert W.Records([]) == Some([]);
  }

  lemma ItemsAccepted(items: seq<bytes>)
    requires forall i :: 0 <= i < |items| ==> Utf8.Valid(items[i])
    requires |F.Items(items)| <= MAX_PACKAGE
    ensures P.Accepted(P.Itemlist(items, []))
  {
    hide Utf8.Valid, F.Items, P.ItemFields, E.SizeOf;
    F.ItemsAre(items);
    forall i | 0 <= i < |items| ensures |items[i]| <= V.MAX_SIZE {
      OneItem(items, i);
      SizeIs(items);
    }
  }

  lemma SizeIs(items: seq<bytes>)
    ensures E.SizeOf(P.ItemFields(items)) == |W.EncodeAll(P.ItemFields(items))|
  {}

  // ---- What is sent for a request ----

  function WritesFor(store: Store, mapName: bytes, name: bytes): seq<Write> {
    match Fetch(store, mapName, name)
    case None => []
    case Some(content) => [Write(mapName, name, content)]
  }

  function DownloadWrites(store: Store, mapName: bytes, names: seq<bytes>): seq<Write> {
    if names == [] then [] else WritesFor(store, mapName, names[0]) + DownloadWrites(store, mapName, names[1..])
  }

  /** Files have names, and fewer than 2^31 packets. */
  ghost predicate Real(store: Store) {
    forall k :: k in store ==> k.1 != [] && Numbered(Upload(k.0, k.1, store[k]))
  }

  /** None of the names is being received already. */
  ghost predicate AllNew(mine: Files, names: seq<bytes>) {
    Keyed(mine) && forall i :: 0 <= i < |names| ==> names[i] !in mine
  }

  predicate AllText(names: seq<bytes>) { forall i :: 0 <= i < |names| ==> Utf8.Valid(names[i]) }

  lemma AllConvertIffText(mapName: bytes, names: seq<bytes>)
    ensures AllConvert(mapName, names) <==> names == [] || (Utf8.Valid(mapName) && AllText(names))
  {
    hide Utf8.Valid, Converts;
    forall i | 0 <= i < |names|
      ensures Converts(mapName, names[i]) <==> Utf8.Valid(mapName) && Utf8.Valid(names[i])
    {
      ConvertsIffText([], mapName, names[i]);
    }
    if names != [] && AllConvert(mapName, names) { assert Converts(mapName, names[0]); }
  }

  /** A request throws exactly if it names a file and the map's name or some file's is not text. */
  lemma RequestThrows(store: Store, files: Files, m: P.Message, opens: bool)
    requires m.typ == 4 && m.payload.Some? && m.payload.value.Itemlist? && m.payload.value.items != []
    ensures var items := m.payload.value.items;
            Handle(store, files, m, opens).verdict.Thrown? <==>
            |items| > 1 && !(Utf8.Valid(items[0]) && forall i :: 1 <= i < |items| ==> Utf8.Valid(CStr(items[i])))
  {
    hide Utf8.Valid, AllConvert, CStr, Requested, DownloadPackets, Frames, Bodies;
    var items := m.payload.value.items;
    RequestedAre(items);
    AllConvertIffText(items[0], Requested(items));
    assert forall i :: 0 <= i < |items| - 1 ==> Requested(items)[i] == CStr(items[i + 1]);
  }

  /** An item list stopped at a bad last item is answered by nothing, not even the files before it. */
  lemma BadLastItem(store: Store, files: Files, items: seq<bytes>, unknown: bytes, kept: bytes, opens: bool)
    requires |items| >= 2 && !Utf8.Valid(CStr(items[|items| - 1]))
    ensures Handle(store, files, P.Message(TYPE_FILE, Some(P.Itemlist(items, unknown)), kept), opens) ==
            Effect(files, Thrown, [])
  {
    hide Utf8.Valid, Converts, CStr;
    var names := Requested(items);
    assert names[|names| - 1] == CStr(items[|items| - 1]);
    AllConvertIffText(items[0], names);
  }

  lemma CStrIsText(s: bytes)
    requires Utf8.Valid(s)
    ensures Utf8.Valid(CStr(s))
  {
    hide Utf8.Valid;
    var r := CStr(s);
    if |r| < |s| {
      assert s == r + [0] + s[|r| + 1..];
      Utf8.Separated(r, 0, s[|r| + 1..]);
    } else {
      assert r == s;
    }
  }

  /** Two items of a list are no longer together than the list written. */
  lemma {:induction false} ItemsAtLeast(items: seq<bytes>, i: nat, j: nat)
    requires i < j < |items|
    ensures |items[i]| <= E.SizeOf(P.ItemFields(items[..j]))
    ensures |items[i]| + |items[j]| <= E.SizeOf(P.ItemFields(items[..j + 1])) <= E.SizeOf(P.ItemFields(items))
    decreases |items|
  {
    hide E.SizeOf, P.ItemFields, W.EncodeRecord;
    var init, last := items[..|items| - 1], items[|items| - 1];
    E.ItemsSnoc(init, last);
    RecordAtLeast(W.Delimited(1, last));
    assert init + [last] == items;
    if j < |init| {
      ItemsAtLeast(init, i, j);
      assert init[..j] == items[..j] && init[..j + 1] == items[..j + 1];
    } else {
      assert items[..j] == init && items[..j + 1] == items;
      OneItem(init, i);
    }
  }

  lemma {:induction false} OneItem(items: seq<bytes>, i: nat)
    requires i < |items|
    ensures |items[i]| <= E.SizeOf(P.ItemFields(items))
    decreases |items|
  {
    hide E.SizeOf, P.ItemFields, W.EncodeRecord;
    var init, last := items[..|items| - 1], items[|items| - 1];
    E.ItemsSnoc(init, last);
    RecordAtLeast(W.Delimited(1, last));
    assert init + [last] == items;
    if i == |init| {
    } else {
      OneItem(init, i);
    }
  }

  /** A request that came in a package and parsed: its names are text, and short. */
  lemma RequestNames(package: bytes, m: P.Message)
    requires HEAD <= |package| <= MAX_PACKAGE && P.ParseMessage(P.EMPTY, package[HEAD..]) == Some(m)
    requires m.payload.Some? && m.payload.value.Itemlist? && m.payload.value.items != []
    ensures var items := m.payload.value.items;
            && Utf8.Valid(items[0])
            && forall i :: 1 <= i < |items| ==>
                 Utf8.Valid(CStr(items[i])) && |items[0]| + |CStr(items[i])| <= MAX_PACKAGE
  {
    hide P.ParseMessage, P.WellFormed, P.WellFormedMessage, Utf8.Valid, E.SizeOf, P.ItemFields, P.Serialize, CStr;
    var items := m.payload.value.items;
    E.EmptyMessageWellFormed();
    E.ParseMessageKeeps(P.EMPTY, package[HEAD..]);
    assert P.Accepted(m.payload.value);
    E.ParseMessageWeight(P.EMPTY, package[HEAD..]);
    E.ItemlistSizeIs(m.payload.value);
    forall i | 1 <= i < |items|
      ensures Utf8.Valid(CStr(items[i])) && |items[0]| + |CStr(items[i])| <= MAX_PACKAGE
    {
      CStrIsText(items[i]);
      ItemsAtLeast(items, 0, i);
      assert items[..|items|] == items;
    }
  }

  /** The packets of a download carry the request's map and one of its names. */
  lemma {:induction false} DownloadCompact(store: Store, mapName: bytes, names: seq<bytes>)
    requires Real(store) && forall i :: 0 <= i < |names| ==> |mapName| + |names[i]| <= MAX_PACKAGE
    ensures forall p :: p in DownloadPackets(store, mapName, names) ==>
              p.File? && Compact(p) && p.mapName == mapName && p.fileName in names
    decreases |names|
  {
    hide PacketsOf, Compact;
    if names == [] {
    } else {
      DownloadCompact(store, mapName, names[1..]);
      if (mapName, names[0]) in store { AllCompact(Upload(mapName, names[0], store[(mapName, names[0])])); }
    }
  }

  /**
   The packets of a download up to a place: the files complete by then, in request order. All of
   them exactly if that is the end.
   */
  lemma {:induction false} DownloadCut(store: Store, mine: Files, mapName: bytes, names: seq<bytes>, k: nat)
    requires Real(store) && AllNew(mine, names) && Utf8.Valid(mapName) && AllText(names)
    requires k <= |DownloadPackets(store, mapName, names)|
    ensures var r := Run(mine, Opened(DownloadPackets(store, mapName, names)[..k]));
            var all := DownloadWrites(store, mapName, names);
            if k < |DownloadPackets(store, mapName, names)| then r.1 < all else r == (mine, all)
    decreases |names|
  {
    hide PacketsOf, Run, Utf8.Valid, Opened;
    if names == [] {
      RunNone(mine);
      assert Opened([]) == [];
    } else {
      var rest := DownloadPackets(store, mapName, names[1..]);
      assert forall i :: 0 <= i < |names[1..]| ==> names[1..][i] == names[i + 1];
      if (mapName, names[0]) in store {
        var u := Upload(mapName, names[0], store[(mapName, names[0])]);
        if k < |PacketsOf(u)| {
          assert (PacketsOf(u) + rest)[..k] == PacketsOf(u)[..k];
          CutRun(mine, u, k);
        } else {
          DownloadCut(store, mine, mapName, names[1..], k - |PacketsOf(u)|);
          RunThrough(mine, u, rest, k - |PacketsOf(u)|);
          assert (PacketsOf(u) + rest)[..k] == PacketsOf(u) + rest[..k - |PacketsOf(u)|];
        }
      } else {
        assert [] + rest == rest;
        DownloadCut(store, mine, mapName, names[1..], k);
        var none: seq<Write> := [];
        assert none + DownloadWrites(store, mapName, names[1..]) == DownloadWrites(store, mapName, names[1..]);
      }
    }
  }

  /** A whole file and some packets behind it. */
  lemma RunThrough(mine: Files, u: Upload, rest: seq<P.Body>, k: nat)
    requires Numbered(u) && u.fileName != [] && Unstarted(mine, u)
    requires Utf8.Valid(u.mapName) && Utf8.Valid(u.fileName)
    requires k <= |rest| && forall i :: 0 <= i < |rest| ==> rest[i].File?
    ensures var (files, ws) := Run(mine, Opened(rest[..k]));
            Run(mine, Opened(PacketsOf(u) + rest[..k])) == (files, [Entire(u)] + ws)
  {
    hide PacketsOf, Run, Utf8.Valid, Opened;
    CutRun(mine, u, |PacketsOf(u)|);
    assert PacketsOf(u)[..|PacketsOf(u)|] == PacketsOf(u);
    RunAppend(mine, Opened(PacketsOf(u)), Opened(rest[..k]));
    assert Opened(PacketsOf(u) + rest[..k]) == Opened(PacketsOf(u)) + Opened(rest[..k]);
  }

  /** The outcome in terms of the names and the packets sent. */
  lemma NamesOutcome(mapName: bytes, names: seq<bytes>, store: Store, chunks: seq<bytes>, peer: Store, mine: Files)
    requires Real(store) && AllNew(mine, names) && Utf8.Valid(mapName) && AllText(names)
    requires forall i :: 0 <= i < |names| ==> |mapName| + |names[i]| <= MAX_PACKAGE
    requires Concat(chunks) == Concat(Frames(Bodies(DownloadPackets(store, mapName, names))))
    ensures var all, r := DownloadWrites(store, mapName, names), Receiver(peer, mine, chunks);
            && r.Some? && !r.value.thrown && r.value.replies == [] && r.value.writes <= all
            && (r.value.writes == all <==> AllWithin(DownloadPackets(store, mapName, names)))
            && (r.value.writes == all ==> r.value.files == mine)
  {
    hide Receiver, Frame, Body, Within, Utf8.Valid, Run, Opened, Compact, DownloadPackets, DownloadWrites;
    var ps := DownloadPackets(store, mapName, names);
    DownloadCompact(store, mapName, names);
    var k := FirstOver(ps);
    assert k == |ps| ==> ps[..k] == ps;
    assert k < |ps| ==> !AllWithin(ps);
    forall i | 0 <= i < |ps| ensures Utf8.Valid(ps[i].fileName) && ps[i].fileName !in mine {
      var j :| 0 <= j < |names| && names[j] == ps[i].fileName;
    }
    ServedUpTo(peer, mine, ps, k, chunks);
    DownloadCut(store, mine, mapName, names, k);
  }

  lemma NothingAsked(store: Store, mapName: bytes)
    ensures DownloadPackets(store, mapName, []) == [] && DownloadWrites(store, mapName, []) == []
  {}

  lemma NothingReceived(store: Store, files: Files, chunks: seq<bytes>)
    requires Concat(chunks) == []
    ensures Receiver(store, files, chunks) == Some(Service(files, [], [], false))
  {
    hide FeedAll;
    WholeDelivered([], chunks);
    ServeSilent(store, files, []);
  }

  // ---- Download, end to end ----

  /** The files an item list asks for: those of the names behind the first item that are in the store. */
  function Answer(store: Store, mapName: bytes, names: seq<bytes>): seq<Write> {
    if names == [] then []
    else
      var name := CStr(names[0]);
      (if (mapName, name) in store then [Write(mapName, name, store[(mapName, name)])] else [])
      + Answer(store, mapName, names[1..])
  }

  /** Exactly those, and in the order asked. */
  lemma {:induction false} AnswerIs(store: Store, mapName: bytes, names: seq<bytes>, w: Write)
    ensures w in Answer(store, mapName, names) <==>
            exists i :: 0 <= i < |names| && (mapName, CStr(names[i])) in store
                        && w == Write(mapName, CStr(names[i]), store[(mapName, CStr(names[i]))])
    ensures (forall i :: 0 <= i < |names| ==> (mapName, CStr(names[i])) in store) ==>
              && |Answer(store, mapName, names)| == |names|
              && forall i :: 0 <= i < |names| ==>
                   Answer(store, mapName, names)[i] == Write(mapName, CStr(names[i]), store[(mapName, CStr(names[i]))])
    decreases |names|
  {
    hide CStr;
    if names == [] {
    } else {
      AnswerIs(store, mapName, names[1..], w);
      assert names == [names[0]] + names[1..];
    }
  }

  /** Every packet of the file fits a package. */
  ghost predicate Fits(w: Write) { AllWithin(PacketsOf(Upload(w.mapName, w.fileName, w.data))) }

  ghost predicate AllFit(ws: seq<Write>) { forall i :: 0 <= i < |ws| ==> Fits(ws[i]) }

  lemma {:induction false} AnswerIsDownload(store: Store, mapName: bytes, items: seq<bytes>, names: seq<bytes>)
    requires |names| == |items| && forall i :: 0 <= i < |names| ==> names[i] == CStr(items[i])
    ensures DownloadWrites(store, mapName, names) == Answer(store, mapName, items)
    ensures AllWithin(DownloadPackets(store, mapName, names)) <==> AllFit(Answer(store, mapName, items))
    decreases |items|
  {
    hide CStr, PacketsFor, WritesFor, AllWithin, AllFit;
    if items == [] {
      NothingAsked(store, mapName);
      NothingFits();
    } else {
      AnswerIsDownload(store, mapName, items[1..], names[1..]);
      var first, rest := WritesFor(store, mapName, names[0]), Answer(store, mapName, items[1..]);
      OneFits(store, mapName, names[0]);
      AllFitSplit(first, rest);
      AllWithinSplit(PacketsFor(store, mapName, names[0]), DownloadPackets(store, mapName, names[1..]));
    }
  }

  lemma OneFits(store: Store, mapName: bytes, name: bytes)
    ensures AllWithin(PacketsFor(store, mapName, name)) <==> AllFit(WritesFor(store, mapName, name))
    ensures WritesFor(store, mapName, name) ==
            if (mapName, name) in store then [Write(mapName, name, store[(mapName, name)])] else []
  {
    hide PacketsOf, Within;
    var ws := WritesFor(store, mapName, name);
    if ws != [] { assert AllFit(ws) <==> Fits(ws[0]); }
  }

  lemma AllFitSplit(a: seq<Write>, b: seq<Write>)
    ensures AllFit(a + b) <==> AllFit(a) && AllFit(b)
  {
    hide Fits;
    assert forall i :: 0 <= i < |a| ==> (a + b)[i] == a[i];
    assert forall i :: 0 <= i < |b| ==> (a + b)[|a| + i] == b[i];
  }

  lemma AllWithinSplit(a: seq<P.Body>, b: seq<P.Body>)
    ensures AllWithin(a + b) <==> AllWithin(a) && AllWithin(b)
  {
    hide Within;
    assert forall i :: 0 <= i < |a| ==> (a + b)[i] == a[i];
    assert forall i :: 0 <= i < |b| ==> (a + b)[|a| + i] == b[i];
  }

  /**
   What becomes of a request whose names are short enough for a package. It throws, and nothing is
   sent; or a peer that runs the same receiver on the replies, whatever pieces they arrive in, ends
   up with the files complete before the first packet that does not fit. These are all of the
   requested files that exist, in request order, exactly if every packet fits; the peer is then
   otherwise as it was.
   */
  lemma DownloadOutcome(store: Store, files: Files, m: P.Message, opens: bool, chunks: seq<bytes>, peer: Store,
                        mine: Files)
    requires m.typ == 4 && m.payload.Some? && m.payload.value.Itemlist? && m.payload.value.items != []
    requires var items := m.payload.value.items;
             forall i :: 1 <= i < |items| ==> CStr(items[i]) !in mine && |items[0]| + |CStr(items[i])| <= 2097152
    requires Real(store) && Keyed(mine) && Concat(chunks) == Concat(Handle(store, files, m, opens).replies)
    ensures var items := m.payload.value.items;
            var all, r := Answer(store, items[0], items[1..]), Receiver(peer, mine, chunks);
            && r.Some? && !r.value.thrown && r.value.replies == []
            && if Handle(store, files, m, opens).verdict.Thrown? then r.value.writes == [] && r.value.files == mine
               else
                 && r.value.writes <= all && (r.value.writes == all <==> AllFit(all))
                 && (r.value.writes == all ==> r.value.files == mine)
  {
    hide Receiver, Frame, Body, Utf8.Valid, DownloadPackets, DownloadWrites, CStr, AllConvert, Answer;
    hide AllWithin, AllFit, Real;
    var items := m.payload.value.items;
    var names := Requested(items);
    RequestedAre(items);
    AllConvertIffText(items[0], names);
    forall i | 0 <= i < |names| ensures names[i] == CStr(items[i + 1]) == CStr(items[1..][i]) {
      assert names[i] == Requested(items)[(i + 1) - 1];
    }
    AnswerIsDownload(store, items[0], items[1..], names);
    if !AllConvert(items[0], names) || names == [] {
      NothingAsked(store, items[0]);
      NothingReceived(peer, mine, chunks);
      NothingFits();
    } else {
      NamesOutcome(items[0], names, store, chunks, peer, mine);
    }
  }

  lemma NothingFits()
    ensures AllFit([]) && AllWithin([]) && Frames(Bodies([])) == [] && Concat([]) == []
  {
    DownloadNothing(map[], []);
  }

  /**
   Download, end to end: a request that came in a package is answered, and whatever pieces the
   replies arrive in, a peer that runs the same receiver ends up with exactly the requested files
   that exist, in request order, and otherwise as it was, if every packet fits a package. If not,
   it gets the files before the first packet that does not.
   */
  lemma DownloadEndToEnd(store: Store, files: Files, package: bytes, request: P.Message, opens: bool,
                         chunks: seq<bytes>, peer: Store, mine: Files)
    requires HEAD <= |package| <= MAX_PACKAGE && P.ParseMessage(P.EMPTY, package[HEAD..]) == Some(request)
    requires request.typ == 4 && request.payload.Some? && request.payload.value.Itemlist?
    requires var items := request.payload.value.items;
             items != [] && forall i :: 1 <= i < |items| ==> CStr(items[i]) !in mine
    requires Real(store) && Keyed(mine) && Concat(chunks) == Concat(Handle(store, files, request, opens).replies)
    ensures !Handle(store, files, request, opens).verdict.Thrown?
    ensures var items := request.payload.value.items;
            var all, r := Answer(store, items[0], items[1..]), Receiver(peer, mine, chunks);
            && r.Some? && !r.value.thrown && r.value.writes <= all
            && (r.value.writes == all <==> AllFit(all))
            && (AllFit(all) ==> r.value == Service(mine, all, [], false))
  {
    hide Receiver, Utf8.Valid, AllFit, P.ParseMessage, Real, Answer, CStr, Handle;
    RequestNames(package, request);
    RequestThrows(store, files, request, opens);
    DownloadOutcome(store, files, request, opens, chunks, peer, mine);
  }

  // ---- The map list ----

  /** The message that lists the maps, byte by byte: its head, then its items. */
  const MAP_LIST_BYTES: bytes := [8, 2, 26, 35] + MAP_ITEMS_BYTES

  const MAP_ITEMS_BYTES: bytes :=
    [10, 3, 0x61, 0x61, 0x61, 10, 3, 0x63, 0x63, 0x63,
     10, 12, 0xE5, 0xB8, 0x83, 0xE9, 0xB2, 0x81, 0xE5, 0xA1, 0x9E, 0xE5, 0xB0, 0x94,
     10, 9, 0xE5, 0xB7, 0xA5, 0xE4, 0xBD, 0x9C, 0xE5, 0x8C, 0xBA]

  lemma MapListBytes()
    ensures P.SerializeMessage(MAP_LIST_MESSAGE) == Body(MAP_LIST_MESSAGE) == MAP_LIST_BYTES
    ensures |MAP_LIST_BYTES| == 39
  {
    hide P.Serialize, P.SerializeMessage, V.Encode, F.Int, F.Items;
    F.EnvelopeIs(MAP_LIST_MESSAGE);
    F.BodyBytes(MAP_LIST_MESSAGE.payload.value);
    MapListItems();
    F.OneByte(35);
    TypeTwo();
    MapListHead(MAP_ITEMS_BYTES);
  }

  lemma MapListHead(s: bytes)
    ensures [8, 2] + ([26] + ([35] + (s + []))) + [] == [8, 2, 26, 35] + s && s + [] == s
  {}

  lemma TypeTwo()
    ensures F.Int(8, 2) == [8, 2]
  {
    F.OneByte(2);
  }

  lemma MapListItems()
    ensures F.Items(MAP_LIST) == MAP_ITEMS_BYTES && |MAP_ITEMS_BYTES| == 35
  {
    hide V.Encode, F.Items;
    F.OneByte(9);
    F.OneByte(12);
    MapListStart();
    ItemsEnd(MAP_LIST[..2], MAP_LIST[2]);
    ItemsEnd(MAP_LIST[..3], MAP_LIST[3]);
    assert MAP_LIST[..3] == MAP_LIST[..2] + [MAP_LIST[2]] && MAP_LIST == MAP_LIST[..3] + [MAP_LIST[3]];
    FourPieces([10, 3, 0x61, 0x61, 0x61, 10, 3, 0x63, 0x63, 0x63], MAP_LIST[2], MAP_LIST[3]);
  }

  lemma FourPieces(start: bytes, c: bytes, d: bytes)
    requires c == MAP_LIST[2] && d == MAP_LIST[3] && start == [10, 3, 0x61, 0x61, 0x61, 10, 3, 0x63, 0x63, 0x63]
    ensures start + ([10] + [12] + c) + ([10] + [9] + d) == MAP_ITEMS_BYTES
  {}

  lemma MapListStart()
    ensures F.Items(MAP_LIST[..2]) == [10, 3, 0x61, 0x61, 0x61, 10, 3, 0x63, 0x63, 0x63]
  {
    hide V.Encode, F.Items;
    F.OneByte(3);
    NoneYet();
    ItemsEnd([], MAP_LIST[0]);
    ItemsEnd(MAP_LIST[..1], MAP_LIST[1]);
    assert MAP_LIST[..1] == [] + [MAP_LIST[0]] && MAP_LIST[..2] == MAP_LIST[..1] + [MAP_LIST[1]];
  }

  lemma ItemsEnd(items: seq<bytes>, s: bytes)
    ensures F.Items(items + [s]) == F.Items(items) + ([10] + V.Encode(|s|) + s)
  {
    assert (items + [s])[..|items|] == items;
  }

  lemma NoneYet()
    ensures F.Items([]) == []
  {}

  /** Asked with the two bytes of type 2, behind any header, the server sends that list. */
  lemma MapListServed(store: Store, files: Files, header: bytes, opens: bool)
    requires |header| == 8
    ensures Serve(store, files, [header + [8, 2]], [opens]) ==
            Some(Service(files, [], [[0x12, 0x34, 0x56, 0x78, 0, 0, 0, 39] + MAP_LIST_BYTES], false))
  {
    hide Serve, Frame, Body, P.SerializeMessage;
    MapListBytes();
    ListServed(store, files, header, opens, MAP_LIST_BYTES);
  }

  lemma ListServed(store: Store, files: Files, header: bytes, opens: bool, list: bytes)
    requires |header| == 8 && Body(MAP_LIST_MESSAGE) == list && |list| == 39
    ensures Serve(store, files, [header + [8, 2]], [opens]) ==
            Some(Service(files, [], [[0x12, 0x34, 0x56, 0x78, 0, 0, 0, 39] + list], false))
  {
    hide Serve, Handle, Frame, Body;
    TwoIsRead();
    HeaderBytes(list);
    var package := header + [8, 2];
    assert package[HEAD..] == [8, 2];
    Dispatch(store, files, P.Message(2, None, []), opens);
    OneReply(store, files, package, opens, P.Message(2, None, []), Frame(list));
  }

  lemma OneReply(store: Store, files: Files, package: bytes, opens: bool, m: P.Message, reply: bytes)
    requires |package| >= HEAD && P.ConsumeMessage(P.EMPTY, package[HEAD..]) == P.Done(m)
    requires Handle(store, files, m, opens) == Effect(files, Waiting, [reply])
    ensures Serve(store, files, [package], [opens]) == Some(Service(files, [], [reply], false))
  {
    hide P.ConsumeMessage, P.ParseMessage, Handle;
    assert [package][1..] == [] && [opens][1..] == [];
    var none: seq<Write> := [];
    assert none + none == none && [reply] + [] == [reply];
  }

  lemma TwoIsRead()
    ensures P.ConsumeMessage(P.EMPTY, [8, 2]) == P.Done(P.Message(2, None, []))
  {
    hide P.ConsumeMessage, P.ParseMessage;
    F.TypeRead(P.EMPTY, [2], [], 2);
    assert [8] + [2] + [] == [8, 2];
    AtTheEnd(P.Message(2, None, []));
  }

  lemma AtTheEnd(m: P.Message)
    ensures P.ConsumeMessage(m, []) == P.Done(m)
  {}

  /** The map list travels: its bytes parse back to the list. */
  lemma MapListRoundTrip()
    ensures P.ParseMessage(P.EMPTY, Body(MAP_LIST_MESSAGE)) == Some(MAP_LIST_MESSAGE)
  {
    hide P.ParseMessage, P.SerializeMessage, P.Serialize;
    MapListSize();
    E.EmptyMessageWellFormed();
    MapListIsText();
    E.EnvelopeSize(MAP_LIST_MESSAGE);
    E.RoundTripMessage(MAP_LIST_MESSAGE);
  }

  lemma MapListSize()
    ensures |P.Serialize(MAP_LIST_MESSAGE.payload.value)| == 35
  {
    hide P.Serialize, F.Items;
    F.BodyBytes(MAP_LIST_MESSAGE.payload.value);
    MapListItems();
  }

  lemma MapListIsText()
    ensures forall i :: 0 <= i < |MAP_LIST| ==> P.TextOk(MAP_LIST[i])
  {
    hide Utf8.Valid;
    Utf8.AsciiIsValid(MAP_LIST[0]);
    Utf8.AsciiIsValid(MAP_LIST[1]);
    FourCharacters(MAP_LIST[2]);
    ThreeCharacters(MAP_LIST[3]);
  }

  lemma FourCharacters(s: bytes)
    requires s == MAP_LIST[2]
    ensures Utf8.Valid(s)
  {
    hide Utf8.Valid;
    Utf8.ThreeBytes(s, 9);
    Utf8.ThreeBytes(s, 6);
    Utf8.ThreeBytes(s, 3);
    Utf8.ThreeBytes(s, 0);
    assert s[0..] == s;
  }

  lemma ThreeCharacters(s: bytes)
    requires s == MAP_LIST[3]
    ensures Utf8.Valid(s)
  {
    hide Utf8.Valid;
    Utf8.ThreeBytes(s, 6);
    Utf8.ThreeBytes(s, 3);
    Utf8.ThreeBytes(s, 0);
    assert s[0..] == s;
  }
}
