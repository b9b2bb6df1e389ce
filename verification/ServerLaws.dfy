/**
 The end-to-end laws of upload and download over a byte stream cut by the length-field rule, with
 the exact condition under which each succeeds.
 */
module ServerLaws {
  import opened Wrappers
  import opened Bytes
  import P = Packet
  import L = PacketLaws
  import E = EnvelopeLaws
  import M = PacketMessages
  import V = Varint
  import W = Wire
  import Utf8
  import opened Framing
  import opened FileTransfer
  import opened TransferLaws
  import opened MapServer

  // ---- What a connection does over its packages ----

  /** What handling a connection's packages leaves: entries, writes, replies, and whether it threw. */
  datatype Service = Service(files: Files, writes: seq<Write>, replies: seq<bytes>, thrown: bool)

  /**
   The packages of a stream, handled one after the other up to the first exception. None if one is
   shorter than its header or holds bytes that are no record.
   */
  function Serve(store: Store, files: Files, packages: seq<bytes>, opens: seq<bool>): Option<Service>
    requires |packages| == |opens|
    decreases |packages|
  {
    if packages == [] then Some(Service(files, [], [], false))
    else if |packages[0]| < HEAD then None
    else
      var o := P.ConsumeMessage(P.EMPTY, packages[0][HEAD..]);
      if o.Unreadable? then None
      else
        var e := Handle(store, files, o.value, opens[0]);
        if e.verdict.Thrown? then Some(Service(e.files, [], [], true))
        else
          match Serve(store, e.files, packages[1..], opens[1..])
          case None => None
          case Some(r) => Some(Service(r.files, ToSeq(e.verdict) + r.writes, e.replies + r.replies, r.thrown))
  }

  /** The packet's message fits a package. */
  predicate Within(p: P.Body) { HEAD + |P.SerializeMessage(Envelope(p))| <= MAX_PACKAGE }

  /** A packet that fits a package and whose names are text. */
  predicate CanTravel(p: P.Body) { p.File? && P.Accepted(p) && P.WellFormed(p) && Within(p) }

  lemma PacketTravels(p: P.Body)
    requires CanTravel(p)
    ensures Body(Envelope(p)) == P.SerializeMessage(Envelope(p)) && Deliverable(Body(Envelope(p)))
    ensures P.ConsumeMessage(P.EMPTY, Body(Envelope(p))) == P.Done(Envelope(p))
  {
    hide P.Accepted, P.Serialize, P.ParseMessage, P.ConsumeMessage;
    var m := Envelope(p);
    E.PayloadSize(m);
    E.EmptyMessageWellFormed();
    E.RoundTripMessage(m);
  }

  function PacketsIn(evs: seq<Event>): (ps: seq<P.Body>)
    ensures |ps| == |evs| && forall i :: 0 <= i < |ps| ==> ps[i] == evs[i].p
  {
    seq(|evs|, i requires 0 <= i < |evs| => evs[i].p)
  }

  function OpensIn(evs: seq<Event>): (os: seq<bool>)
    ensures |os| == |evs| && forall i :: 0 <= i < |os| ==> os[i] == evs[i].opens
  {
    seq(|evs|, i requires 0 <= i < |evs| => evs[i].opens)
  }

  /** The events a caller gets through: those up to the first that throws. */
  function Handled(files: Files, evs: seq<Event>): (r: seq<Event>)
    requires AllFiles(evs)
    ensures AllFiles(r)
    decreases |evs|
  {
    if evs == [] then []
    else
      var (files', w) := Step(files, evs[0].p, evs[0].opens);
      if w.Thrown? then [evs[0]] else [evs[0]] + Handled(files', evs[1..])
  }

  predicate Throws(files: Files, evs: seq<Event>)
    requires AllFiles(evs)
    decreases |evs|
  {
    evs != [] &&
    var (files', w) := Step(files, evs[0].p, evs[0].opens);
    w.Thrown? || Throws(files', evs[1..])
  }

  /** Framed packets, served, are a run of the receiver, up to the first that throws. */
  lemma {:induction false} ServeIsRun(store: Store, files: Files, evs: seq<Event>)
    requires AllFiles(evs) && forall i :: 0 <= i < |evs| ==> CanTravel(evs[i].p)
    ensures var (files', ws) := Run(files, Handled(files, evs));
            Serve(store, files, Frames(Bodies(PacketsIn(evs))), OpensIn(evs)) ==
            Some(Service(files', ws, [], Throws(files, evs)))
    decreases |evs|
  {
    hide Step, CanTravel, Frame, Body, P.ParseMessage, P.ConsumeMessage, Run;
    var none: seq<bytes> := [];
    assert none + none == none;
    RunNone(files);
    if evs == [] {
    } else {
      var p, rest := evs[0].p, evs[1..];
      PacketTravels(p);
      var (files', verdict) := Step(files, p, evs[0].opens);
      assert Handle(store, files, Envelope(p), evs[0].opens) == Effect(files', verdict, none);
      var fs := Frames(Bodies(PacketsIn(evs)));
      assert fs[0] == Frame(Body(Envelope(p)));
      assert fs[1..] == Frames(Bodies(PacketsIn(rest)));
      assert OpensIn(evs)[1..] == OpensIn(rest);
      if verdict.Thrown? {
        RunCons(files, evs[0], []);
        RunNone(files');
        assert [evs[0]] + [] == [evs[0]];
      } else {
        ServeIsRun(store, files', rest);
        RunCons(files, evs[0], Handled(files', rest));
      }
    }
  }

  /** No event meets an entry whose map name is not text. */
  ghost predicate TextMaps(files: Files, evs: seq<Event>)
    requires AllFiles(evs)
  {
    && Keyed(files)
    && forall i :: 0 <= i < |evs| && evs[i].p.fileName in files ==> Utf8.Valid(files[evs[i].p.fileName].mapName)
  }

  /** A packet whose names are text never makes the handler throw. */
  lemma TextStep(files: Files, evs: seq<Event>)
    requires AllFiles(evs) && evs != [] && TextMaps(files, evs)
    requires Utf8.Valid(evs[0].p.mapName) && Utf8.Valid(evs[0].p.fileName)
    ensures var (files', w) := Step(files, evs[0].p, evs[0].opens); !w.Thrown? && TextMaps(files', evs[1..])
  {
    hide Utf8.Valid, Converts, Enough, Assembled;
    var p := evs[0].p;
    var e := Settled(Lookup(files, p.fileName), p);
    assert e.fileName == p.fileName;
    ConvertsIffText([], e.mapName, e.fileName);
    var files' := Step(files, p, evs[0].opens).0;
    forall i | 0 <= i < |evs[1..]| && evs[1..][i].p.fileName in files'
      ensures Utf8.Valid(files'[evs[1..][i].p.fileName].mapName)
    {
      assert evs[1..][i] == evs[i + 1];
    }
  }

  lemma {:induction false} TextNeverThrows(files: Files, evs: seq<Event>)
    requires AllFiles(evs) && TextMaps(files, evs)
    requires forall i :: 0 <= i < |evs| ==> Utf8.Valid(evs[i].p.mapName) && Utf8.Valid(evs[i].p.fileName)
    ensures Handled(files, evs) == evs && !Throws(files, evs)
    decreases |evs|
  {
    hide Step, TextMaps, Utf8.Valid;
    if evs == [] {
    } else {
      TextStep(files, evs);
      TextNeverThrows(Step(files, evs[0].p, evs[0].opens).0, evs[1..]);
    }
  }

  // ---- End to end ----

  /** The packets as they arrive, every open succeeding. */
  function Opened(ps: seq<P.Body>): (evs: seq<Event>)
    requires forall i :: 0 <= i < |ps| ==> ps[i].File?
    ensures |evs| == |ps| && AllFiles(evs)
    ensures forall i :: 0 <= i < |evs| ==> evs[i] == Event(ps[i], true)
  {
    seq(|ps|, i requires 0 <= i < |ps| => Event(ps[i], true))
  }

  lemma OpenedBack(ps: seq<P.Body>)
    requires forall i :: 0 <= i < |ps| ==> ps[i].File?
    ensures PacketsIn(Opened(ps)) == ps && OpensIn(Opened(ps)) == AllTrue(|ps|)
  {}

  lemma InOrderIsEachOnce(u: Upload)
    ensures EachOnce(Opened(PacketsOf(u)), u)
  {
    hide PacketsOf, Opened;
    var evs, ps := Opened(PacketsOf(u)), PacketsOf(u);
    assert AllPacketsOf(evs, u) by {
      forall i | 0 <= i < |evs| ensures evs[i].opens && IsPacketOf(evs[i].p, u) {
        assert 0 <= i < |ps| && ps[i] == evs[i].p;
      }
    }
    forall j | 0 <= j < |ps| ensures Arrives(evs, ps[j]) { assert evs[j].p == ps[j]; }
  }

  ghost predicate AllTravel(ps: seq<P.Body>) { forall i :: 0 <= i < |ps| ==> CanTravel(ps[i]) }

  function AllTrue(n: nat): (os: seq<bool>)
    ensures |os| == n && forall i :: 0 <= i < n ==> os[i]
  {
    seq(n, _ => true)
  }

  /** What a receiver does with everything a byte stream delivers, every open succeeding. */
  function Receiver(store: Store, files: Files, chunks: seq<bytes>): Option<Service> {
    var packages := FeedAll(Open([]), chunks).0;
    Serve(store, files, packages, AllTrue(|packages|))
  }

  lemma FramesDelivered(ps: seq<P.Body>, chunks: seq<bytes>)
    requires AllTravel(ps) && Concat(chunks) == Concat(Frames(Bodies(ps)))
    ensures FeedAll(Open([]), chunks) == (Frames(Bodies(ps)), Open([]))
  {
    hide Frame, Body, CanTravel, FeedAll;
    forall i | 0 <= i < |ps| ensures Deliverable(Bodies(ps)[i]) { PacketTravels(ps[i]); }
    WholeDelivered(Bodies(ps), chunks);
  }

  lemma WholeDelivered(ds: seq<bytes>, chunks: seq<bytes>)
    requires (forall i :: 0 <= i < |ds| ==> Deliverable(ds[i])) && Concat(chunks) == Concat(Frames(ds))
    ensures FeedAll(Open([]), chunks) == (Frames(ds), Open([]))
  {
    hide Frame, FeedAll;
    CutOfFrames(ds, []);
    ChunksDoNotMatter([], chunks);
    assert [] + Concat(chunks) == Concat(Frames(ds)) + [];
    assert Frames(ds) + [] == Frames(ds);
  }

  lemma PartDelivered(ds: seq<bytes>, k: nat, chunks: seq<bytes>)
    requires k < |ds| && !Deliverable(ds[k]) && |ds[k]| < 0x8000_0000
    requires (forall i :: 0 <= i < k ==> Deliverable(ds[i])) && Concat(chunks) == Concat(Frames(ds))
    ensures FeedAll(Open([]), chunks) == (Frames(ds[..k]), Dropped)
  {
    hide Frame, FeedAll;
    CutStopsAt(ds, k, []);
    ChunksDoNotMatter([], chunks);
    assert [] + Concat(chunks) == Concat(Frames(ds)) + [];
  }

  /** Any delivered sequence of packets is a run of the receiver, up to the first that throws. */
  lemma StreamIsRun(store: Store, files: Files, evs: seq<Event>, chunks: seq<bytes>)
    requires AllFiles(evs) && AllTravel(PacketsIn(evs)) && (forall i :: 0 <= i < |evs| ==> evs[i].opens)
    requires Concat(chunks) == Concat(Frames(Bodies(PacketsIn(evs))))
    ensures var (files', ws) := Run(files, Handled(files, evs));
            Receiver(store, files, chunks) == Some(Service(files', ws, [], Throws(files, evs)))
  {
    hide FeedAll, Serve, Run, CanTravel, Frame, Body, Handled, Throws;
    FramesDelivered(PacketsIn(evs), chunks);
    assert forall i :: 0 <= i < |evs| ==> evs[i].p == PacketsIn(evs)[i];
    ServeIsRun(store, files, evs);
    assert AllTrue(|evs|) == OpensIn(evs);
  }

  /**
   Upload, end to end: split, serialise, frame, send as one stream, receive in any pieces, cut,
   parse, collect. The original bytes are written once, and the receiver is as it was before.
   */
  lemma UploadEndToEnd(store: Store, files: Files, u: Upload, chunks: seq<bytes>)
    requires Numbered(u) && u.fileName != [] && Unstarted(files, u) && AllTravel(PacketsOf(u))
    requires Concat(chunks) == Concat(Frames(Bodies(PacketsOf(u))))
    ensures Receiver(store, files, chunks) == Some(Service(files, [Entire(u)], [], false))
  {
    hide PacketsOf, Receiver, CanTravel, Frame, Body, EachOnce, Opened, Saves, Handled, Throws, Utf8.Valid;
    var evs := Opened(PacketsOf(u));
    InOrderIsEachOnce(u);
    OpenedBack(PacketsOf(u));
    StreamIsRun(store, files, evs, chunks);
    forall i | 0 <= i < |evs|
      ensures Utf8.Valid(evs[i].p.mapName) && Utf8.Valid(evs[i].p.fileName) && evs[i].p.fileName == u.fileName
    {
      assert evs[i].p == PacketsOf(u)[i];
      TravelsIsText(evs[i].p);
    }
    TextNeverThrows(files, evs);
    TravelSaves(u);
    ExactlyOnce(files, u, evs);
  }

  lemma TravelsIsText(p: P.Body)
    requires CanTravel(p)
    ensures Utf8.Valid(p.mapName) && Utf8.Valid(p.fileName)
  {
    hide Utf8.Valid, P.WellFormed, Within;
  }

  lemma TravelSaves(u: Upload)
    requires CanTravel(PacketsOf(u)[0])
    ensures Saves(u)
  {
    hide Utf8.Valid, P.WellFormed, Within;
    ConvertsIffText([], u.mapName, u.fileName);
  }

  // ---- How large the packets are ----

  /** A packet of a split whose names could have come in one package. */
  predicate Compact(p: P.Body) { SmallPacket(p) && |p.mapName| + |p.fileName| <= MAX_PACKAGE }

  lemma PacketIsSmall(u: Upload, i: nat)
    requires Numbered(u) && i < |PacketsOf(u)|
    ensures var p := PacketsOf(u)[i];
            && p.File? && p.mapName == u.mapName && p.fileName == u.fileName
            && |p.content| <= PACKET_SIZE && p.md5 == [] && p.unknown == []
  {
    hide Chunks;
    ChunksAreSmall(u.content);
  }

  lemma SmallWellFormed(p: P.Body)
    requires p.File? && p.md5 == [] && p.unknown == [] && P.TextOk(p.mapName) && P.TextOk(p.fileName)
    requires |p.content| <= PACKET_SIZE
    ensures P.Accepted(p) && P.WellFormed(p)
  {
    hide Utf8.Valid, P.UnknownOk;
    L.EmptyIsWellFormed(P.FileKind);
    assert P.UnknownOk(P.FileKind, []) && Utf8.Valid([]);
  }

  lemma CompactTravels(p: P.Body)
    requires Compact(p) && Within(p) && Utf8.Valid(p.mapName) && Utf8.Valid(p.fileName)
    ensures CanTravel(p)
  {
    hide Utf8.Valid, Within, P.Accepted, P.WellFormed;
    SmallWellFormed(p);
  }

  lemma MessageAtMost(p: P.Body)
    requires SmallPacket(p) && |p.mapName| + |p.fileName| <= V.MAX_SIZE - 1300
    ensures |P.SerializeMessage(Envelope(p))| <= |p.mapName| + |p.fileName| + 1260
  {
    hide P.Serialize, P.SerializeMessage;
    PacketFits(p);
    E.EnvelopeSize(Envelope(p));
  }

  lemma MessageAtLeast(p: P.Body)
    requires p.File?
    ensures |P.SerializeMessage(Envelope(p))| >= |p.mapName| + |p.fileName|
  {
    hide W.EncodeRecord, W.EncodeAll, P.TextField, P.IntField, P.Serialize;
    M.FileBytes(p);
    TextAtLeast(1, p.mapName);
    TextAtLeast(2, p.fileName);
    M.EnvelopeBytes(Envelope(p));
    M.EncodeAllOne(W.Delimited(5, P.Serialize(p)));
    RecordAtLeast(W.Delimited(5, P.Serialize(p)));
  }

  lemma TextAtLeast(num: nat, s: bytes)
    ensures |W.EncodeAll(P.TextField(num, s))| >= |s|
  {
    hide W.EncodeRecord;
    if s != [] {
      M.EncodeAllOne(W.Delimited(num, s));
      RecordAtLeast(W.Delimited(num, s));
    }
  }

  lemma RecordAtLeast(r: W.Record)
    requires r.Delimited?
    ensures |W.EncodeRecord(r)| >= |r.s|
  {}

  /** Names of up to two megabytes less thirteen hundred bytes always fit. */
  lemma ShortNamesTravel(u: Upload)
    requires Numbered(u) && Utf8.Valid(u.mapName) && Utf8.Valid(u.fileName)
    requires |u.mapName| + |u.fileName| <= MAX_PACKAGE - 1300
    ensures AllTravel(PacketsOf(u))
  {
    hide PacketsOf, P.Serialize, P.SerializeMessage, P.Accepted, P.WellFormed, Utf8.Valid;
    forall i | 0 <= i < |PacketsOf(u)| ensures CanTravel(PacketsOf(u)[i]) {
      PacketIsSmall(u, i);
      MessageAtMost(PacketsOf(u)[i]);
      CompactTravels(PacketsOf(u)[i]);
    }
  }

  // ---- What is delivered of packets sent ----

  ghost predicate AllWithin(ps: seq<P.Body>) { forall i :: 0 <= i < |ps| ==> Within(ps[i]) }

  /** How many packets come before the first that does not fit. */
  lemma FirstOver(ps: seq<P.Body>) returns (k: nat)
    ensures k <= |ps| && AllWithin(ps[..k]) && (k < |ps| ==> !Within(ps[k]))
  {
    hide Within;
    k := 0;
    while k < |ps| && Within(ps[k])
      invariant k <= |ps| && forall i :: 0 <= i < k ==> Within(ps[i])
    {
      k := k + 1;
    }
  }

  lemma BodyWithin(p: P.Body)
    requires Compact(p)
    ensures Body(Envelope(p)) == P.SerializeMessage(Envelope(p)) && |Body(Envelope(p))| < 0x8000_0000
    ensures Deliverable(Body(Envelope(p))) <==> Within(p)
  {
    hide P.SerializeMessage;
    MessageAtMost(p);
  }

  /** The packages that get through are those before the first that does not fit. */
  lemma DeliveredUpTo(ps: seq<P.Body>, k: nat, chunks: seq<bytes>)
    requires forall i :: 0 <= i < |ps| ==> Compact(ps[i])
    requires k <= |ps| && AllWithin(ps[..k]) && (k < |ps| ==> !Within(ps[k]))
    requires Concat(chunks) == Concat(Frames(Bodies(ps)))
    ensures FeedAll(Open([]), chunks).0 == Frames(Bodies(ps[..k]))
    ensures k < |ps| ==> FeedAll(Open([]), chunks).1 == Dropped
  {
    hide Frame, Body, FeedAll, Within, Compact;
    forall i | 0 <= i < k ensures Deliverable(Bodies(ps)[i]) {
      assert ps[..k][i] == ps[i];
      BodyWithin(ps[i]);
    }
    if k == |ps| {
      assert ps[..k] == ps;
      WholeDelivered(Bodies(ps), chunks);
    } else {
      BodyWithin(ps[k]);
      PartDelivered(Bodies(ps), k, chunks);
      assert Bodies(ps)[..k] == Bodies(ps[..k]);
    }
  }

  /** Compact packets with text names, as many as fit, are a run of the receiver. */
  lemma ServedUpTo(store: Store, files: Files, ps: seq<P.Body>, k: nat, chunks: seq<bytes>)
    requires forall i :: 0 <= i < |ps| ==> ps[i].File? && Compact(ps[i])
    requires forall i :: 0 <= i < |ps| ==> Utf8.Valid(ps[i].mapName) && Utf8.Valid(ps[i].fileName)
    requires Keyed(files) && forall i :: 0 <= i < |ps| ==> ps[i].fileName !in files
    requires k <= |ps| && AllWithin(ps[..k]) && (k < |ps| ==> !Within(ps[k]))
    requires Concat(chunks) == Concat(Frames(Bodies(ps)))
    ensures var evs := Opened(ps[..k]);
            Receiver(store, files, chunks) == Some(Service(Run(files, evs).0, Run(files, evs).1, [], false))
  {
    hide Frame, Body, Bodies, Frames, Opened, FeedAll, Serve, Run, Within, Utf8.Valid, Compact;
    DeliveredUpTo(ps, k, chunks);
    forall i | 0 <= i < k ensures Compact(ps[..k][i]) && Within(ps[..k][i]) {
      assert ps[..k][i] == ps[i];
    }
    ServedText(store, files, ps[..k]);
  }

  lemma ServedText(store: Store, files: Files, ps: seq<P.Body>)
    requires forall i :: 0 <= i < |ps| ==> ps[i].File? && Compact(ps[i]) && Within(ps[i])
    requires forall i :: 0 <= i < |ps| ==> Utf8.Valid(ps[i].mapName) && Utf8.Valid(ps[i].fileName)
    requires Keyed(files) && forall i :: 0 <= i < |ps| ==> ps[i].fileName !in files
    ensures var evs := Opened(ps);
            Serve(store, files, Frames(Bodies(ps)), AllTrue(|ps|)) ==
            Some(Service(Run(files, evs).0, Run(files, evs).1, [], false))
  {
    hide Frame, Body, Opened, Serve, Run, Within, Utf8.Valid, CanTravel, Compact, Handled, Throws;
    var evs := Opened(ps);
    OpenedBack(ps);
    forall i | 0 <= i < |evs| ensures CanTravel(evs[i].p) && evs[i].p.fileName !in files {
      assert evs[i].p == ps[i];
      CompactTravels(ps[i]);
    }
    ServeIsRun(store, files, evs);
    TextNeverThrows(files, evs);
  }

  // ---- Names that are not text ----

  /** What is left of any packet of the upload: parsing stops at the first name that is not text. */
  function Broken(u: Upload): (b: P.Body)
    ensures b.File? && b.mapName == u.mapName
  {
    P.File(u.mapName, if Utf8.Valid(u.mapName) then u.fileName else [], [], 0, 0, [], [])
  }

  /** A name field, read into a fresh object. */
  lemma ConsumeName(b: P.Body, num: nat, name: bytes, tail: bytes)
    requires b.File? && ((num == 1 && b.mapName == []) || (num == 2 && b.fileName == [])) && |name| <= V.MAX_SIZE
    ensures var b' := if num == 1 then b.(mapName := name) else b.(fileName := name);
            P.Consume(b, W.EncodeAll(P.TextField(num, name)) + tail) ==
            if Utf8.Valid(name) then P.Consume(b', tail) else P.Spoiled(b')
  {
    hide Utf8.Valid, W.EncodeRecord, W.NextRecord, P.Take, P.Parse;
    if name == [] {
      assert [] + tail == tail;
      Utf8.AsciiIsValid([]);
    } else {
      var r := W.Delimited(num, name);
      M.EncodeAllOne(r);
      W.NextOfEncoded(r, tail);
      M.FileText(b, num, name);
      assert (W.EncodeRecord(r) + tail)[|W.EncodeRecord(r)|..] == tail;
    }
  }

  lemma ConsumeBroken(p: P.Body, u: Upload)
    requires p.File? && p.mapName == u.mapName && p.fileName == u.fileName && p.unknown == []
    requires |p.mapName| + |p.fileName| <= V.MAX_SIZE && !(Utf8.Valid(u.mapName) && Utf8.Valid(u.fileName))
    ensures P.Consume(P.Empty(P.FileKind), P.Serialize(p)) == P.Spoiled(Broken(u))
  {
    hide W.EncodeAll, P.TextField, P.IntField, P.Consume, P.Serialize, Utf8.Valid;
    var f2 := W.EncodeAll(P.TextField(2, p.fileName));
    M.FileBytes(p);
    var tail := W.EncodeAll(P.TextField(3, p.content)) + W.EncodeAll(P.IntField(4, p.packetNum))
              + W.EncodeAll(P.IntField(5, p.packetTotal)) + W.EncodeAll(P.TextField(6, p.md5)) + p.unknown;
    assert P.Serialize(p) == W.EncodeAll(P.TextField(1, p.mapName)) + (f2 + tail);
    ConsumeName(P.Empty(P.FileKind), 1, p.mapName, f2 + tail);
    ConsumeName(P.Empty(P.FileKind).(mapName := p.mapName), 2, p.fileName, tail);
  }

  lemma TypeRead(m: P.Message, rest: bytes)
    ensures P.ConsumeMessage(m, W.EncodeAll(P.IntField(1, TYPE_FILE)) + rest) ==
            P.ConsumeMessage(m.(typ := TYPE_FILE), rest)
  {
    hide W.EncodeRecord, W.NextRecord, P.TakeMessage, P.ParseMessage;
    var r := W.Number(1, SignExtend(TYPE_FILE));
    M.EncodeAllOne(r);
    W.NextOfEncoded(r, rest);
    M.TypeField(m, r);
    assert (W.EncodeRecord(r) + rest)[|W.EncodeRecord(r)|..] == rest;
  }

  lemma PayloadRead(m: P.Message, sub: bytes)
    requires |sub| <= V.MAX_SIZE && m.payload.None?
    requires P.Consume(P.Empty(P.FileKind), sub).Spoiled?
    ensures P.ConsumeMessage(m, W.EncodeAll([W.Delimited(5, sub)])) ==
            P.Spoiled(m.(payload := Some(P.Consume(P.Empty(P.FileKind), sub).value)))
  {
    hide W.EncodeRecord, W.NextRecord, P.TakeMessage, P.ParseMessage, P.Consume;
    var r := W.Delimited(5, sub);
    M.EncodeAllOne(r);
    W.NextOfEncoded(r, []);
    assert W.EncodeRecord(r) + [] == W.EncodeRecord(r);
    M.PayloadField(m, 5, sub);
  }

  /** A packet with such a name leaves the handler with the names alone. */
  lemma BrokenMessage(p: P.Body, u: Upload)
    requires p.File? && p.mapName == u.mapName && p.fileName == u.fileName && p.unknown == []
    requires Within(p) && !(Utf8.Valid(u.mapName) && Utf8.Valid(u.fileName))
    ensures Body(Envelope(p)) == P.SerializeMessage(Envelope(p))
    ensures P.ConsumeMessage(P.EMPTY, Body(Envelope(p))) == P.Spoiled(Envelope(Broken(u)))
  {
    hide W.EncodeAll, P.IntField, P.Serialize, P.SerializeMessage, P.Consume, P.ConsumeMessage, Utf8.Valid, Broken;
    var sub := P.Serialize(p);
    MessageAtLeast(p);
    ConsumeBroken(p, u);
    M.EnvelopeBytes(Envelope(p));
    E.PayloadSize(Envelope(p));
    var rest := W.EncodeAll([W.Delimited(5, sub)]);
    assert P.PayloadFields(Some(p)) == [W.Delimited(5, sub)];
    assert P.SerializeMessage(Envelope(p)) == W.EncodeAll(P.IntField(1, TYPE_FILE)) + rest;
    TypeRead(P.EMPTY, rest);
    PayloadRead(P.EMPTY.(typ := TYPE_FILE), sub);
  }

  /**
   The total that was not read counts as zero, so the file is assembled at once; but its path does
   not convert, and the handler throws before anything is opened.
   */
  lemma BrokenStep(files: Files, u: Upload, opens: bool)
    requires Keyed(files) && (Broken(u).fileName in files ==> Broken(u).fileName == [])
    requires !(Utf8.Valid(u.mapName) && Utf8.Valid(u.fileName))
    ensures Step(files, Broken(u), opens).1 == Thrown
  {
    hide Utf8.Valid, Converts;
    var name := Broken(u).fileName;
    var e := Settled(Lookup(files, name), Broken(u));
    assert e.total == 0 && e.mapName == u.mapName && e.fileName == name;
    ConvertsIffText([], u.mapName, name);
  }

  lemma ServeBroken(store: Store, files: Files, u: Upload, p: P.Body, packages: seq<bytes>)
    requires Unstarted(files, u) && !(Utf8.Valid(u.mapName) && Utf8.Valid(u.fileName))
    requires p.File? && p.mapName == u.mapName && p.fileName == u.fileName && p.unknown == [] && Within(p)
    requires packages != [] && packages[0] == Frame(Body(Envelope(p)))
    ensures var r := Serve(store, files, packages, AllTrue(|packages|));
            r.Some? && r.value.writes == [] && r.value.thrown
  {
    hide Step, Within, Broken, Frame, Body, P.ConsumeMessage, Utf8.Valid;
    BrokenMessage(p, u);
    BrokenName(u);
    BrokenStep(files, u, true);
  }

  lemma BrokenName(u: Upload)
    ensures Broken(u).fileName in {[], u.fileName}
  {}

  // ---- Which uploads succeed ----

  /** Every packet fits a package and the names are text. */
  ghost predicate Succeeds(u: Upload) {
    AllWithin(PacketsOf(u)) && Utf8.Valid(u.mapName) && Utf8.Valid(u.fileName)
  }

  /** Names of more than two megabytes: a packet is too long to send, or goes out empty. */
  lemma {:induction false} ServeSilent(store: Store, files: Files, packages: seq<bytes>)
    requires forall i :: 0 <= i < |packages| ==> packages[i] == Frame([])
    ensures Serve(store, files, packages, AllTrue(|packages|)) == Some(Service(files, [], [], false))
    decreases |packages|
  {
    if packages == [] {
    } else {
      assert packages[0][HEAD..] == [];
      assert AllTrue(|packages|)[1..] == AllTrue(|packages[1..]|);
      ServeSilent(store, files, packages[1..]);
      var noWrites: seq<Write> := [];
      var noReplies: seq<bytes> := [];
      assert noReplies + noReplies == noReplies && noWrites + noWrites == noWrites;
    }
  }

  lemma HugeBody(p: P.Body)
    requires p.File? && |p.mapName| + |p.fileName| > MAX_PACKAGE
    ensures !Within(p) && |Body(Envelope(p))| < 0x8000_0000
    ensures Deliverable(Body(Envelope(p))) ==> Body(Envelope(p)) == []
  {
    hide P.SerializeMessage;
    MessageAtLeast(p);
  }

  lemma HugeNames(store: Store, files: Files, u: Upload, chunks: seq<bytes>)
    requires Numbered(u) && |u.mapName| + |u.fileName| > MAX_PACKAGE
    requires Concat(chunks) == Concat(Frames(Bodies(PacketsOf(u))))
    ensures !Succeeds(u) && Receiver(store, files, chunks) == Some(Service(files, [], [], false))
  {
    hide PacketsOf, Frame, Body, FeedAll, Serve, Within, Utf8.Valid;
    var ps := PacketsOf(u);
    forall i | 0 <= i < |ps|
      ensures !Within(ps[i]) && |Bodies(ps)[i]| < 0x8000_0000
      ensures Deliverable(Bodies(ps)[i]) ==> Bodies(ps)[i] == []
    {
      PacketIsSmall(u, i);
      HugeBody(ps[i]);
    }
    SomePacket(u);
    assert !Within(ps[0]);
    var ds, k := Bodies(ps), 0;
    while k < |ds| && Deliverable(ds[k])
      invariant k <= |ds| && forall i :: 0 <= i < k ==> Deliverable(ds[i])
    {
      k := k + 1;
    }
    if k == |ds| { WholeDelivered(ds, chunks); } else { PartDelivered(ds, k, chunks); }
    assert k == |ds| ==> ds[..k] == ds;
    ServeSilent(store, files, Frames(ds[..k]));
  }

  lemma SomePacket(u: Upload)
    ensures |PacketsOf(u)| > 0 && (|PacketsOf(u)| > 1 ==> u.content != []) && (u.content == [] ==> |PacketsOf(u)| == 1)
  {}

  /**
   For every upload, however large its names and whatever bytes are in them: the file is written,
   once and whole, exactly if the upload succeeds by the rule above, and nothing else ever is.
   */
  lemma UploadOutcome(store: Store, files: Files, u: Upload, chunks: seq<bytes>)
    requires Numbered(u) && u.fileName != [] && Unstarted(files, u)
    requires Concat(chunks) == Concat(Frames(Bodies(PacketsOf(u))))
    ensures Receiver(store, files, chunks).Some?
    ensures Receiver(store, files, chunks).value.writes == if Succeeds(u) then [Entire(u)] else []
    ensures Succeeds(u) ==> Receiver(store, files, chunks).value == Service(files, [Entire(u)], [], false)
  {
    hide PacketsOf, Receiver, FeedAll, Frame, Body, Within, Utf8.Valid, Compact;
    if |u.mapName| + |u.fileName| > MAX_PACKAGE {
      HugeNames(store, files, u, chunks);
    } else {
      var k := FirstOver(PacketsOf(u));
      AllCompact(u);
      SomePacket(u);
      assert k == |PacketsOf(u)| ==> PacketsOf(u)[..k] == PacketsOf(u);
      if Utf8.Valid(u.mapName) && Utf8.Valid(u.fileName) {
        TextOutcome(store, files, u, k, chunks);
      } else {
        BrokenOutcome(store, files, u, k, chunks);
      }
    }
  }

  lemma AllCompact(u: Upload)
    requires Numbered(u) && |u.mapName| + |u.fileName| <= MAX_PACKAGE
    ensures forall i :: 0 <= i < |PacketsOf(u)| ==> Compact(PacketsOf(u)[i]) && PacketsOf(u)[i].mapName == u.mapName
  {
    hide PacketsOf;
    forall i | 0 <= i < |PacketsOf(u)|
      ensures Compact(PacketsOf(u)[i]) && PacketsOf(u)[i].mapName == u.mapName
    {
      PacketIsSmall(u, i);
    }
  }

  lemma TextOutcome(store: Store, files: Files, u: Upload, k: nat, chunks: seq<bytes>)
    requires Numbered(u) && u.fileName != [] && Unstarted(files, u)
    requires Utf8.Valid(u.mapName) && Utf8.Valid(u.fileName) && |u.mapName| + |u.fileName| <= MAX_PACKAGE
    requires k <= |PacketsOf(u)| && AllWithin(PacketsOf(u)[..k]) && (k < |PacketsOf(u)| ==> !Within(PacketsOf(u)[k]))
    requires Concat(chunks) == Concat(Frames(Bodies(PacketsOf(u))))
    ensures Receiver(store, files, chunks).Some?
    ensures k < |PacketsOf(u)| ==> Receiver(store, files, chunks).value.writes == []
    ensures k == |PacketsOf(u)| ==> Receiver(store, files, chunks).value == Service(files, [Entire(u)], [], false)
  {
    hide PacketsOf, Receiver, Frame, Body, Run, Within, Utf8.Valid, Compact, Saves, Opened;
    var ps := PacketsOf(u);
    AllCompact(u);
    ServedUpTo(store, files, ps, k, chunks);
    CutRun(files, u, k);
  }

  /** The packets of an upload up to a place: nothing written before the last, the file with it. */
  lemma CutRun(files: Files, u: Upload, k: nat)
    requires Numbered(u) && u.fileName != [] && Unstarted(files, u) && k <= |PacketsOf(u)|
    requires Utf8.Valid(u.mapName) && Utf8.Valid(u.fileName)
    ensures var r := Run(files, Opened(PacketsOf(u)[..k]));
            if k < |PacketsOf(u)| then r.1 == [] else r == (files, [Entire(u)])
  {
    hide PacketsOf, Run, Utf8.Valid, EachOnce;
    var ps := PacketsOf(u);
    ConvertsIffText([], u.mapName, u.fileName);
    if k == |ps| {
      assert ps[..k] == ps;
      InOrderIsEachOnce(u);
      ExactlyOnce(files, u, Opened(ps));
    } else {
      var evs := Opened(ps[..k]);
      forall i | 0 <= i < |evs| ensures evs[i].opens && IsPacketOf(evs[i].p, u) {
        assert ps[..k][i] == ps[i] == evs[i].p;
      }
      NotYet(files, u, evs);
    }
  }

  lemma BrokenOutcome(store: Store, files: Files, u: Upload, k: nat, chunks: seq<bytes>)
    requires Numbered(u) && u.fileName != [] && Unstarted(files, u)
    requires !(Utf8.Valid(u.mapName) && Utf8.Valid(u.fileName)) && |u.mapName| + |u.fileName| <= MAX_PACKAGE
    requires k <= |PacketsOf(u)| && AllWithin(PacketsOf(u)[..k]) && (k < |PacketsOf(u)| ==> !Within(PacketsOf(u)[k]))
    requires Concat(chunks) == Concat(Frames(Bodies(PacketsOf(u))))
    ensures Receiver(store, files, chunks).Some?
    ensures Receiver(store, files, chunks).value.writes == []
    ensures Receiver(store, files, chunks).value.thrown <==> k > 0
  {
    hide PacketsOf, Frame, Body, FeedAll, Serve, Within, Utf8.Valid, Compact;
    var ps := PacketsOf(u)[..k];
    AllCompact(u);
    DeliveredUpTo(PacketsOf(u), k, chunks);
    if k == 0 {
      assert ps == [];
      ServeSilent(store, files, []);
    } else {
      assert ps[0] == PacketsOf(u)[0];
      PacketIsSmall(u, 0);
      ServeBroken(store, files, u, ps[0], Frames(Bodies(ps)));
    }
  }

  // ---- Uploads that fail ----

  /** A name as long as a package leaves no room for anything else: nothing gets through. */
  lemma DroppedExample() returns (u: Upload)
    ensures Numbered(u) && u.fileName != [] && Utf8.Valid(u.mapName) && Utf8.Valid(u.fileName)
    ensures !Succeeds(u) && FeedAll(Open([]), Frames(Bodies(PacketsOf(u)))) == ([], Dropped)
  {
    hide Utf8.Valid, Frame, Body, FeedAll, P.SerializeMessage;
    u := Upload([], Times(MAX_PACKAGE, 0x61), []);
    Utf8.AsciiIsValid([]);
    Utf8.AsciiIsValid(u.fileName);
    SomePacket(u);
    PacketIsSmall(u, 0);
    var ps := PacketsOf(u);
    MessageAtLeast(ps[0]);
    BodyWithin(ps[0]);
    PartDelivered(Bodies(ps), 0, Frames(Bodies(ps)));
    assert Frames(Bodies(ps)[..0]) == [];
  }

  /** A short name that is not text, from a sender that does not convert it: nothing is written. */
  lemma BadNameExample(store: Store) returns (u: Upload)
    ensures Numbered(u) && u.fileName != [] && AllWithin(PacketsOf(u)) && !Succeeds(u)
    ensures var r := Receiver(store, map[], Frames(Bodies(PacketsOf(u))));
            r.Some? && r.value.writes == [] && r.value.thrown
  {
    hide Frame, Body, Receiver, P.SerializeMessage;
    u := Upload([], [0xFF], [0x61]);
    assert !Utf8.Valid(u.fileName);
    var ps := PacketsOf(u);
    assert |ps| == 1 && ps[..1] == ps;
    PacketIsSmall(u, 0);
    MessageAtMost(ps[0]);
    BrokenOutcome(store, map[], u, 1, Frames(Bodies(ps)));
  }
}
