/**
 What the receiver guarantees over whole runs: safety of one upload under any order and
 repetition, independence of uploads with distinct names, and exactly one write per upload when
 every packet arrives exactly once.
 */
module TransferLaws {
  import opened Bytes
  import P = Packet
  import Utf8
  import opened FileTransfer
  import opened Wrappers

  // ---- Splitting loses nothing ----

  lemma {:induction false} ChunksConcat(content: bytes)
    ensures Concat(Chunks(content)) == content
    decreases |content|
  {
    if content == [] {
    } else if |content| <= PACKET_SIZE {
      assert Concat([content]) == content + Concat([]);
    } else {
      ChunksConcat(content[PACKET_SIZE..]);
      assert content == content[..PACKET_SIZE] + content[PACKET_SIZE..];
    }
  }

  /** Number of packets: the size divided by 1200, rounded up. */
  lemma {:induction false} ChunkCount(content: bytes)
    ensures |Chunks(content)| == (|content| + PACKET_SIZE - 1) / PACKET_SIZE
    decreases |content|
  {
    if |content| <= PACKET_SIZE {
    } else {
      ChunkCount(content[PACKET_SIZE..]);
    }
  }

  /** Piece i: twelve hundred bytes from 1200 * i on, or what is left there. */
  lemma {:induction false} ChunkAt(content: bytes, i: nat)
    requires i < |Chunks(content)|
    ensures 1200 * i < |content|
    ensures Chunks(content)[i] == if 1200 * (i + 1) < |content| then content[1200 * i..1200 * (i + 1)]
                                  else content[1200 * i..]
    decreases i
  {
    if |content| <= PACKET_SIZE {
    } else if i == 0 {
    } else {
      ChunkAt(content[PACKET_SIZE..], i - 1);
    }
  }

  /** The packets with every field written out: numbered from 0, except that of an empty file. */
  lemma PacketsAre(u: Upload, i: nat)
    requires Numbered(u) && i < |PacketsOf(u)|
    ensures u.content == [] ==> PacketsOf(u) == [P.File(u.mapName, u.fileName, [], 1, 1, [], [])]
    ensures u.content != [] ==>
              var n := |u.content|;
              && |PacketsOf(u)| == (n + 1199) / 1200 && 1200 * i < n
              && PacketsOf(u)[i] == P.File(u.mapName, u.fileName,
                                           u.content[1200 * i..if 1200 * (i + 1) < n then 1200 * (i + 1) else n],
                                           i, (n + 1199) / 1200, [], [])
  {
    ChunkCount(u.content);
    if u.content != [] {
      hide Chunks;
      ChunkAt(u.content, i);
    }
  }

  // ---- One upload, as the receiver sees it ----

  /** The numbers of a split fit an int32. */
  predicate Numbered(u: Upload) { |Chunks(u.content)| <= 0x7FFF_FFFF }

  function Total(u: Upload): int32
    requires Numbered(u)
  {
    |PacketsOf(u)|
  }

  /** Packet numbers of the split and what each carries. */
  function Parts(u: Upload): map<int32, bytes>
    requires Numbered(u)
  {
    if u.content == [] then map[1 := []]
    else map k: int32 | 0 <= k < |Chunks(u.content)| :: Chunks(u.content)[k]
  }

  lemma PacketIsPart(u: Upload, i: nat)
    requires Numbered(u) && i < |PacketsOf(u)|
    ensures var p := PacketsOf(u)[i];
            && p.mapName == u.mapName && p.fileName == u.fileName && p.packetTotal == Total(u)
            && p.packetNum in Parts(u) && p.content == Parts(u)[p.packetNum]
            && p.packetNum == (if u.content == [] then 1 else i)
  {
  }

  function Entire(u: Upload): Write { Write(u.mapName, u.fileName, u.content) }

  /** The file can be written at all: its path converts. */
  predicate Saves(u: Upload) { Converts(u.mapName, u.fileName) }

  /** What a complete upload writes. */
  function Kept(u: Upload): seq<Write> { if Saves(u) then [Entire(u)] else [] }

  /** An entry that holds only this upload's packets, and its metadata. */
  predicate Holds(e: Entry, u: Upload)
    requires Numbered(u)
  {
    && e.mapName == u.mapName && e.fileName == u.fileName && e.total == Total(u)
    && forall k: int32 :: k in e.packets ==> k in Parts(u) && e.packets[k] == Parts(u)[k]
  }

  ghost predicate Keyed(files: Files) { forall n :: n in files ==> files[n].fileName == n }

  ghost predicate Tracks(files: Files, u: Upload)
    requires Numbered(u)
  {
    u.fileName in files ==> Holds(files[u.fileName], u)
  }

  /** All the numbers of a range as a set of that size. */
  function Range(low: int, high: int): (s: set<int32>)
    requires -0x8000_0000 <= low <= high <= 0x8000_0000
    ensures |s| == high - low && forall k: int32 :: k in s <==> low <= k < high
    decreases high - low
  {
    if low == high then {} else Range(low, high - 1) + {high - 1}
  }

  lemma SubsetFull(a: set<int32>, b: set<int32>)
    requires a <= b && |a| >= |b|
    ensures a == b
  {
    if a != b {
      var x :| x in b && x !in a;
      assert |b - {x}| == |b| - 1;
      SubsetSize(a, b - {x});
    }
  }

  lemma {:induction false} SubsetSize(a: set<int32>, b: set<int32>)
    requires a <= b
    ensures |a| <= |b|
    decreases a
  {
    if a == {} {
    } else {
      var x :| x in a;
      SubsetSize(a - {x}, b - {x});
    }
  }

  lemma PartsKeys(u: Upload)
    requires Numbered(u)
    ensures u.content != [] ==> Parts(u).Keys == Range(0, |Chunks(u.content)|)
    ensures |Parts(u).Keys| == Total(u)
  {
    if u.content != [] {
      assert Parts(u).Keys == Range(0, |Chunks(u.content)|);
    } else {
      assert Parts(u).Keys == {1};
    }
  }

  lemma {:induction false} AssembledIsConcat(packets: map<int32, bytes>, cs: seq<bytes>, from: nat)
    requires |cs| <= 0x7FFF_FFFF && from <= |cs|
    requires forall k: int32 :: 0 <= k < |cs| ==> At(packets, k) == cs[k]
    ensures Assembled(packets, from, |cs|) == Concat(cs[from..])
    decreases |cs| - from
  {
    if from == |cs| {
      assert cs[from..] == [];
    } else {
      AssembledIsConcat(packets, cs, from + 1);
      assert cs[from..][1..] == cs[from + 1..];
      assert At(packets, from) == cs[from];
    }
  }

  /** Enough packets of an upload are all of them, and assembled they are its content. */
  lemma EnoughIsAll(e: Entry, u: Upload)
    requires Numbered(u) && Holds(e, u)
    ensures Enough(e.packets, e.total) <==> e.packets.Keys == Parts(u).Keys
    ensures Enough(e.packets, e.total) ==> Assembled(e.packets, 0, e.total) == u.content
  {
    PartsKeys(u);
    if Enough(e.packets, e.total) {
      SubsetFull(e.packets.Keys, Parts(u).Keys);
      if u.content == [] {
        assert 0 !in Parts(u);
        assert At(e.packets, 0) == [] && Assembled(e.packets, 1, 1) == [];
      } else {
        var cs := Chunks(u.content);
        AssembledIsConcat(e.packets, cs, 0);
        assert cs[0..] == cs;
        ChunksConcat(u.content);
      }
    }
  }

  // ---- Safety of one upload ----

  /**
   One packet of an upload, in any state that tracks it: only its own entry changes, a write is
   the whole file, and it is made exactly when the set is complete, the path converts and the file
   opens, which is exactly when the entry goes. A path that does not convert throws instead.
   */
  lemma UploadStep(files: Files, u: Upload, i: nat, opens: bool)
    requires Numbered(u) && u.fileName != [] && Keyed(files) && Tracks(files, u) && i < |PacketsOf(u)|
    ensures var p := PacketsOf(u)[i];
            var (files', w) := Step(files, p, opens);
            var held := Lookup(files, u.fileName).packets.Keys + {p.packetNum};
            && Keyed(files') && Tracks(files', u)
            && files' - {u.fileName} == files - {u.fileName}
            && (w.Written? ==> w.write == Entire(u))
            && (w.Written? <==> opens && held == Parts(u).Keys && Saves(u))
            && (w.Thrown? <==> held == Parts(u).Keys && !Saves(u))
            && (w.Written? <==> u.fileName !in files')
            && (!w.Written? ==> files'[u.fileName].packets.Keys == held)
  {
    hide Chunks, PacketsOf, Enough, Assembled, Converts;
    PacketIsPart(u, i);
    var p := PacketsOf(u)[i];
    var e := Settled(Lookup(files, u.fileName), p);
    var e' := e.(packets := e.packets[p.packetNum := p.content]);
    assert Holds(e', u);
    EnoughIsAll(e', u);
    assert e'.packets.Keys == Lookup(files, u.fileName).packets.Keys + {p.packetNum};
    var (files', w) := Step(files, p, opens);
    assert files' - {u.fileName} == files - {u.fileName};
  }

  ghost predicate IsPacketOf(p: P.Body, u: Upload) { exists i :: 0 <= i < |PacketsOf(u)| && PacketsOf(u)[i] == p }

  /** Every event that carries the upload's name is one of its packets. */
  ghost predicate OnlyItsPackets(evs: seq<Event>, u: Upload) {
    forall i :: 0 <= i < |evs| && evs[i].p.File? && evs[i].p.fileName == u.fileName ==> IsPacketOf(evs[i].p, u)
  }

  lemma OtherStep(files: Files, p: P.Body, opens: bool, name: bytes)
    requires p.File? && p.fileName != name && Keyed(files)
    ensures var (files', w) := Step(files, p, opens);
            && Keyed(files')
            && (name in files' <==> name in files) && (name in files ==> files'[name] == files[name])
            && (w.Written? ==> w.write.fileName == p.fileName)
  {
    hide Enough, Assembled, Converts;
  }

  /**
   Any order, any repetition, before and after completion, opens failing or not, other uploads
   in between: every write under the name is the whole file, and the entry, while there is one,
   holds only packets of the split.
   */
  lemma {:induction false} EveryWriteIsTheFile(files: Files, u: Upload, evs: seq<Event>)
    requires Numbered(u) && u.fileName != [] && Keyed(files) && Tracks(files, u)
    requires AllFiles(evs) && OnlyItsPackets(evs, u)
    ensures var (files', ws) := Run(files, evs);
            && Keyed(files') && Tracks(files', u)
            && forall j :: 0 <= j < |ws| && ws[j].fileName == u.fileName ==> ws[j] == Entire(u)
    decreases |evs|
  {
    hide Step, PacketsOf, Parts, Tracks;
    if evs == [] {
    } else {
      var (files1, w) := Step(files, evs[0].p, evs[0].opens);
      if evs[0].p.fileName == u.fileName {
        var i :| 0 <= i < |PacketsOf(u)| && PacketsOf(u)[i] == evs[0].p;
        UploadStep(files, u, i, evs[0].opens);
      } else {
        OtherStep(files, evs[0].p, evs[0].opens, u.fileName);
        assert Tracks(files1, u) by { TracksFrame(files, files1, u); }
      }
      EveryWriteIsTheFile(files1, u, evs[1..]);
    }
  }

  lemma TracksFrame(files: Files, files': Files, u: Upload)
    requires Numbered(u) && Tracks(files, u)
    requires u.fileName in files' <==> u.fileName in files
    requires u.fileName in files ==> files'[u.fileName] == files[u.fileName]
    ensures Tracks(files', u)
  {
  }

  // ---- Uploads with distinct names do not meet ----

  function Only(evs: seq<Event>, name: bytes): (r: seq<Event>)
    requires AllFiles(evs)
    ensures AllFiles(r)
    decreases |evs|
  {
    if evs == [] then []
    else (if evs[0].p.fileName == name then [evs[0]] else []) + Only(evs[1..], name)
  }

  function WritesOf(ws: seq<Write>, name: bytes): seq<Write> {
    if ws == [] then []
    else (if ws[0].fileName == name then [ws[0]] else []) + WritesOf(ws[1..], name)
  }

  function Restrict(files: Files, name: bytes): Files { if name in files then map[name := files[name]] else map[] }

  lemma StepRestrict(files: Files, p: P.Body, opens: bool, name: bytes)
    requires p.File? && p.fileName == name
    ensures Step(Restrict(files, name), p, opens).1 == Step(files, p, opens).1
    ensures Restrict(Step(files, p, opens).0, name) == Step(Restrict(files, name), p, opens).0
  {
    hide Receive, Settled;
    assert Lookup(Restrict(files, name), name) == Lookup(files, name);
  }

  lemma StepOwnsItsWrite(files: Files, p: P.Body, opens: bool)
    requires p.File? && Keyed(files)
    ensures Keyed(Step(files, p, opens).0)
    ensures Step(files, p, opens).1.Written? ==> Step(files, p, opens).1.write.fileName == p.fileName
  {
    hide Enough, Assembled, Converts;
  }

  /** What a run does under one name is what the events of that name do alone. */
  lemma {:induction false} Projection(files: Files, evs: seq<Event>, name: bytes)
    requires AllFiles(evs) && Keyed(files)
    ensures Restrict(Run(files, evs).0, name) == Run(Restrict(files, name), Only(evs, name)).0
    ensures WritesOf(Run(files, evs).1, name) == Run(Restrict(files, name), Only(evs, name)).1
    decreases |evs|
  {
    hide Step, Restrict;
    if evs == [] {
    } else {
      var p, opens := evs[0].p, evs[0].opens;
      var (files1, w) := Step(files, p, opens);
      var (files2, ws) := Run(files1, evs[1..]);
      var rest := Only(evs[1..], name);
      StepOwnsItsWrite(files, p, opens);
      Projection(files1, evs[1..], name);
      WritesOfAppend(ToSeq(w), ws, name);
      if p.fileName == name {
        StepRestrict(files, p, opens, name);
        assert Only(evs, name) == [evs[0]] + rest;
        RunCons(Restrict(files, name), evs[0], rest);
        assert WritesOf(ToSeq(w), name) == ToSeq(w);
      } else {
        OtherStep(files, p, opens, name);
        assert Only(evs, name) == [] + rest == rest;
        assert WritesOf(ToSeq(w), name) == [];
        assert Restrict(files1, name) == Restrict(files, name) by { RestrictFrame(files, files1, name); }
      }
    }
  }

  lemma RestrictFrame(files: Files, files': Files, name: bytes)
    requires (name in files' <==> name in files) && (name in files ==> files'[name] == files[name])
    ensures Restrict(files', name) == Restrict(files, name)
  {
  }

  lemma RunCons(files: Files, ev: Event, rest: seq<Event>)
    requires ev.p.File? && AllFiles(rest)
    ensures AllFiles([ev] + rest)
    ensures Run(files, [ev] + rest) ==
            var (files1, w) := Step(files, ev.p, ev.opens);
            (Run(files1, rest).0, ToSeq(w) + Run(files1, rest).1)
  {
    hide Step;
    assert ([ev] + rest)[1..] == rest;
  }

  lemma WritesRegroup(a: seq<Write>, b: seq<Write>, c: seq<Write>)
    ensures a + b + c == a + (b + c)
  {}

  lemma {:induction false} WritesOfAppend(a: seq<Write>, b: seq<Write>, name: bytes)
    ensures WritesOf(a + b, name) == WritesOf(a, name) + WritesOf(b, name)
  {
    if a == [] {
      assert a + b == b && [] + WritesOf(b, name) == WritesOf(b, name);
    } else {
      assert (a + b)[1..] == a[1..] + b && (a + b)[0] == a[0];
      WritesOfAppend(a[1..], b, name);
      var first := if a[0].fileName == name then [a[0]] else [];
      WritesRegroup(first, WritesOf(a[1..], name), WritesOf(b, name));
    }
  }

  lemma {:induction false} RunAppend(files: Files, a: seq<Event>, b: seq<Event>)
    requires AllFiles(a) && AllFiles(b)
    ensures AllFiles(a + b)
    ensures Run(files, a + b) == (Run(Run(files, a).0, b).0, Run(files, a).1 + Run(Run(files, a).0, b).1)
    decreases |a|
  {
    hide Step;
    if a == [] {
      assert a + b == b;
      assert [] + Run(files, b).1 == Run(files, b).1;
    } else {
      var (files1, w) := Step(files, a[0].p, a[0].opens);
      assert (a + b)[1..] == a[1..] + b;
      RunAppend(files1, a[1..], b);
      assert ToSeq(w) + (Run(files1, a[1..]).1 + Run(Run(files1, a[1..]).0, b).1)
          == ToSeq(w) + Run(files1, a[1..]).1 + Run(Run(files1, a[1..]).0, b).1;
    }
  }

  // ---- Every packet exactly once ----

  function PacketNumbers(evs: seq<Event>): (s: set<int32>)
    requires AllFiles(evs)
    ensures |s| <= |evs|
  {
    if evs == [] then {} else {evs[0].p.packetNum} + PacketNumbers(evs[1..])
  }

  ghost predicate AllPacketsOf(evs: seq<Event>, u: Upload) {
    forall i :: 0 <= i < |evs| ==> evs[i].opens && IsPacketOf(evs[i].p, u)
  }

  /** As many events as packets, every packet among them, every open succeeding. */
  ghost predicate EachOnce(evs: seq<Event>, u: Upload) {
    && |evs| == |PacketsOf(u)| && AllPacketsOf(evs, u)
    && AllArrive(evs, u)
  }

  ghost predicate Arrives(evs: seq<Event>, p: P.Body) { exists i :: 0 <= i < |evs| && evs[i].p == p }

  lemma PacketsAreFiles(evs: seq<Event>, u: Upload)
    requires AllPacketsOf(evs, u)
    ensures AllFiles(evs)
  {
  }

  function Held(files: Files, u: Upload): set<int32> { Lookup(files, u.fileName).packets.Keys }

  /** A receiver that has entries `base` under other names and has seen only packets of `u` since. */
  ghost predicate Beside(base: Files, files: Files, u: Upload)
    requires Numbered(u)
  {
    Keyed(files) && Tracks(files, u) && files - {u.fileName} == base
  }

  lemma CollectStep(base: Files, files: Files, u: Upload, ev: Event)
    requires Numbered(u) && u.fileName != [] && Beside(base, files, u) && AllPacketsOf([ev], u)
    ensures ev.p.File? && ev.p.packetNum in Parts(u)
    ensures var (files', w) := Step(files, ev.p, ev.opens);
            var held := Held(files, u) + {ev.p.packetNum};
            && Beside(base, files', u)
            && (if held == Parts(u).Keys && Saves(u) then files' == base && w == Written(Entire(u))
                else !w.Written? && Held(files', u) == held && u.fileName in files')
  {
    hide Step, PacketsOf, Parts, Tracks, Saves;
    assert [ev][0] == ev;
    var i :| 0 <= i < |PacketsOf(u)| && PacketsOf(u)[i] == ev.p;
    UploadStep(files, u, i, true);
    PacketIsPart(u, i);
    var files' := Step(files, ev.p, ev.opens).0;
    assert u.fileName !in files' ==> files' - {u.fileName} == files';
  }

  /** The first event of a run and the rest of it. */
  lemma RunHead(u: Upload, files: Files, evs: seq<Event>)
    requires AllFiles(evs) && AllPacketsOf(evs, u) && evs != []
    ensures AllFiles(evs[1..]) && AllPacketsOf(evs[1..], u) && AllPacketsOf([evs[0]], u) && evs[0].p.File?
    ensures var (files1, w) := Step(files, evs[0].p, evs[0].opens);
            && Run(files, evs).0 == Run(files1, evs[1..]).0
            && (!w.Written? ==> Run(files, evs).1 == Run(files1, evs[1..]).1)
            && (w.Written? ==> Run(files, evs).1 == [w.write] + Run(files1, evs[1..]).1)
  {
    hide Step, IsPacketOf;
    var files1 := Step(files, evs[0].p, evs[0].opens).0;
    assert [] + Run(files1, evs[1..]).1 == Run(files1, evs[1..]).1;
  }

  lemma RunNone(files: Files)
    ensures Run(files, []) == (files, [])
  {}

  /**
   A collector that has some packets and is given no more than the rest: it writes nothing
   before the last, and the last completes it.
   */
  lemma {:induction false} Collect(base: Files, files: Files, u: Upload, evs: seq<Event>)
    requires Numbered(u) && u.fileName != [] && Beside(base, files, u) && AllPacketsOf(evs, u) && AllFiles(evs)
    requires |Held(files, u)| + |evs| <= |Parts(u).Keys|
    ensures evs != [] && Held(files, u) + PacketNumbers(evs) == Parts(u).Keys ==>
              && Run(files, evs).1 == Kept(u)
              && if Saves(u) then Run(files, evs).0 == base else u.fileName in Run(files, evs).0
    ensures |Held(files, u)| + |evs| < |Parts(u).Keys| ==> Run(files, evs).1 == []
    decreases |evs|
  {
    hide Step, PacketsOf, Parts, Beside, Held, Entire, Saves, Run, AllPacketsOf, PacketNumbers;
    RunNone(files);
    if evs == [] {
    } else {
      var rest, held := evs[1..], Held(files, u) + {evs[0].p.packetNum};
      RunHead(u, files, evs);
      CollectStep(base, files, u, evs[0]);
      var files1 := Step(files, evs[0].p, evs[0].opens).0;
      OneMore(Held(files, u), evs[0].p.packetNum);
      NumbersCons(Held(files, u), evs);
      if held == Parts(u).Keys {
        assert rest == [] && [Entire(u)] + [] == [Entire(u)];
        RunNone(files1);
      } else {
        assert rest == [] ==> held + PacketNumbers(rest) == held;
        Collect(base, files1, u, rest);
      }
    }
  }

  lemma NumbersCons(held: set<int32>, evs: seq<Event>)
    requires AllFiles(evs)
    ensures evs != [] ==> held + PacketNumbers(evs) == held + {evs[0].p.packetNum} + PacketNumbers(evs[1..])
    ensures PacketNumbers([]) == {}
  {}

  lemma OneMore(held: set<int32>, k: int32)
    ensures |held + {k}| <= |held| + 1
  {}

  /** If the path does not convert nothing is ever written. */
  lemma {:induction false} NeverWritten(base: Files, files: Files, u: Upload, evs: seq<Event>)
    requires Numbered(u) && u.fileName != [] && Beside(base, files, u) && AllPacketsOf(evs, u) && AllFiles(evs)
    requires !Saves(u)
    ensures Run(files, evs).1 == []
    decreases |evs|
  {
    hide Step, PacketsOf, Parts, Beside, Held, Entire, Saves, Run, AllPacketsOf;
    RunNone(files);
    if evs == [] {
    } else {
      RunHead(u, files, evs);
      CollectStep(base, files, u, evs[0]);
      NeverWritten(base, Step(files, evs[0].p, evs[0].opens).0, u, evs[1..]);
    }
  }

  /** However often packets are repeated, something is written exactly if every number has come. */
  lemma {:induction false} WritesWhenCovered(base: Files, files: Files, u: Upload, evs: seq<Event>)
    requires Numbered(u) && u.fileName != [] && Beside(base, files, u) && AllPacketsOf(evs, u) && AllFiles(evs)
    requires Held(files, u) < Parts(u).Keys && Saves(u)
    ensures Run(files, evs).1 != [] <==> Held(files, u) + PacketNumbers(evs) == Parts(u).Keys
    decreases |evs|
  {
    hide Step, PacketsOf, Parts, Beside, Held, Entire, Saves, Run, AllPacketsOf, PacketNumbers;
    RunNone(files);
    NumbersCons(Held(files, u), evs);
    if evs == [] {
      assert Held(files, u) + {} == Held(files, u);
    } else {
      var rest, held := evs[1..], Held(files, u) + {evs[0].p.packetNum};
      RunHead(u, files, evs);
      CollectStep(base, files, u, evs[0]);
      NumbersAreParts(rest, u);
      if held == Parts(u).Keys {
        assert held + PacketNumbers(rest) == held;
      } else {
        assert held < Parts(u).Keys;
        WritesWhenCovered(base, Step(files, evs[0].p, evs[0].opens).0, u, rest);
      }
    }
  }

  lemma NumbersCover(evs: seq<Event>, i: nat)
    requires AllFiles(evs) && i < |evs|
    ensures evs[i].p.packetNum in PacketNumbers(evs)
    decreases |evs|
  {
    if i == 0 {
    } else {
      NumbersCover(evs[1..], i - 1);
    }
  }

  lemma {:induction false} NumbersAreParts(evs: seq<Event>, u: Upload)
    requires Numbered(u) && AllPacketsOf(evs, u) && AllFiles(evs)
    ensures PacketNumbers(evs) <= Parts(u).Keys
    decreases |evs|
  {
    hide PacketsOf, Parts;
    if evs == [] {
    } else {
      var i :| 0 <= i < |PacketsOf(u)| && PacketsOf(u)[i] == evs[0].p;
      PacketIsPart(u, i);
      NumbersAreParts(evs[1..], u);
    }
  }

  ghost predicate AllArrive(evs: seq<Event>, u: Upload) {
    forall j :: 0 <= j < |PacketsOf(u)| ==> Arrives(evs, PacketsOf(u)[j])
  }

  lemma ArrivalsCover(u: Upload, evs: seq<Event>)
    requires Numbered(u) && AllPacketsOf(evs, u) && AllArrive(evs, u) && AllFiles(evs)
    ensures PacketNumbers(evs) == Parts(u).Keys
  {
    hide PacketsOf, Parts;
    NumbersAreParts(evs, u);
    PartsKeys(u);
    forall k | k in Parts(u).Keys ensures k in PacketNumbers(evs) {
      var j := if u.content == [] then 0 else k as int;
      NumberIsIndex(u, k);
      PacketIsPart(u, j);
      var i :| 0 <= i < |evs| && evs[i].p == PacketsOf(u)[j];
      NumbersCover(evs, i);
    }
  }

  lemma {:induction false} NumberHasEvent(evs: seq<Event>, k: int32) returns (i: nat)
    requires AllFiles(evs) && k in PacketNumbers(evs)
    ensures i < |evs| && evs[i].p.packetNum == k
    decreases |evs|
  {
    if evs[0].p.packetNum == k {
      i := 0;
    } else {
      var j := NumberHasEvent(evs[1..], k);
      i := j + 1;
    }
  }

  /** A packet is known by its number. */
  lemma NumberIsPacket(u: Upload, p: P.Body, j: nat)
    requires Numbered(u) && IsPacketOf(p, u) && j < |PacketsOf(u)| && p.File?
    requires p.packetNum == PacketsOf(u)[j].packetNum
    ensures p == PacketsOf(u)[j]
  {
    hide PacketsOf;
    var i :| 0 <= i < |PacketsOf(u)| && PacketsOf(u)[i] == p;
    PacketIsPart(u, i);
    PacketIsPart(u, j);
    if u.content == [] { OnePacket(u); }
  }

  lemma OnePacket(u: Upload)
    requires u.content == []
    ensures |PacketsOf(u)| == 1
  {}

  lemma CoverMeansArrival(u: Upload, evs: seq<Event>)
    requires Numbered(u) && AllPacketsOf(evs, u) && AllFiles(evs) && PacketNumbers(evs) == Parts(u).Keys
    ensures AllArrive(evs, u)
  {
    hide PacketsOf, Parts;
    forall j | 0 <= j < |PacketsOf(u)| ensures Arrives(evs, PacketsOf(u)[j]) {
      PacketIsPart(u, j);
      var i := NumberHasEvent(evs, PacketsOf(u)[j].packetNum);
      NumberIsPacket(u, evs[i].p, j);
    }
  }

  lemma NumberIsIndex(u: Upload, k: int32)
    requires Numbered(u) && k in Parts(u).Keys
    ensures if u.content == [] then k == 1 else 0 <= k < |PacketsOf(u)|
  {
  }

  /** A receiver that has no entry under the upload's name. */
  ghost predicate Unstarted(files: Files, u: Upload) { Keyed(files) && u.fileName !in files }

  lemma StartsEmpty(files: Files, u: Upload)
    requires Numbered(u) && Unstarted(files, u)
    ensures Beside(files, files, u) && Held(files, u) == {} && Parts(u).Keys != {}
  {
    assert files - {u.fileName} == files;
    PartsKeys(u);
    assert Total(u) > 0;
  }

  /**
   Delivered once each, in any order, an upload ends in exactly one write and leaves no trace. If
   its path does not convert it ends in none, and its entry stays.
   */
  lemma ExactlyOnce(files: Files, u: Upload, evs: seq<Event>)
    requires Numbered(u) && u.fileName != [] && Unstarted(files, u) && EachOnce(evs, u)
    ensures AllFiles(evs) && Run(files, evs).1 == Kept(u)
    ensures if Saves(u) then Run(files, evs).0 == files else u.fileName in Run(files, evs).0
  {
    hide PacketsOf, Parts, Run, IsPacketOf, Beside, Held, Saves, Entire;
    PacketsAreFiles(evs, u);
    PartsKeys(u);
    StartsEmpty(files, u);
    ArrivalsCover(u, evs);
    assert {} + PacketNumbers(evs) == Parts(u).Keys;
    Collect(files, files, u, evs);
  }

  /** Delivered any number of times each, an upload is written exactly if no packet is missing. */
  lemma WrittenIffAllArrive(files: Files, u: Upload, evs: seq<Event>)
    requires Numbered(u) && u.fileName != [] && Unstarted(files, u) && AllPacketsOf(evs, u)
    ensures AllFiles(evs) && (Run(files, evs).1 != [] <==> Saves(u) && AllArrive(evs, u))
  {
    hide PacketsOf, Parts, Run, IsPacketOf, Beside, Held, AllArrive, Saves;
    PacketsAreFiles(evs, u);
    StartsEmpty(files, u);
    assert {} + PacketNumbers(evs) == PacketNumbers(evs);
    if Saves(u) {
      WritesWhenCovered(files, files, u, evs);
      if AllArrive(evs, u) { ArrivalsCover(u, evs); }
      if PacketNumbers(evs) == Parts(u).Keys { CoverMeansArrival(u, evs); }
    } else {
      NeverWritten(files, files, u, evs);
    }
  }

  /** Fewer events than packets never make a write. */
  lemma NotYet(files: Files, u: Upload, evs: seq<Event>)
    requires Numbered(u) && u.fileName != [] && Unstarted(files, u) && AllPacketsOf(evs, u) && |evs| < |PacketsOf(u)|
    ensures AllFiles(evs) && Run(files, evs).1 == []
  {
    hide PacketsOf, Parts, Run, Beside, Held;
    PacketsAreFiles(evs, u);
    PartsKeys(u);
    StartsEmpty(files, u);
    Collect(files, files, u, evs);
  }

  // ---- One packet of any kind ----

  /**
   One packet, whoever sent it and whatever is in it. The first under a name fixes map, total and
   checksum, every one under no name does; the packet takes its number's place; and the file is made of the places 0 to
   total - 1, empty where nothing came, once there are as many packets as the total says, which a
   negative total never does.
   */
  lemma StepRule(files: Files, p: P.Body, opens: bool)
    requires p.File? && Keyed(files)
    ensures var name := p.fileName;
            var held := if name in files && name != [] then files[name] else
                        Entry(p.mapName, name, p.packetTotal,
                              if name in files then files[name].packets else map[], p.md5);
            var e := held.(packets := held.packets[p.packetNum := p.content]);
            Step(files, p, opens) ==
            if e.total < 0 || |e.packets| < e.total then (files[name := e], Waiting)
            else if !Utf8.Valid(e.mapName) || !Utf8.Valid(name) then (files[name := e], Thrown)
            else if !opens then (files[name := e], Waiting)
            else (files - {name}, Written(Write(e.mapName, name, Concat(Places(e.packets, e.total)))))
  {
    hide Converts, Assembled, Enough, Utf8.Valid;
    var name := p.fileName;
    var e := Settled(Lookup(files, name), p);
    var packets := e.packets[p.packetNum := p.content];
    ConvertsIffText([], e.mapName, e.fileName);
    EnoughIs(packets, e.total);
    if e.total >= 0 {
      PlacesAssembled(packets, e.total);
    }
  }

  /** What the file is made of. */
  function Places(packets: map<int32, bytes>, total: int32): (cs: seq<bytes>)
    requires total >= 0
  {
    seq(total, i requires 0 <= i < total => if i in packets then packets[i] else [])
  }

  lemma PlacesAssembled(packets: map<int32, bytes>, total: int32)
    requires total >= 0
    ensures Assembled(packets, 0, total) == Concat(Places(packets, total))
  {
    AssembledIsConcat(packets, Places(packets, total), 0);
    assert Places(packets, total)[0..] == Places(packets, total);
  }

  /** The comparison is unsigned, and there are no more than 2^32 numbers to count. */
  lemma EnoughIs(packets: map<int32, bytes>, total: int32)
    ensures Enough(packets, total) <==> 0 <= total <= |packets|
  {
    SubsetSize(packets.Keys, Range(-0x8000_0000, 0x8000_0000));
    assert |packets| == |packets.Keys|;
  }

  // ---- Many uploads at once ----

  ghost predicate DistinctNames(ups: seq<Upload>) {
    && (forall i :: 0 <= i < |ups| ==> Numbered(ups[i]) && ups[i].fileName != [])
    && forall i, j :: 0 <= i < j < |ups| ==> ups[i].fileName != ups[j].fileName
  }

  ghost predicate Belongs(name: bytes, ups: seq<Upload>) { exists i :: 0 <= i < |ups| && ups[i].fileName == name }

  lemma {:induction false} NamesComeFromEvents(files: Files, evs: seq<Event>, ups: seq<Upload>)
    requires AllFiles(evs) && Keyed(files)
    requires forall n :: n in files ==> Belongs(n, ups)
    requires forall i :: 0 <= i < |evs| ==> Belongs(evs[i].p.fileName, ups)
    ensures forall n :: n in Run(files, evs).0 ==> Belongs(n, ups)
    ensures forall j :: 0 <= j < |Run(files, evs).1| ==> Belongs(Run(files, evs).1[j].fileName, ups)
    decreases |evs|
  {
    hide Belongs, Receive, Settled;
    if evs == [] {
    } else {
      StepOwnsItsWrite(files, evs[0].p, evs[0].opens);
      NamesComeFromEvents(Step(files, evs[0].p, evs[0].opens).0, evs[1..], ups);
    }
  }

  /**
   Uploads with distinct names, interleaved in any way, each packet delivered once: one write
   per file whose path converts, each the whole file, nothing else written, and no entry left but
   of the others.
   */
  lemma InterleavedUploads(ups: seq<Upload>, evs: seq<Event>)
    requires DistinctNames(ups) && AllFiles(evs)
    requires forall i :: 0 <= i < |evs| ==> Belongs(evs[i].p.fileName, ups)
    requires forall k :: 0 <= k < |ups| ==> EachOnce(Only(evs, ups[k].fileName), ups[k])
    ensures forall k :: 0 <= k < |ups| ==> WritesOf(Run(map[], evs).1, ups[k].fileName) == Kept(ups[k])
    ensures forall j :: 0 <= j < |Run(map[], evs).1| ==> Belongs(Run(map[], evs).1[j].fileName, ups)
    ensures forall k :: 0 <= k < |ups| ==> (ups[k].fileName in Run(map[], evs).0 <==> !Saves(ups[k]))
    ensures (forall k :: 0 <= k < |ups| ==> Saves(ups[k])) ==> Run(map[], evs).0 == map[]
  {
    hide Run, EachOnce, Only, Saves, Entire;
    var none: Files := map[];
    NamesComeFromEvents(none, evs, ups);
    forall k | 0 <= k < |ups|
      ensures WritesOf(Run(none, evs).1, ups[k].fileName) == Kept(ups[k])
      ensures ups[k].fileName in Run(none, evs).0 <==> !Saves(ups[k])
    {
      Projection(none, evs, ups[k].fileName);
      ExactlyOnce(none, ups[k], Only(evs, ups[k].fileName));
    }
    if forall k :: 0 <= k < |ups| ==> Saves(ups[k]) {
      assert forall n :: n !in Run(none, evs).0;
    }
  }

  // ---- The same name twice ----

  /** The events of uploads that follow one another, each complete before the next begins. */
  function Joined(blocks: seq<seq<Event>>): seq<Event> {
    if blocks == [] then [] else blocks[0] + Joined(blocks[1..])
  }

  function AllKept(ups: seq<Upload>): seq<Write> {
    if ups == [] then [] else Kept(ups[0]) + AllKept(ups[1..])
  }

  /**
   The receiver knows an upload by its file name alone. Uploads of one name, under different maps
   or the same, are each written whole if each is complete before the next begins.
   */
  lemma {:induction false} OneAfterTheOther(files: Files, ups: seq<Upload>, blocks: seq<seq<Event>>)
    requires |blocks| == |ups| && Keyed(files)
    requires forall k :: 0 <= k < |ups| ==>
               && Numbered(ups[k]) && ups[k].fileName != [] && ups[k].fileName !in files && Saves(ups[k])
               && EachOnce(blocks[k], ups[k])
    ensures AllFiles(Joined(blocks)) && Run(files, Joined(blocks)) == (files, AllKept(ups))
    decreases |ups|
  {
    hide Run, EachOnce, Saves, Entire;
    if ups == [] {
      RunNone(files);
    } else {
      ExactlyOnce(files, ups[0], blocks[0]);
      OneAfterTheOther(files, ups[1..], blocks[1..]);
      RunAppend(files, blocks[0], Joined(blocks[1..]));
    }
  }

  const HERE: Upload := Upload([0x41], [0x66], Times(PACKET_SIZE + 1, 0))
  const THERE: Upload := Upload([0x42], [0x66], Times(PACKET_SIZE + 1, 1))

  lemma TwoPackets(u: Upload)
    requires |u.content| == PACKET_SIZE + 1
    ensures PacketsOf(u) == [P.File(u.mapName, u.fileName, u.content[..PACKET_SIZE], 0, 2, [], []),
                             P.File(u.mapName, u.fileName, u.content[PACKET_SIZE..], 1, 2, [], [])]
  {
    assert u.content[PACKET_SIZE..] != [];
    assert Chunks(u.content[PACKET_SIZE..]) == [u.content[PACKET_SIZE..]];
    assert Chunks(u.content) == [u.content[..PACKET_SIZE]] + [u.content[PACKET_SIZE..]];
  }

  /** Two packets under one name, whoever sent them, are written under the first one's map. */
  lemma TwoMakeOne(p: P.Body, q: P.Body)
    requires p.File? && q.File? && p.fileName == q.fileName != [] && p.packetTotal == 2
    requires 0 <= p.packetNum <= 1 && q.packetNum == 1 - p.packetNum && Converts(p.mapName, p.fileName)
    ensures var data := if p.packetNum == 0 then p.content + q.content else q.content + p.content;
            Run(map[], [Event(p, true), Event(q, true)]) == (map[], [Write(p.mapName, p.fileName, data)])
  {
    hide Converts, Run, Assembled;
    var none: Files := map[];
    var evs := [Event(p, true), Event(q, true)];
    var first: map<int32, bytes> := map[p.packetNum := p.content];
    var both := first[q.packetNum := q.content];
    var e := Entry(p.mapName, p.fileName, 2, first, p.md5);
    var files := none[p.fileName := e];
    assert first.Keys == {p.packetNum} && both.Keys == {p.packetNum, q.packetNum};
    assert |first| == |first.Keys| == 1 && |both| == |both.Keys| == 2;
    assert Step(none, p, true) == (files, Waiting);
    AssembledTwo(both);
    assert Settled(files[q.fileName], q) == e;
    assert files - {p.fileName} == none;
    assert Step(files, q, true) == (none, Written(Write(p.mapName, p.fileName, both[0] + both[1])));
    RunTwo(none, evs[0], evs[1]);
    assert [] + [Write(p.mapName, p.fileName, both[0] + both[1])] == [Write(p.mapName, p.fileName, both[0] + both[1])];
  }

  lemma RunTwo(files: Files, a: Event, b: Event)
    requires a.p.File? && b.p.File?
    ensures var (files1, v) := Step(files, a.p, a.opens);
            var (files2, w) := Step(files1, b.p, b.opens);
            Run(files, [a, b]) == (files2, ToSeq(v) + ToSeq(w))
  {
    hide Step;
    var evs := [a, b];
    assert evs[1..] == [b] && evs[1..][1..] == [];
    var (files1, v) := Step(files, a.p, a.opens);
    var (files2, w) := Step(files1, b.p, b.opens);
    assert ToSeq(w) + [] == ToSeq(w);
    assert Run(files1, [b]) == (files2, ToSeq(w));
  }

  /** Interleaved, neither is: each file written is half of one and half of the other. */
  lemma SameNameCollides() returns (evs: seq<Event>)
    ensures AllFiles(evs) && |PacketsOf(HERE)| == |PacketsOf(THERE)| == 2
    ensures var p, q := PacketsOf(HERE), PacketsOf(THERE);
            evs == [Event(p[0], true), Event(q[1], true), Event(q[0], true), Event(p[1], true)]
    ensures HERE.fileName == THERE.fileName && HERE.mapName != THERE.mapName && Saves(HERE) && Saves(THERE)
    ensures Entire(HERE) !in Run(map[], evs).1 && Entire(THERE) !in Run(map[], evs).1
  {
    hide PacketsOf, Chunks, Run, Converts;
    TwoPackets(HERE);
    TwoPackets(THERE);
    Utf8Names();
    var p, q := PacketsOf(HERE), PacketsOf(THERE);
    var a, b := [Event(p[0], true), Event(q[1], true)], [Event(q[0], true), Event(p[1], true)];
    evs := [Event(p[0], true), Event(q[1], true), Event(q[0], true), Event(p[1], true)];
    assert evs == a + b;
    TwoMakeOne(p[0], q[1]);
    TwoMakeOne(q[0], p[1]);
    RunAppend(map[], a, b);
    var v, w := p[0].content + q[1].content, q[0].content + p[1].content;
    assert v[PACKET_SIZE] == 1 && HERE.content[PACKET_SIZE] == 0;
    assert w[PACKET_SIZE] == 0 && THERE.content[PACKET_SIZE] == 1;
    var ws := Run(map[], evs).1;
    assert ws == [Write(HERE.mapName, HERE.fileName, v), Write(THERE.mapName, THERE.fileName, w)];
    assert ws[0].data != HERE.content && ws[1].data != THERE.content;
  }

  lemma AssembledTwo(packets: map<int32, bytes>)
    requires 0 in packets && 1 in packets
    ensures Assembled(packets, 0, 2) == packets[0] + packets[1]
  {
    assert Assembled(packets, 2, 2) == [];
    assert Assembled(packets, 1, 2) == packets[1] + [];
  }

  lemma Utf8Names()
    ensures Saves(HERE) && Saves(THERE)
  {
    Utf8.AsciiIsValid(PathOf(HERE.mapName, HERE.fileName));
    Utf8.AsciiIsValid(PathOf(THERE.mapName, THERE.fileName));
  }
}
