/**
 Multipart messages over a socket pair, seen as one FIFO of frames that carry the "more" flag.
 libzmq delivers a message whole or not at all, so the queue a receiver sees holds complete
 messages; a send that would block refuses the first frame of a message and never a later one.
 */
module Multipart {
  import opened Bytes
  import C = MultipartCodec
  import opened Wrappers

  datatype Frame = Frame(data: bytes, more: bool)

  // ---- Messages in a queue ----

  /** The frames of one message; with `sndmore` it stays open at the end. */
  function FramesOf(msgs: seq<bytes>, sndmore: bool): (fs: seq<Frame>)
    ensures |fs| == |msgs|
  {
    if msgs == [] then []
    else [Frame(msgs[0], |msgs| > 1 || sndmore)] + FramesOf(msgs[1..], sndmore)
  }

  /** Number of frames of the complete message at the front, if there is one. */
  function FirstLength(q: seq<Frame>): (n: Option<nat>)
    ensures n.Some? ==> 0 < n.value <= |q|
  {
    if q == [] then None
    else if !q[0].more then Some(1)
    else match FirstLength(q[1..]) case None => None case Some(k) => Some(k + 1)
  }

  function Data(q: seq<Frame>): (ds: seq<bytes>)
    ensures |ds| == |q| && forall i :: 0 <= i < |q| ==> ds[i] == q[i].data
  {
    seq(|q|, i requires 0 <= i < |q| => q[i].data)
  }

  /** Nothing, or a complete message, is at the front. */
  predicate Atomic(q: seq<Frame>) { q == [] || FirstLength(q).Some? }

  function SendAll(mps: seq<seq<bytes>>): seq<Frame> {
    if mps == [] then [] else FramesOf(mps[0], false) + SendAll(mps[1..])
  }

  /** `n` receives: the messages, and the queue they leave. */
  function ReceiveAll(q: seq<Frame>, n: nat): Option<(seq<seq<bytes>>, seq<Frame>)>
    decreases n
  {
    if n == 0 then Some(([], q))
    else
      match FirstLength(q)
      case None => None
      case Some(k) =>
        match ReceiveAll(q[k..], n - 1)
        case None => None
        case Some((mps, rest)) => Some(([Data(q[..k])] + mps, rest))
  }

  // ---- The socket calls ----

  class Socket {
    var queue: seq<Frame>

    method Send(data: bytes, more: bool, ready: bool) returns (ok: bool)
      modifies this
      ensures ok == ready
      ensures queue == if ready then old(queue) + [Frame(data, more)] else old(queue)
    {
      if ready { queue := queue + [Frame(data, more)]; }
      ok := ready;
    }

    method Recv() returns (ok: bool, data: bytes, more: bool)
      modifies this
      ensures ok <==> old(queue) != []
      ensures ok ==> [Frame(data, more)] + queue == old(queue)
      ensures !ok ==> queue == []
    {
      ok, data, more := queue != [], [], false;
      if ok {
        data, more := queue[0].data, queue[0].more;
        queue := queue[1..];
      }
    }
  }

  /** send_multipart: None if the socket refused the first frame. */
  method SendMultipart(s: Socket, msgs: seq<bytes>, sndmore: bool, ready: bool) returns (count: Option<nat>)
    modifies s
    ensures msgs == [] || ready ==> count == Some(|msgs|) && s.queue == old(s.queue) + FramesOf(msgs, sndmore)
    ensures msgs != [] && !ready ==> count == None && s.queue == old(s.queue)
  {
    hide FramesOf;
    var i := 0;
    assert msgs[0..] == msgs;
    while i < |msgs|
      invariant i <= |msgs| && (i > 0 ==> ready) && (i == 0 ==> s.queue == old(s.queue))
      invariant s.queue + FramesOf(msgs[i..], sndmore) == old(s.queue) + FramesOf(msgs, sndmore)
    {
      var last := i + 1 == |msgs|;
      FramesHead(s.queue, msgs[i..], sndmore);
      assert msgs[i..][1..] == msgs[i + 1..];
      var ok := s.Send(msgs[i], sndmore || !last, ready);
      if !ok { return None; }
      i := i + 1;
    }
    assert msgs[i..] == [];
    NoFrames(s.queue);
    return Some(i);
  }

  lemma FramesHead(q: seq<Frame>, msgs: seq<bytes>, sndmore: bool)
    requires msgs != []
    ensures q + FramesOf(msgs, sndmore) == q + [Frame(msgs[0], |msgs| > 1 || sndmore)] + FramesOf(msgs[1..], sndmore)
  {
  }

  lemma NoFrames(q: seq<Frame>)
    ensures forall sndmore :: q + FramesOf([], sndmore) == q
  {
  }

  datatype Received = Got(count: nat) | Again | TooMany

  /**
   recv_multipart and recv_multipart_n: all parts of the next message. With a bound `n`, a
   message of more parts has exactly its first `n` written out, and the exception leaves the
   others pending; a bound of zero throws before anything is read.
   */
  method RecvMultipart(s: Socket, n: Option<nat>) returns (r: Received, out: seq<bytes>)
    requires Atomic(s.queue)
    modifies s
    ensures n == Some(0) ==> r == TooMany && out == [] && s.queue == old(s.queue)
    ensures n != Some(0) && old(s.queue) == [] ==> r == Again && out == [] && s.queue == []
    ensures n != Some(0) && old(s.queue) != [] ==>
              var k := FirstLength(old(s.queue)).value;
              var taken := if n.Some? && n.value < k then n.value else k;
              && r == (if taken == k then Got(k) else TooMany)
              && out == Data(old(s.queue)[..taken]) && s.queue == old(s.queue)[taken..]
  {
    out := [];
    ghost var q := s.queue;
    while true
      invariant |out| <= |q| && s.queue == q[|out|..] && out == Data(q[..|out|])
      invariant Atomic(s.queue) && (n.Some? ==> |out| <= n.value)
      invariant q != [] ==> s.queue != [] && FirstLength(q) == Some(|out| + FirstLength(s.queue).value)
      decreases |s.queue|
    {
      if n.Some? && |out| >= n.value { return TooMany, out; }
      ghost var rest := s.queue;
      var ok, data, more := s.Recv();
      if !ok { return Again, out; }
      assert rest[0] == Frame(data, more) && rest[1..] == s.queue;
      assert Data(q[..|out| + 1]) == Data(q[..|out|]) + [data];
      out := out + [data];
      if !more { return Got(|out|), out; }
    }
  }

  // ---- The multipart object ----

  class MultipartMessage {
    var parts: seq<bytes>

    constructor ()
      ensures parts == []
    {
      parts := [];
    }

    /** The next message replaces the parts; false if there was none. */
    method Recv(s: Socket) returns (ok: bool)
      requires Atomic(s.queue)
      modifies this, s
      ensures ok <==> old(s.queue) != []
      ensures ok ==> var k := FirstLength(old(s.queue)).value;
                     parts == Data(old(s.queue)[..k]) && s.queue == old(s.queue)[k..]
      ensures !ok ==> parts == [] && s.queue == []
    {
      parts := [];
      ghost var q := s.queue;
      var more := true;
      while more
        invariant |parts| <= |q| && s.queue == q[|parts|..] && parts == Data(q[..|parts|])
        invariant more ==> Atomic(s.queue)
        invariant more && q != [] ==> s.queue != [] && FirstLength(q) == Some(|parts| + FirstLength(s.queue).value)
        invariant !more ==> q != [] && FirstLength(q) == Some(|parts|)
        decreases more, |s.queue|
      {
        ghost var rest := s.queue;
        var got, data, flag := s.Recv();
        if !got { return false; }
        assert rest[0] == Frame(data, flag) && rest[1..] == s.queue;
        assert Data(q[..|parts| + 1]) == Data(q[..|parts|]) + [data];
        more := flag;
        parts := parts + [data];
      }
      return true;
    }

    /** Every part is taken off as it is sent; a refused first part is lost with its slot. */
    method Send(s: Socket, ready: bool) returns (ok: bool)
      modifies this, s
      ensures ok <==> old(parts) == [] || ready
      ensures ok ==> parts == [] && s.queue == old(s.queue) + FramesOf(old(parts), false)
      ensures !ok ==> parts == old(parts)[1..] && s.queue == old(s.queue)
    {
      hide FramesOf;
      var more := |parts| > 0;
      while more
        invariant more <==> |parts| > 0
        invariant |parts| <= |old(parts)| && parts == old(parts)[|old(parts)| - |parts|..]
        invariant if |parts| < |old(parts)| then ready else s.queue == old(s.queue)
        invariant s.queue + FramesOf(parts, false) == old(s.queue) + FramesOf(old(parts), false)
        decreases |parts|
      {
        FramesHead(s.queue, parts, false);
        var message := parts[0];
        parts := parts[1..];
        more := |parts| > 0;
        var accepted := s.Send(message, more, ready);
        if !accepted { return false; }
      }
      NoFrames(s.queue);
      return true;
    }

    /** Moves the other's parts to the front, last first. */
    method Prepend(other: MultipartMessage)
      requires other != this
      modifies this, other
      ensures parts == old(other.parts) + old(parts) && other.parts == []
    {
      while other.parts != []
        invariant other.parts + parts == old(other.parts) + old(parts)
        decreases |other.parts|
      {
        var n := |other.parts|;
        var last := other.parts[n - 1];
        assert other.parts == other.parts[..n - 1] + [last];
        other.parts := other.parts[..n - 1];
        parts := [last] + parts;
      }
    }

    method Append(other: MultipartMessage)
      requires other != this
      modifies this, other
      ensures parts == old(parts) + old(other.parts) && other.parts == []
    {
      while other.parts != []
        invariant parts + other.parts == old(parts) + old(other.parts)
        decreases |other.parts|
      {
        var first := other.parts[0];
        assert other.parts == [first] + other.parts[1..];
        other.parts := other.parts[1..];
        parts := parts + [first];
      }
    }

    method Clone() returns (multipart: MultipartMessage)
      ensures fresh(multipart) && multipart.parts == parts
    {
      multipart := new MultipartMessage();
      for i := 0 to |parts|
        invariant fresh(multipart) && multipart.parts == parts[..i]
      {
        multipart.parts := multipart.parts + [parts[i]];
      }
    }

    /** operator==: same number of parts, and part by part the same data. */
    method Equal(other: MultipartMessage) returns (same: bool)
      ensures same <==> parts == other.parts
    {
      if |parts| != |other.parts| { return false; }
      for i := 0 to |parts|
        invariant parts[..i] == other.parts[..i]
      {
        if parts[i] != other.parts[i] { return false; }
      }
      return true;
    }

    method DecodeAppend(encoded: bytes) returns (ok: bool)
      modifies this
      ensures ok == C.Decoding(encoded).ok && parts == old(parts) + C.Decoding(encoded).parts
    {
      ok, parts := C.Decode(encoded, parts);
    }
  }

  // ---- The flags ----

  /** Every frame but the last announces another; the last does so for sndmore. */
  lemma {:induction false} FlagsOfMessage(msgs: seq<bytes>, sndmore: bool, i: nat)
    requires i < |msgs|
    ensures FramesOf(msgs, sndmore)[i] == Frame(msgs[i], i < |msgs| - 1 || sndmore)
    decreases |msgs|
  {
    if i == 0 {
    } else {
      FlagsOfMessage(msgs[1..], sndmore, i - 1);
    }
  }

  /** A message ends with the first frame that announces no other. */
  lemma {:induction false} FirstLengthIs(q: seq<Frame>, k: nat)
    requires 0 < k
    ensures FirstLength(q) == Some(k) <==> k <= |q| && !q[k - 1].more && forall i :: 0 <= i < k - 1 ==> q[i].more
    decreases |q|
  {
    if q == [] || !q[0].more {
    } else if k == 1 {
      assert FirstLength(q) != Some(1);
    } else {
      FirstLengthIs(q[1..], k - 1);
      assert forall i :: 1 <= i < k && i < |q| ==> q[1..][i - 1] == q[i];
    }
  }

  // ---- What is sent is what is received ----

  lemma {:induction false} FirstOfSent(msgs: seq<bytes>, rest: seq<Frame>)
    requires msgs != []
    ensures FirstLength(FramesOf(msgs, false) + rest) == Some(|msgs|)
    ensures Data(FramesOf(msgs, false)) == msgs
    decreases |msgs|
  {
    var q := FramesOf(msgs, false) + rest;
    if |msgs| > 1 {
      FirstOfSent(msgs[1..], rest);
      assert q[1..] == FramesOf(msgs[1..], false) + rest;
      assert FramesOf(msgs, false)[1..] == FramesOf(msgs[1..], false);
      assert forall i :: 1 <= i < |msgs| ==> Data(FramesOf(msgs, false))[i] == Data(FramesOf(msgs[1..], false))[i - 1];
    } else {
      assert FramesOf(msgs[1..], false) == [];
    }
  }

  /** Any list of non-empty messages, sent one after the other, is received as it was sent. */
  lemma {:induction false} SendReceive(mps: seq<seq<bytes>>, rest: seq<Frame>)
    requires forall i :: 0 <= i < |mps| ==> mps[i] != []
    ensures ReceiveAll(SendAll(mps) + rest, |mps|) == Some((mps, rest))
    decreases |mps|
  {
    if mps == [] {
      assert SendAll(mps) + rest == rest;
    } else {
      var fs, tail := FramesOf(mps[0], false), SendAll(mps[1..]) + rest;
      assert SendAll(mps) + rest == fs + tail;
      FirstOfSent(mps[0], tail);
      assert (fs + tail)[..|fs|] == fs && (fs + tail)[|fs|..] == tail;
      SendReceive(mps[1..], rest);
      assert [mps[0]] + mps[1..] == mps;
    }
  }

  /** Receiving as often as was sent drains the queue. */
  lemma SendReceiveDrains(mps: seq<seq<bytes>>)
    requires forall i :: 0 <= i < |mps| ==> mps[i] != []
    ensures ReceiveAll(SendAll(mps), |mps|) == Some((mps, []))
  {
    SendReceive(mps, []);
    assert SendAll(mps) + [] == SendAll(mps);
  }

  /** The queue keeps complete messages whatever is sent whole behind them. */
  lemma {:induction false} SendKeepsAtomic(q: seq<Frame>, msgs: seq<bytes>)
    requires Atomic(q)
    ensures Atomic(q + FramesOf(msgs, false))
    decreases |q|
  {
    if q == [] {
      assert q + FramesOf(msgs, false) == FramesOf(msgs, false);
      if msgs != [] {
        FirstOfSent(msgs, []);
        assert FramesOf(msgs, false) + [] == FramesOf(msgs, false);
      }
    } else if q[0].more {
      SendKeepsAtomic(q[1..], msgs);
      assert (q + FramesOf(msgs, false))[1..] == q[1..] + FramesOf(msgs, false);
    }
  }

  /** A message sent with sndmore joins the next: the two are received as one. */
  lemma {:induction false} SndmoreJoins(a: seq<bytes>, b: seq<bytes>)
    requires b != []
    ensures FramesOf(a, true) + FramesOf(b, false) == FramesOf(a + b, false)
    decreases |a|
  {
    hide FramesOf;
    NoFrames([]);
    if a == [] {
      assert a + b == b;
      assert FramesOf(a, true) == [] + FramesOf([], true);
    } else {
      var h := Frame(a[0], true);
      SndmoreJoins(a[1..], b);
      assert (a + b)[1..] == a[1..] + b;
      FramesHead([], a, true);
      FramesHead([], a + b, false);
      assert [] + [h] == [h];
      assert FramesOf(a, true) == [h] + FramesOf(a[1..], true) by {
        assert [] + FramesOf(a, true) == FramesOf(a, true);
      }
      assert FramesOf(a + b, false) == [h] + FramesOf(a[1..] + b, false) by {
        assert [] + FramesOf(a + b, false) == FramesOf(a + b, false);
      }
      assert [h] + FramesOf(a[1..], true) + FramesOf(b, false) == [h] + (FramesOf(a[1..], true) + FramesOf(b, false));
    }
  }
}
