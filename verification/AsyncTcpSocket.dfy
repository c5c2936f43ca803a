/**
 * Packets over a byte stream: each packet travels behind its 16-bit length. The operating
 * system's socket takes any part of what it is offered and delivers any part of what is
 * in flight; its answers are parameters.
 */
module AsyncTcpSocket {
  import opened Util
  import opened ByteOrder

  const kMaxPacketSize: nat := 64 * 1024
  const kPacketLenSize: nat := 2
  const kBufSize: nat := kMaxPacketSize + kPacketLenSize
  const EMSGSIZE: int := 90

  type Packet = seq<byte>

  /** What happens at either of two connected ends. */
  datatype Event = SendPacket(p: Packet, taken: int) | Writable(taken: int) | Deliver(count: nat) | ReadFails

  // ---- Frames ------------------------------------------------------------

  function Frame(p: Packet): seq<byte> { SetBE16(|p|) + p }

  function Frames(packets: seq<Packet>): seq<byte> {
    if packets == [] then [] else Frame(packets[0]) + Frames(packets[1..])
  }

  predicate Fit(packets: seq<Packet>) { forall p :: p in packets ==> |p| <= 0xFFFF }

  /** Not yet a whole frame. */
  predicate Incomplete(bytes: seq<byte>) {
    |bytes| < kPacketLenSize || |bytes| < kPacketLenSize + GetBE16(bytes)
  }

  lemma {:induction false} FramesSnoc(packets: seq<Packet>, p: Packet)
    ensures Frames(packets + [p]) == Frames(packets) + Frame(p)
  {
    if packets != [] {
      FramesSnoc(packets[1..], p);
      assert (packets + [p])[1..] == packets[1..] + [p];
    }
  }

  lemma FitSnoc(packets: seq<Packet>, p: Packet)
    requires Fit(packets) && |p| <= 0xFFFF
    ensures Fit(packets + [p])
  {
  }

  /** The length tells where a frame ends: no frame is a proper prefix of another. */
  lemma SameFirstFrame(p: Packet, x: seq<byte>, q: Packet, y: seq<byte>)
    requires |p| <= 0xFFFF && |q| <= 0xFFFF && Frame(p) + x <= Frame(q) + y
    ensures p == q && x <= y
  {
    var s, t := Frame(p) + x, Frame(q) + y;
    UnrolledForms(|p|);
    UnrolledForms(|q|);
    assert SetBE16(|p|) == s[..2] == t[..2] == SetBE16(|q|);
    assert p == s[2..2 + |p|] == t[2..2 + |p|] == q;
    assert x == s[2 + |p|..] && y == t[2 + |p|..];
  }

  lemma WholeFrameIsNotIncomplete(p: Packet, x: seq<byte>)
    requires |p| <= 0xFFFF
    ensures !Incomplete(Frame(p) + x)
  {
    UnrolledForms(|p|);
  }

  /** A frame: the high byte of the length, its low byte, and the packet. */
  lemma FrameMeans(p: Packet)
    requires |p| <= 0xFFFF
    ensures |p| / 256 < 256 && Frame(p) == [|p| / 256, |p| % 256] + p
  {
  }

  lemma FrameNotEmpty(p: Packet)
    ensures |Frame(p)| == 2 + |p|
  {
  }

  /** Frames are a prefix code: what has been cut off a stream of frames is its first packets. */
  lemma {:induction false} FramesPrefix(cut: seq<Packet>, tail: seq<byte>, all: seq<Packet>)
    requires Fit(cut) && Fit(all) && Frames(cut) + tail <= Frames(all)
    ensures cut <= all
    ensures Frames(cut) + tail == Frames(all) && Incomplete(tail) ==> cut == all && tail == []
  {
    hide Frame, Incomplete;
    if cut == [] {
      assert Frames(cut) + tail == tail;
      if all != [] { WholeFrameIsNotIncomplete(all[0], Frames(all[1..])); }
    } else {
      FrameNotEmpty(cut[0]);
      var p, rest := cut[0], Frames(cut[1..]) + tail;
      assert Frames(cut) + tail == Frame(p) + rest;
      assert all != [];
      var q := all[0];
      SameFirstFrame(p, rest, q, Frames(all[1..]));
      FramesPrefix(cut[1..], tail, all[1..]);
      assert cut == [p] + cut[1..] && all == [q] + all[1..];
    }
  }

  lemma BytesConcat(a: seq<byte>, b: seq<byte>, c: seq<byte>)
    ensures a + (b + c) == a + b + c
  {
  }

  lemma IncompleteLeavesRoom(bytes: seq<byte>)
    requires Incomplete(bytes)
    ensures |bytes| < kBufSize - 1
  {
  }

  /** A buffer that starts with a whole frame is that frame and the rest. */
  lemma FrameAtFront(bytes: seq<byte>, packet: Packet)
    requires |bytes| >= 2 && |packet| == GetBE16(bytes) <= |bytes| - 2 && packet == bytes[2..2 + |packet|]
    ensures |packet| <= 0xFFFF && bytes == Frame(packet) + bytes[2 + |packet|..]
  {
    assert SetBE16(|packet|) == bytes[..2];
  }

  /** Bytes are incomplete exactly when they do not start with a frame. */
  lemma IncompleteMeans(bytes: seq<byte>)
    ensures Incomplete(bytes) <==> forall p: Packet, x: seq<byte> :: |p| <= 0xFFFF ==> bytes != Frame(p) + x
  {
    hide Frame;
    forall p: Packet, x: seq<byte> | |p| <= 0xFFFF && bytes == Frame(p) + x ensures !Incomplete(bytes) {
      WholeFrameIsNotIncomplete(p, x);
    }
    if !Incomplete(bytes) {
      var packet := bytes[2..2 + GetBE16(bytes)];
      FrameAtFront(bytes, packet);
    }
  }

  // ---- The socket --------------------------------------------------------

  class AsyncTCPSocket {
    var inbuf_: array<byte>
    var inpos_: nat
    var outbuf_: array<byte>
    var outpos_: nat
    var error_: int
    var delivered_: seq<Packet>        // SignalReadPacket
    var sent_: seq<byte>               // taken by the operating system
    // History
    ghost var accepted_: seq<Packet>   // not dropped
    ghost var received_: seq<byte>     // delivered by the operating system
    ghost var history_: seq<Event>     // the events of a run

    /** Sent and pending bytes are the frames of the packets that were not dropped. */
    ghost predicate ValidOut()
      reads `outbuf_, outbuf_, `outpos_, `sent_, `accepted_
    {
      && outbuf_.Length == kBufSize && outpos_ <= kBufSize && Fit(accepted_)
      && sent_ + outbuf_[..outpos_] == Frames(accepted_)
    }

    /** Received bytes are the frames of the delivered packets and part of one more. */
    ghost predicate ValidIn()
      reads `inbuf_, inbuf_, `inpos_, `delivered_, `received_
    {
      && inbuf_.Length == kBufSize && inpos_ <= kBufSize && Fit(delivered_)
      && received_ == Frames(delivered_) + inbuf_[..inpos_]
    }

    /** Between events the input buffer has room for at least one more byte. */
    ghost predicate Valid()
      reads `outbuf_, outbuf_, `outpos_, `sent_, `accepted_, `inbuf_, inbuf_, `inpos_, `delivered_, `received_
    {
      ValidOut() && ValidIn() && Incomplete(inbuf_[..inpos_]) && inpos_ < kBufSize && inbuf_ != outbuf_
    }

    constructor ()
      ensures Valid() && fresh(inbuf_) && fresh(outbuf_)
      ensures inbuf_.Length == outbuf_.Length == 65538
      ensures error_ == 0 && history_ == [] && outpos_ == 0
      ensures sent_ == [] && accepted_ == [] && received_ == [] && delivered_ == []
    {
      inbuf_, outbuf_ := new byte[kBufSize], new byte[kBufSize];
      inpos_, outpos_, error_ := 0, 0, 0;
      sent_, accepted_, received_, delivered_, history_ := [], [], [], [], [];
    }

    /** Offers the pending bytes; taken is the operating system's answer. */
    method FlushOutBuffer(taken: int) returns (res: int)
      requires outbuf_.Length == kBufSize && outpos_ <= kBufSize
      modifies `outpos_, `sent_, outbuf_
      ensures res == if taken <= old(outpos_) then taken else -1
      ensures res <= 0 ==>
        outpos_ == old(outpos_) && sent_ == old(sent_) && outbuf_[..outpos_] == old(outbuf_[..outpos_])
      ensures res > 0 ==> outpos_ == old(outpos_) - res
      ensures old(sent_) <= sent_
      ensures sent_ + outbuf_[..outpos_] == old(sent_ + outbuf_[..outpos_])
    {
      if taken <= 0 { return taken; }
      if taken > outpos_ { return -1; }
      var pending := outbuf_[..outpos_];
      outpos_ := outpos_ - taken;
      sent_ := sent_ + pending[..taken];
      forall i | 0 <= i < outpos_ { outbuf_[i] := outbuf_[taken + i]; }
      assert outbuf_[..outpos_] == pending[taken..];
      assert pending == pending[..taken] + pending[taken..];
      return taken;
    }

    /** The two appends of Send stay within the buffer for every length that passes its check. */
    method AppendToOutBuffer(bytes: seq<byte>)
      requires outbuf_.Length == kBufSize && outpos_ + |bytes| < kBufSize
      modifies `outpos_, outbuf_
      ensures outpos_ == old(outpos_) + |bytes|
      ensures outbuf_[..outpos_] == old(outbuf_[..outpos_]) + bytes
    {
      forall i | 0 <= i < |bytes| { outbuf_[outpos_ + i] := bytes[i]; }
      outpos_ := outpos_ + |bytes|;
    }

    /**
     * Sends a packet, or drops it without a trace: when earlier bytes are still pending, or
     * when the operating system takes nothing of it.
     */
    method Send(pv: Packet, taken: int) returns (res: int)
      requires Valid() && (|pv| <= kBufSize ==> |pv| <= 0xFFFF)
      modifies `outpos_, `sent_, `accepted_, `error_, outbuf_
      ensures Valid() && old(sent_) <= sent_
      ensures |pv| > kBufSize ==> res == -1 && error_ == EMSGSIZE
      ensures accepted_ == if |pv| <= kBufSize && old(outpos_) == 0 && 0 < taken <= |Frame(pv)|
        then old(accepted_) + [pv] else old(accepted_)
      ensures accepted_ == old(accepted_) ==> sent_ == old(sent_) && outpos_ == old(outpos_)
      // Dropped behind pending bytes or taken in part: the caller is told that all was sent.
      ensures |pv| <= kBufSize ==>
        res == if old(outpos_) > 0 || 0 < taken <= |Frame(pv)| then |pv| else if taken <= 0 then taken else -1
    {
      if |pv| > kBufSize {
        error_ := EMSGSIZE;
        return -1;
      }
      if outpos_ > 0 { return |pv|; }
      hide ValidIn, ValidOut, Frame, Incomplete;
      res := SendFrame(pv, taken);
      if res > 0 { return |pv|; }
    }

    /** With nothing pending: offers the whole frame, and drops it if none of it is taken. */
    method SendFrame(pv: Packet, taken: int) returns (res: int)
      requires ValidOut() && outpos_ == 0 && |pv| <= 0xFFFF
      modifies `outpos_, `sent_, `accepted_, outbuf_
      ensures ValidOut() && old(sent_) <= sent_
      ensures res == if taken <= |Frame(pv)| then taken else -1
      ensures if res > 0 then accepted_ == old(accepted_) + [pv]
              else accepted_ == old(accepted_) && sent_ == old(sent_) && outpos_ == 0
    {
      hide Frames, Fit, Frame;
      FitSnoc(accepted_, pv);
      StageFrame(pv);
      res := FlushOutBuffer(taken);
      if res > 0 { accepted_ := accepted_ + [pv]; } else { ClearOutBuffer(); }
    }

    method ClearOutBuffer()
      requires outbuf_.Length == kBufSize
      modifies `outpos_
      ensures outpos_ == 0 && sent_ + outbuf_[..outpos_] == sent_
    {
      outpos_ := 0;
      assert outbuf_[..0] == [];
    }

    /** Puts a whole frame into the empty output buffer. */
    method StageFrame(pv: Packet)
      requires ValidOut() && outpos_ == 0 && |pv| <= 0xFFFF
      modifies `outpos_, outbuf_
      ensures outbuf_.Length == kBufSize && outpos_ == |Frame(pv)| <= kBufSize
      ensures sent_ == Frames(accepted_)
      ensures sent_ + outbuf_[..outpos_] == Frames(accepted_ + [pv])
    {
      hide Frames, Fit;
      FramesSnoc(accepted_, pv);
      assert sent_ + outbuf_[..0] == sent_;
      AppendToOutBuffer(SetBE16(|pv|));
      AppendToOutBuffer(pv);
      assert outbuf_[..outpos_] == Frame(pv);
    }

    /** The socket became writable; the result says whether the owner may send again. */
    method OnWriteEvent(taken: int) returns (ready: bool)
      requires Valid()
      modifies `outpos_, `sent_, outbuf_
      ensures Valid() && ready == (outpos_ == 0) && old(sent_) <= sent_
      ensures outpos_ == if 0 < taken <= old(outpos_) then old(outpos_) - taken else old(outpos_)
    {
      if outpos_ > 0 { var _ := FlushOutBuffer(taken); }
      return outpos_ == 0;
    }

    /** Cuts whole frames off the front of the input buffer. */
    method ProcessInput()
      requires ValidIn()
      modifies `inpos_, `delivered_, inbuf_
      ensures ValidIn() && Incomplete(inbuf_[..inpos_])
      ensures old(delivered_) <= delivered_
    {
      while true
        invariant ValidIn() && old(delivered_) <= delivered_
        decreases inpos_
      {
        if inpos_ < kPacketLenSize { return; }
        var pktLen := GetBE16(inbuf_[..kPacketLenSize]);
        if inpos_ < kPacketLenSize + pktLen { return; }
        TakeFrame(pktLen);
      }
    }

    /** The first frame is delivered and the rest moves to the front. */
    method TakeFrame(pktLen: nat)
      requires ValidIn() && kPacketLenSize + pktLen <= inpos_ && pktLen == GetBE16(inbuf_[..kPacketLenSize])
      modifies `inpos_, `delivered_, inbuf_
      ensures ValidIn() && old(delivered_) <= delivered_ && inpos_ < old(inpos_)
    {
      hide Frames, Fit, Frame, SetBE16;
      ghost var bytes := inbuf_[..inpos_];
      var packet := inbuf_[kPacketLenSize..kPacketLenSize + pktLen];
      assert packet == bytes[2..2 + pktLen];
      FrameAtFront(bytes, packet);
      FramesSnoc(delivered_, packet);
      FitSnoc(delivered_, packet);
      inpos_ := inpos_ - (kPacketLenSize + pktLen);
      forall i | 0 <= i < inpos_ { inbuf_[i] := inbuf_[kPacketLenSize + pktLen + i]; }
      assert inbuf_[..inpos_] == bytes[kPacketLenSize + pktLen..];
      BytesConcat(Frames(delivered_), Frame(packet), inbuf_[..inpos_]);
      delivered_ := delivered_ + [packet];
    }

    /** Bytes arrive, or reading fails. */
    method OnReadEvent(arrived: Option<seq<byte>>)
      requires Valid() && (arrived.Some? ==> |arrived.value| <= kBufSize - inpos_)
      modifies `inpos_, `delivered_, `received_, inbuf_
      ensures Valid() && old(delivered_) <= delivered_
      ensures received_ == old(received_) + arrived.GetOr([])
    {
      if arrived.None? { return; }
      hide Frames, Incomplete;
      Recv(arrived.value);
      ProcessInput();
      IncompleteLeavesRoom(inbuf_[..inpos_]);
      if inpos_ >= kBufSize {
        assert false;  // the overflow branch is never taken
      }
    }

    /** The operating system writes behind the bytes already buffered. */
    method Recv(bytes: seq<byte>)
      requires ValidIn() && inpos_ + |bytes| <= kBufSize
      modifies `inpos_, `received_, inbuf_
      ensures ValidIn() && received_ == old(received_) + bytes
    {
      hide Frames;
      ghost var before := inbuf_[..inpos_];
      forall i | 0 <= i < |bytes| { inbuf_[inpos_ + i] := bytes[i]; }
      inpos_ := inpos_ + |bytes|;
      received_ := received_ + bytes;
      assert inbuf_[..inpos_] == before + bytes;
      BytesConcat(Frames(delivered_), before, bytes);
    }
  }

  /** What has been sent since joins what was in flight. */
  lemma JoinTail(received: seq<byte>, inFlight: seq<byte>, before: seq<byte>, sent: seq<byte>)
    requires before <= sent && received + inFlight == before
    ensures received + (inFlight + sent[|before|..]) == sent
  {
    BytesConcat(received, inFlight, sent[|before|..]);
  }

  // ---- Two endpoints -----------------------------------------------------

  /**
   * The receiving end has delivered a prefix of the packets the sending end did not drop, in
   * order and byte for byte; all of them once nothing is pending or in flight.
   */
  lemma PacketsArriveInOrder(a: AsyncTCPSocket, b: AsyncTCPSocket)
    requires a.Valid() && b.Valid() && b.received_ <= a.sent_
    ensures b.delivered_ <= a.accepted_
    ensures b.received_ == a.sent_ && a.outpos_ == 0 ==> b.delivered_ == a.accepted_ && b.inpos_ == 0
  {
    var pending := a.outbuf_[..a.outpos_];
    assert a.sent_ <= a.sent_ + pending == Frames(a.accepted_);
    FramesPrefix(b.delivered_, b.inbuf_[..b.inpos_], a.accepted_);
    if a.outpos_ == 0 { assert a.sent_ + pending == a.sent_; }
  }

  /** The two ends of an in-order byte channel and the bytes between them. */
  ghost predicate Linked(a: AsyncTCPSocket, b: AsyncTCPSocket, inFlight: seq<byte>)
    reads a, a.inbuf_, a.outbuf_, b, b.inbuf_, b.outbuf_
  {
    && a != b && {a.inbuf_, a.outbuf_} !! {b.inbuf_, b.outbuf_}
    && a.Valid() && b.Valid() && b.received_ + inFlight == a.sent_
  }

  /** One event at either end. */
  method Step(a: AsyncTCPSocket, b: AsyncTCPSocket, inFlight: seq<byte>, event: Event) returns (left: seq<byte>)
    requires Linked(a, b, inFlight) && (event.SendPacket? ==> |event.p| <= 0xFFFF)
    modifies a, b, a.outbuf_, b.inbuf_
    ensures Linked(a, b, left)
    ensures a.outbuf_ == old(a.outbuf_) && a.inbuf_ == old(a.inbuf_)
    ensures b.outbuf_ == old(b.outbuf_) && b.inbuf_ == old(b.inbuf_)
    ensures old(b.delivered_) <= b.delivered_ && a.history_ == old(a.history_) + [event]
    ensures match event {
      case SendPacket(p, taken) =>
        b.received_ == old(b.received_) && a.accepted_ ==
          if old(a.outpos_) == 0 && 0 < taken <= |Frame(p)| then old(a.accepted_) + [p] else old(a.accepted_)
      case Writable(taken) =>
        b.received_ == old(b.received_) && a.accepted_ == old(a.accepted_)
        && a.outpos_ == if 0 < taken <= old(a.outpos_) then old(a.outpos_) - taken else old(a.outpos_)
      case Deliver(count) =>
        var n := Min(count, Min(|inFlight|, kBufSize - old(b.inpos_)));
        b.received_ == old(b.received_) + inFlight[..n] && left == inFlight[n..] && a.accepted_ == old(a.accepted_)
      case ReadFails => b.received_ == old(b.received_) && left == inFlight && a.accepted_ == old(a.accepted_)
    }
  {
    hide AsyncTCPSocket.ValidOut, AsyncTCPSocket.ValidIn, Incomplete, Frame;
    var before := a.sent_;
    left := inFlight;
    match event {
      case SendPacket(p, taken) =>
        var _ := a.Send(p, taken);
        JoinTail(b.received_, left, before, a.sent_);
        left := left + a.sent_[|before|..];
      case Writable(taken) =>
        var _ := a.OnWriteEvent(taken);
        JoinTail(b.received_, left, before, a.sent_);
        left := left + a.sent_[|before|..];
      case Deliver(count) =>
        var n := Min(count, Min(|left|, kBufSize - b.inpos_));
        BytesConcat(b.received_, left[..n], left[n..]);
        assert left == left[..n] + left[n..];
        b.OnReadEvent(Some(left[..n]));
        left := left[n..];
      case ReadFails =>
        b.OnReadEvent(None);
        BytesConcat(b.received_, [], left);
    }
    a.history_ := a.history_ + [event];
  }

  /** Every run of two connected endpoints, whatever the network and the operating systems do. */
  method Run(events: seq<Event>) returns (a: AsyncTCPSocket, b: AsyncTCPSocket, inFlight: seq<byte>)
    requires forall e :: e in events && e.SendPacket? ==> |e.p| <= 0xFFFF
    ensures Linked(a, b, inFlight) && a.history_ == events
    ensures b.delivered_ <= a.accepted_
    ensures inFlight == [] && a.outpos_ == 0 ==> b.delivered_ == a.accepted_
  {
    a := new AsyncTCPSocket();
    b := new AsyncTCPSocket();
    hide AsyncTCPSocket.Valid;
    inFlight := [];
    for i := 0 to |events|
      invariant Linked(a, b, inFlight) && a.history_ == events[..i]
      invariant fresh(a) && fresh(b) && fresh(a.outbuf_) && fresh(b.inbuf_)
    {
      inFlight := Step(a, b, inFlight, events[i]);
    }
    PacketsArriveInOrder(a, b);
    assert inFlight == [] ==> b.received_ + inFlight == b.received_;
  }
}
