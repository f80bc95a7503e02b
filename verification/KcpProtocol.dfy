/**
 One direction of a connection over unbounded sequence numbers: what is true of
 the sender, the receiver and everything in the network, and that every
 operation keeps it true.

 `stream` is the sequence of fragments of all accepted messages; the segment
 numbered n carries stream[n].
 */
module KcpProtocol {
  import opened Serial
  import opened KcpWire
  import opened KcpModel
  import opened KcpInvariant
  import opened KcpRefine
  import opened KcpPack
  import opened KcpStream

  ghost predicate Carries(stream: seq<Frag>, limit: int, sn: int, frg: int, data: seq<byte>) {
    0 <= sn < limit <= |stream| && stream[sn] == Frag(frg, data)
  }

  /** The sender numbers the stream in order: what is numbered is in flight unchanged, the rest is queued. */
  ghost predicate SenderTrue(stream: seq<Frag>, s: Snd) {
    && 0 <= s.una && 0 <= s.nxt <= |stream|
    && s.queue == stream[s.nxt..]
    && forall i :: 0 <= i < |s.buf| ==> Carries(stream, s.nxt, s.buf[i].sn, s.buf[i].frg, s.buf[i].data)
  }

  /** The receiver holds the stream up to rcv_nxt, all of it but the part already delivered, and true segments beyond. */
  ghost predicate ReceiverTrue(stream: seq<Frag>, sent: int, r: Rcv, taken: int) {
    && 0 <= taken <= r.nxt <= sent <= |stream|
    && r.queue == stream[taken..r.nxt]
    && forall i :: 0 <= i < |r.buf| ==> Carries(stream, sent, r.buf[i].sn, r.buf[i].frg, r.buf[i].data)
  }

  /** The receiver has segment n, delivered, in order, or out of order. */
  ghost predicate Held(r: Rcv, n: int) {
    n < r.nxt || exists i :: 0 <= i < |r.buf| && r.buf[i].sn == n
  }

  ghost predicate InFlight(s: Snd, n: int) {
    exists i :: 0 <= i < |s.buf| && s.buf[i].sn == n
  }

  /** No acknowledged data is lost: whatever has been numbered is still in flight or already held. */
  ghost predicate NothingLost(s: Snd, r: Rcv) {
    forall n :: 0 <= n < s.nxt ==> InFlight(s, n) || Held(r, n)
  }

  /** Every pending acknowledgement is of a segment held. */
  ghost predicate AcksTrue(r: Rcv) {
    forall i :: 0 <= i < |r.acks| ==> 0 <= r.acks[i].sn && Held(r, r.acks[i].sn)
  }

  /** What a segment claims, as data, about the stream of its sender. */
  ghost predicate DataTrue(stream: seq<Frag>, sent: int, p: Pkt) {
    p.cmd == CMD_PUSH ==> Carries(stream, sent, p.sn, p.frg, p.data)
  }

  /** What a segment claims, as acknowledgement, about the receiver that wrote it. */
  ghost predicate AckTrue(r: Rcv, p: Pkt) {
    0 <= p.una <= r.nxt && (p.cmd == CMD_ACK ==> 0 <= p.sn && Held(r, p.sn))
  }

  /** Everything held stays held. */
  ghost predicate Grows(r: Rcv, r': Rcv) {
    r.nxt <= r'.nxt && forall n :: Held(r, n) ==> Held(r', n)
  }

  /** One direction: data from s to r, acknowledgements back. */
  ghost predicate Direction(stream: seq<Frag>, s: Snd, r: Rcv, taken: int) {
    && SenderTrue(stream, s)
    && ReceiverTrue(stream, s.nxt, r, taken)
    && NothingLost(s, r)
    && AcksTrue(r)
  }

  // ---------- consequences ----------

  /** The receiver can be behind the oldest segment in flight only by what it buffers out of order. */
  lemma UnaBounded(s: Snd, r: Rcv)
    requires SndRun(Unbounded, s) && RcvRun(Unbounded, r) && NothingLost(s, r) && s.una > 0
    ensures s.una <= r.nxt + r.wnd
  {
    var n := s.una - 1;
    assert InFlight(s, n) || Held(r, n);
    forall i | 0 <= i < |s.buf|
      ensures s.buf[i].sn != n
    {
      assert SndSns(s.buf)[i] == s.buf[i].sn;
    }
    if n >= r.nxt {
      var i :| 0 <= i < |r.buf| && r.buf[i].sn == n;
      assert RcvSns(r.buf)[i] == n;
    }
  }

  lemma HeldIsSent(stream: seq<Frag>, sent: int, r: Rcv, taken: int, n: int)
    requires ReceiverTrue(stream, sent, r, taken) && Held(r, n)
    ensures n < sent
  {
  }

  // ---------- acknowledgements arrive at the sender ----------

  lemma UnaKeepsDirection(stream: seq<Frag>, s: Snd, r: Rcv, una: int)
    requires SndOk(Unbounded, s) && SenderTrue(stream, s) && NothingLost(s, r) && una <= r.nxt
    ensures var s' := ShrinkBuf(ParseUna(Unbounded, s, una));
            SndOk(Unbounded, s') && SenderTrue(stream, s') && NothingLost(s', r) && s'.nxt == s.nxt
  {
    ParseUnaKeeps(Unbounded, s, una);
    ShrinkBufKeeps(Unbounded, ParseUna(Unbounded, s, una));
    UnaForward(ParseUna(Unbounded, s, una));
    DropLosesNothing(s, r, una);
    DropIsSuffix(Unbounded, s.buf, una);
    hide SndRun, DropBefore, NothingLost, ParseUna;
  }

  lemma DropLosesNothing(s: Snd, r: Rcv, una: int)
    requires NothingLost(s, r) && una <= r.nxt
    ensures NothingLost(ShrinkBuf(ParseUna(Unbounded, s, una)), r)
  {
    hide DropBefore;
    DropIsBelow(s.buf, una);
    DropIsSuffix(Unbounded, s.buf, una);
    var buf := DropBefore(Unbounded, s.buf, una);
    var k := |s.buf| - |buf|;
    forall n | 0 <= n < s.nxt && InFlight(s, n)
      ensures (exists i :: 0 <= i < |buf| && buf[i].sn == n) || n < r.nxt
    {
      var i :| 0 <= i < |s.buf| && s.buf[i].sn == n;
      if i >= k {
        assert buf[i - k].sn == n;
      }
    }
  }

  lemma {:induction false} DropIsBelow(buf: seq<SndSeg>, una: int)
    ensures forall i :: 0 <= i < |buf| - |DropBefore(Unbounded, buf, una)| ==> buf[i].sn < una
  {
    if buf != [] && una - buf[0].sn > 0 {
      DropIsBelow(buf[1..], una);
    }
  }

  lemma AckKeepsDirection(stream: seq<Frag>, s: Snd, r: Rcv, sn: int)
    requires SndOk(Unbounded, s) && SenderTrue(stream, s) && NothingLost(s, r) && Held(r, sn)
    ensures var s' := ShrinkBuf(ParseAck(Unbounded, s, sn));
            SndOk(Unbounded, s') && SenderTrue(stream, s') && NothingLost(s', r) && s'.nxt == s.nxt
  {
    ParseAckKeeps(Unbounded, s, sn);
    ShrinkBufKeeps(Unbounded, ParseAck(Unbounded, s, sn));
    UnaForward(ParseAck(Unbounded, s, sn));
    AckLosesNothing(s, r, sn);
    AckKeepsTrue(stream, s, sn);
    hide SndRun, NothingLost, ParseAck, SenderTrue;
  }

  lemma AckKeepsTrue(stream: seq<Frag>, s: Snd, sn: int)
    requires SenderTrue(stream, s) && 0 <= ShrinkBuf(ParseAck(Unbounded, s, sn)).una
    ensures SenderTrue(stream, ShrinkBuf(ParseAck(Unbounded, s, sn)))
  {
    hide RemoveAcked;
    var at := RemoveAckedShape(Unbounded, s.buf, sn);
  }

  lemma AckLosesNothing(s: Snd, r: Rcv, sn: int)
    requires NothingLost(s, r) && Held(r, sn)
    ensures NothingLost(ShrinkBuf(ParseAck(Unbounded, s, sn)), r)
  {
    hide RemoveAcked;
    var at := RemoveAckedShape(Unbounded, s.buf, sn);
    var buf := RemoveAcked(Unbounded, s.buf, sn);
    forall n | 0 <= n < s.nxt && InFlight(s, n) && n != sn
      ensures exists i :: 0 <= i < |buf| && buf[i].sn == n
    {
      var i :| 0 <= i < |s.buf| && s.buf[i].sn == n;
      assert buf[if i < at then i else i - 1].sn == n;
    }
  }

  // ---------- data arrives at the receiver ----------

  lemma InsertGrows(r: Rcv, seg: RcvSeg)
    ensures Grows(r, Insert(Unbounded, r, seg))
    ensures Held(Insert(Unbounded, r, seg), seg.sn)
    ensures forall n :: Held(Insert(Unbounded, r, seg), n) ==> Held(r, n) || n == seg.sn
  {
    var (at, repeat) := Slot(Unbounded, r.buf, |r.buf|, seg.sn);
    if !repeat {
      var buf := Insert(Unbounded, r, seg).buf;
      assert buf[at] == seg;
      forall i | 0 <= i < |r.buf|
        ensures r.buf[i] == buf[if i < at then i else i + 1]
      {
      }
    }
  }

  lemma {:induction false} DrainTrue(stream: seq<Frag>, sent: int, r: Rcv, taken: int)
    requires ReceiverTrue(stream, sent, r, taken)
    ensures ReceiverTrue(stream, sent, Drain(Unbounded, r), taken) && Grows(r, Drain(Unbounded, r))
    decreases |r.buf|
  {
    if r.buf != [] && r.buf[0].sn == r.nxt && r.nque < r.wnd {
      var r' := DrainOne(Unbounded, r);
      assert stream[taken..r.nxt + 1] == stream[taken..r.nxt] + [stream[r.nxt]];
      DrainTrue(stream, sent, r', taken);
    }
  }

  lemma PushKeepsDirection(stream: seq<Frag>, sent: int, r: Rcv, taken: int, p: Pkt)
    requires RcvOk(Unbounded, r) && ReceiverTrue(stream, sent, r, taken) && AcksTrue(r)
    requires Carries(stream, sent, p.sn, p.frg, p.data)
    ensures var r' := PushPkt(Unbounded, r, p);
            ReceiverTrue(stream, sent, r', taken) && AcksTrue(r') && Grows(r, r')
  {
    var r1, seg := r.(acks := r.acks + [Ack(p.sn, p.ts)]), RcvSeg(p.sn, p.frg, p.data);
    if r.nxt <= p.sn < r.nxt + r.wnd {
      var r2 := Insert(Unbounded, r1, seg);
      InsertGrows(r1, seg);
      DrainTrue(stream, sent, r2, taken);
      AcksDrained(r2);
      GrowsTrans(r1, r2, Drain(Unbounded, r2));
      assert forall n :: Held(r, n) == Held(r1, n);
      hide Insert, Drain;
    }
  }

  lemma {:induction false} AcksDrained(r: Rcv)
    ensures Drain(Unbounded, r).acks == r.acks && Drain(Unbounded, r).wnd == r.wnd
    decreases |r.buf|
  {
    if r.buf != [] && r.buf[0].sn == r.nxt && r.nque < r.wnd {
      AcksDrained(DrainOne(Unbounded, r));
    }
  }

  lemma GrowsTrans(a: Rcv, b: Rcv, c: Rcv)
    requires Grows(a, b) && Grows(b, c)
    ensures Grows(a, c)
  {
  }

  // ---------- sending ----------

  lemma {:induction false} AdmitTrue(stream: seq<Frag>, s: Snd, r: Rcv, cwnd: int, t: Stamp)
    requires SndOk(Unbounded, s) && 0 <= cwnd <= s.wnd
    requires SenderTrue(stream, s) && NothingLost(s, r)
    ensures var s' := Admit(Unbounded, s, cwnd, t);
            SenderTrue(stream, s') && NothingLost(s', r) && s.nxt <= s'.nxt && s'.una == s.una && s'.wnd == s.wnd
    decreases |s.queue|
  {
    if s.nxt - (s.una + cwnd) < 0 && s.queue != [] {
      AdmitOneKeeps(Unbounded, s, cwnd, t);
      AdmitOneTrue(stream, s, r, t);
      AdmitTrue(stream, AdmitOne(Unbounded, s, t), r, cwnd, t);
    }
  }

  lemma AdmitOneTrue(stream: seq<Frag>, s: Snd, r: Rcv, t: Stamp)
    requires SenderTrue(stream, s) && NothingLost(s, r) && s.queue != []
    ensures SenderTrue(stream, AdmitOne(Unbounded, s, t)) && NothingLost(AdmitOne(Unbounded, s, t), r)
  {
    var s' := AdmitOne(Unbounded, s, t);
    assert s'.buf[|s.buf|].sn == s.nxt;
    forall n | 0 <= n < s'.nxt
      ensures InFlight(s', n) || Held(r, n)
    {
      if n < s.nxt && InFlight(s, n) {
        var i :| 0 <= i < |s.buf| && s.buf[i].sn == n;
        assert s'.buf[i].sn == n;
      }
    }
  }

  /** Everything transmitted carries the stream, and acknowledges what the receiver has. */
  lemma {:induction false} TransmitTrue(stream: seq<Frag>, sent: int, r: Rcv, t: Stamp, buf: seq<SndSeg>)
    requires forall i :: 0 <= i < |buf| ==> Carries(stream, sent, buf[i].sn, buf[i].frg, buf[i].data)
    requires t.una == r.nxt && 0 <= r.nxt
    ensures forall p :: p in Transmit(t, buf).pkts ==> DataTrue(stream, sent, p) && AckTrue(r, p)
  {
    if buf != [] {
      var init, seg := buf[..|buf| - 1], buf[|buf| - 1];
      TransmitTrue(stream, sent, r, t, init);
      hide Stamped, Due;
    }
  }

  lemma SentBufTrue(stream: seq<Frag>, s: Snd, r: Rcv, t: Stamp)
    requires SenderTrue(stream, s) && NothingLost(s, r)
    ensures var s' := s.(buf := Transmit(t, s.buf).buf);
            SenderTrue(stream, s') && NothingLost(s', r)
  {
    TransmitSame(t, s.buf);
    var buf := Transmit(t, s.buf).buf;
    forall i | 0 <= i < |buf|
      ensures buf[i].sn == s.buf[i].sn && buf[i].frg == s.buf[i].frg && buf[i].data == s.buf[i].data
    {
    }
    forall n | InFlight(s, n)
      ensures exists i :: 0 <= i < |buf| && buf[i].sn == n
    {
      var i :| 0 <= i < |s.buf| && s.buf[i].sn == n;
      assert buf[i].sn == n;
    }
  }

  lemma ControlTrue(stream: seq<Frag>, sent: int, r: Rcv, askSend: bool, askTell: bool)
    requires AcksTrue(r) && 0 <= r.nxt
    ensures forall p :: p in AckPkts(r) + ProbePkts(r, askSend, askTell) ==> DataTrue(stream, sent, p) && AckTrue(r, p)
  {
  }
}
