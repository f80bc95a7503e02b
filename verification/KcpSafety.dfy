/**
 End-to-end safety: in every run, the messages delivered by one endpoint are a
 prefix of the messages accepted by the other, bytes and boundaries intact, and
 no acknowledged data is ever lost.
 */
module KcpSafety {
  import opened Serial
  import opened KcpWire
  import opened KcpModel
  import opened KcpInvariant
  import opened KcpRefine
  import opened KcpPack
  import opened KcpStream
  import opened KcpProtocol
  import opened KcpSystem

  lemma LinkedUsable(e: Endpoint)
    requires Linked(e)
    ensures Usable(e) && e.k.Mss() == e.u.Mss()
  {
  }

  lemma SentWithinStream(x: Endpoint, y: Endpoint)
    requires x.u.Mss() > 0 && Flow(x, y)
    ensures 0 <= x.u.snd.nxt <= |StreamOf(x)|
  {
  }

  // ---------- ikcp_send ----------

  lemma StreamExtends(stream: seq<Frag>, s: Snd, r: Rcv, taken: int, more: seq<Frag>)
    requires Direction(stream, s, r, taken)
    ensures Direction(stream + more, s.(queue := s.queue + more, nque := s.nque + |more|), r, taken)
  {
    var stream' := stream + more;
    assert stream'[s.nxt..] == stream[s.nxt..] + more;
    assert stream'[taken..r.nxt] == stream[taken..r.nxt];
  }

  lemma SendKeepsPair(me: Endpoint, ot: Endpoint, out: set<Datagram>, inbox: set<Datagram>, msg: Msg)
    requires Pair(me, ot, out, inbox)
    ensures Pair(Act(me, SendMsg(msg)).0, ot, out, inbox)
  {
    hide SndRun, RcvRun, Fragment, Direction, DatagramTrue, AllFrags, WrapSnd, WrapRcv, FragCount;
    LinkedUsable(me);
    SentWithinStream(me, ot);
    var me' := Act(me, SendMsg(msg)).0;
    SendWraps(me.u, msg);
    SendKeeps(Unbounded, me.u, msg);
    if Send(me.u, msg).1 == 0 {
      AllFragsSnoc(me.accepted, msg, me.u.Mss());
      StreamExtends(StreamOf(me), me.u.snd, ot.u.rcv, |AllFrags(ot.delivered, me.u.Mss())|, FragsOf(msg, me.u.Mss()));
    }
    GrowsRefl(me.u.rcv);
    NetGrows(me, me', out);
  }

  // ---------- ikcp_recv ----------

  /** Taking one message from a receiver that is true to the stream. */
  lemma TakeMessage(msgs: seq<Msg>, m: nat, mss: int, sent: int, r: Rcv)
    requires mss > 0 && m <= |msgs| && r.queue != [] && r.nque == |r.queue| && Peeksize(r) >= 0
    requires ReceiverTrue(AllFrags(msgs, mss), sent, r, |AllFrags(msgs[..m], mss)|)
    ensures m < |msgs|
    ensures var n := HeadCount(r.queue);
            && n <= |r.queue| && Joined(r.queue[..n]) == msgs[m]
            && Peeksize(r) == |msgs[m]|
            && ReceiverTrue(AllFrags(msgs, mss), sent, r.(queue := r.queue[n..], nque := r.nque - n),
                            |AllFrags(msgs[..m + 1], mss)|)
  {
    hide AllFrags, FragsOf, Carries, HeadCount, Joined, Peeksize;
    var stream, taken := AllFrags(msgs, mss), |AllFrags(msgs[..m], mss)|;
    assert msgs[..|msgs|] == msgs;
    StreamSplits(msgs, m, mss);
    var f := FragsOf(msgs[m], mss);
    var rest := stream[taken + |f|..];
    assert stream[taken..] == f + rest;
    assert r.queue == stream[taken..][..r.nxt - taken];
    PeekMessage(r, msgs[m], mss, rest);
    assert r.queue[|f|..] == stream[taken + |f|..r.nxt];
  }

  lemma RecvFlow(x: Endpoint, y: Endpoint, len: int)
    requires x.u.Mss() > 0 && Flow(x, y) && RcvOk(Unbounded, y.u.rcv)
    ensures var (u, rc, msg) := Recv(Unbounded, y.u, len);
            var y' := y.(u := u, delivered := if rc >= 0 && len >= 0 then y.delivered + [msg] else y.delivered);
            Flow(x, y') && Grows(y.u.rcv, u.rcv)
  {
    hide Drain, HeadCount, Joined, SenderTrue, AllFrags;
    var r, mss := y.u.rcv, x.u.Mss();
    var m := |y.delivered|;
    GrowsRefl(r);
    if Recv(Unbounded, y.u, len).1 >= 0 {
      assert y.delivered == x.accepted[..m];
      TakeMessage(x.accepted, m, mss, x.u.snd.nxt, r);
      assert x.accepted[..m + 1] == y.delivered + [x.accepted[m]];
      var n := HeadCount(r.queue);
      var taken := if len < 0 then r else r.(queue := r.queue[n..], nque := r.nque - n);
      var done := if len < 0 then m else m + 1;
      AfterTake(x, taken, r, |AllFrags(x.accepted[..done], mss)|);
    } else {
      assert Recv(Unbounded, y.u, len).0 == y.u;
    }
  }

  /** Draining after a message is taken. */
  lemma AfterTake(x: Endpoint, r: Rcv, before: Rcv, taken: int)
    requires x.u.Mss() > 0 && ReceiverTrue(StreamOf(x), x.u.snd.nxt, r, taken)
    requires SenderTrue(StreamOf(x), x.u.snd) && NothingLost(x.u.snd, before) && AcksTrue(before)
    requires r == before.(queue := r.queue, nque := r.nque)
    ensures Direction(StreamOf(x), x.u.snd, Drain(Unbounded, r), taken)
    ensures Grows(before, Drain(Unbounded, r)) && Drain(Unbounded, r).wnd == before.wnd
  {
    assert Grows(before, r);
    DrainTrue(StreamOf(x), x.u.snd.nxt, r, taken);
    AcksDrained(r);
    GrowsTrans(before, r, Drain(Unbounded, r));
  }

  lemma RecvKeepsPair(me: Endpoint, ot: Endpoint, out: set<Datagram>, inbox: set<Datagram>, len: int)
    requires Pair(me, ot, out, inbox)
    ensures Pair(Act(me, RecvMsg(len)).0, ot, out, inbox)
  {
    hide WrapKcb, SndRun, RcvRun, Recv, Direction, NetTrue, DatagramTrue, AllFrags, Joined, HeadCount;
    LinkedUsable(me);
    SentWithinStream(me, ot);
    var me' := Act(me, RecvMsg(len)).0;
    RecvWraps(me.u, len);
    RecvKeeps(Unbounded, me.u, len);
    RecvFlow(ot, me, len);
    RecvOnlyReceives(me.u, len);
    NetGrows(me, me', out);
  }

  lemma RecvOnlyReceives(u: Kcb, len: int)
    ensures var u' := Recv(Unbounded, u, len).0;
            && u'.snd == u.snd && u'.mtu == u.mtu && u'.conv == u.conv && u'.rcv.wnd == u.rcv.wnd
            && u'.ctl.rmtWnd == u.ctl.rmtWnd
  {
    var n := HeadCount(u.rcv.queue);
    AcksDrained(u.rcv);
    AcksDrained(u.rcv.(queue := u.rcv.queue[n..], nque := u.rcv.nque - n));
    hide Drain, Joined, HeadCount;
  }

  // ---------- ikcp_input ----------

  /** Both directions, seen from k: its data flowing to ot, and ot's data flowing to it. */
  ghost predicate Halves(mine: seq<Frag>, theirs: seq<Frag>, k: Kcb, ot: Kcb, takenMe: int, takenOt: int) {
    && KcbOk(Unbounded, k) && Narrow(k) && SndRun(Unbounded, ot.snd) && Narrow(ot)
    && Direction(mine, k.snd, ot.rcv, takenOt)
    && Direction(theirs, ot.snd, k.rcv, takenMe)
  }

  /** A true segment that is recent is fresh: nothing is ever too far ahead. */
  lemma TrueRecentIsFresh(mine: seq<Frag>, theirs: seq<Frag>, k: Kcb, ot: Kcb, takenMe: int, takenOt: int, p: Pkt)
    requires Halves(mine, theirs, k, ot, takenMe, takenOt)
    requires TrueFrom(theirs, ot.snd.nxt, ot.rcv, p) && RecentPkt(k, p)
    ensures FreshPkt(k, p)
  {
    if p.cmd == CMD_ACK {
      HeldIsSent(mine, k.snd.nxt, ot.rcv, takenOt, p.sn);
    }
    if p.cmd == CMD_PUSH && ot.snd.una > 0 {
      UnaBounded(ot.snd, k.rcv);
    }
  }

  lemma ApplySender(mine: seq<Frag>, s: Snd, r: Rcv, taken: int, p: Pkt)
    requires SndOk(Unbounded, s) && Direction(mine, s, r, taken) && AckTrue(r, p)
    ensures var s1 := ShrinkBuf(ParseUna(Unbounded, s, p.una));
            var s2 := if p.cmd == CMD_ACK then ShrinkBuf(ParseAck(Unbounded, s1, p.sn)) else s1;
            Direction(mine, s2, r, taken) && s2.nxt == s.nxt && s2.wnd == s.wnd
  {
    hide ParseUna, ParseAck, SndRun;
    UnaKeepsDirection(mine, s, r, p.una);
    if p.cmd == CMD_ACK {
      AckKeepsDirection(mine, ShrinkBuf(ParseUna(Unbounded, s, p.una)), r, p.sn);
    }
    AckSideKeepsWnd(s, p);
  }

  lemma AckSideKeepsWnd(s: Snd, p: Pkt)
    ensures ShrinkBuf(ParseUna(Unbounded, s, p.una)).wnd == s.wnd
    ensures var s1 := ShrinkBuf(ParseUna(Unbounded, s, p.una)); ShrinkBuf(ParseAck(Unbounded, s1, p.sn)).wnd == s.wnd
  {
  }

  lemma ApplyReceiver(theirs: seq<Frag>, s: Snd, r: Rcv, taken: int, p: Pkt)
    requires RcvOk(Unbounded, r) && Direction(theirs, s, r, taken) && DataTrue(theirs, s.nxt, p)
    ensures var r' := if p.cmd == CMD_PUSH then PushPkt(Unbounded, r, p) else r;
            Direction(theirs, s, r', taken) && Grows(r, r') && r'.wnd == r.wnd
  {
    hide PushPkt;
    if p.cmd == CMD_PUSH {
      PushKeepsDirection(theirs, s.nxt, r, taken, p);
      PushKeepsWnd(r, p);
    } else {
      GrowsRefl(r);
    }
  }

  lemma PushKeepsWnd(r: Rcv, p: Pkt)
    ensures PushPkt(Unbounded, r, p).wnd == r.wnd
  {
    var r1, seg := r.(acks := r.acks + [Ack(p.sn, p.ts)]), RcvSeg(p.sn, p.frg, p.data);
    AcksDrained(Insert(Unbounded, r1, seg));
    hide Drain;
  }

  lemma ApplyTrue(mine: seq<Frag>, theirs: seq<Frag>, sc: Scan, ot: Kcb, takenMe: int, takenOt: int, p: Pkt)
    requires Halves(mine, theirs, sc.k, ot, takenMe, takenOt)
    requires TrueFrom(theirs, ot.snd.nxt, ot.rcv, p) && FreshPkt(sc.k, p) && 0 <= p.wnd < 0x1_0000
    ensures var k' := Apply(Unbounded, sc, p).k;
            && Halves(mine, theirs, k', ot, takenMe, takenOt)
            && Grows(sc.k.rcv, k'.rcv) && Steady(sc.k, k')
  {
    ApplySender(mine, sc.k.snd, ot.rcv, takenOt, p);
    ApplyReceiver(theirs, ot.snd, sc.k.rcv, takenMe, p);
    ApplyKeeps(Unbounded, sc, p);
    ApplyNarrow(sc, p);
    hide Apply, ShrinkBuf, ParseUna, ParseAck, PushPkt, Direction, KcbOk, SndRun;
  }

  lemma ApplyNarrow(sc: Scan, p: Pkt)
    requires KcbOk(Unbounded, sc.k) && Narrow(sc.k) && 0 <= p.wnd < 0x1_0000
    ensures Narrow(Apply(Unbounded, sc, p).k)
  {
    ApplyUna(sc, p);
    PushKeepsWnd(sc.k.rcv, p);
    ApplyRmtWnd(sc, p);
    hide Apply, PushPkt;
  }

  lemma ApplyRmtWnd(sc: Scan, p: Pkt)
    ensures Apply(Unbounded, sc, p).k.ctl.rmtWnd == Wrap(p.wnd)
    ensures Apply(Unbounded, sc, p).k.rcv == if p.cmd == CMD_PUSH then PushPkt(Unbounded, sc.k.rcv, p) else sc.k.rcv
  {
    hide PushPkt, ParseUna, ParseAck, ShrinkBuf, Wrap;
  }

  /** Input does not number segments, and no operation changes the configuration. */
  ghost predicate Steady(k: Kcb, k': Kcb) {
    SameConfig(k, k') && k'.snd.nxt == k.snd.nxt
  }

  ghost predicate SameConfig(k: Kcb, k': Kcb) {
    k'.conv == k.conv && k'.mtu == k.mtu && k'.snd.wnd == k.snd.wnd && k'.rcv.wnd == k.rcv.wnd
  }

  lemma {:induction false} ApplyAllTrue(mine: seq<Frag>, theirs: seq<Frag>, sc: Scan, ot: Kcb, takenMe: int,
                                        takenOt: int, pkts: seq<Pkt>)
    requires Halves(mine, theirs, sc.k, ot, takenMe, takenOt)
    requires forall p :: p in pkts ==> TrueFrom(theirs, ot.snd.nxt, ot.rcv, p) && 0 <= p.wnd < 0x1_0000
    requires RecentAll(sc, pkts)
    ensures FreshAll(sc, pkts)
    ensures var k' := ApplyAll(Unbounded, sc, pkts).k;
            && Halves(mine, theirs, k', ot, takenMe, takenOt)
            && Grows(sc.k.rcv, k'.rcv) && Steady(sc.k, k')
    decreases |pkts|
  {
    hide Apply, Halves, TrueFrom, RecentPkt, FreshPkt, Grows;
    GrowsRefl(sc.k.rcv);
    if pkts != [] {
      TrueRecentIsFresh(mine, theirs, sc.k, ot, takenMe, takenOt, pkts[0]);
      ApplyTrue(mine, theirs, sc, ot, takenMe, takenOt, pkts[0]);
      var sc1 := Apply(Unbounded, sc, pkts[0]);
      ApplyAllTrue(mine, theirs, sc1, ot, takenMe, takenOt, pkts[1..]);
      GrowsTrans(sc.k.rcv, sc1.k.rcv, ApplyAll(Unbounded, sc, pkts).k.rcv);
    }
  }

  lemma FinishTrue(mine: seq<Frag>, theirs: seq<Frag>, prevUna: int, sc: Scan, ot: Kcb, takenMe: int, takenOt: int)
    requires Halves(mine, theirs, sc.k, ot, takenMe, takenOt)
    ensures var k' := FinishInput(Unbounded, prevUna, sc);
            Halves(mine, theirs, k', ot, takenMe, takenOt) && k'.rcv == sc.k.rcv && Steady(sc.k, k')
  {
    FinishInputKeeps(Unbounded, prevUna, sc);
    FastackTrue(mine, sc.k.snd, ot.rcv, sc.maxack);
    hide FinishInput, SndRun, RcvRun, KcbOk, ParseFastack, SenderTrue, NothingLost, AcksTrue, ReceiverTrue;
  }

  lemma FastackTrue(mine: seq<Frag>, s: Snd, r: Rcv, sn: int)
    requires SenderTrue(mine, s) && NothingLost(s, r)
    ensures var s' := ParseFastack(Unbounded, s, sn);
            SenderTrue(mine, s') && NothingLost(s', r) && s'.nxt == s.nxt && s'.wnd == s.wnd
  {
    hide BumpBefore;
    BumpBeforeSame(Unbounded, s.buf, sn);
    var buf := BumpBefore(Unbounded, s.buf, sn);
    forall n | InFlight(s, n)
      ensures exists i :: 0 <= i < |buf| && buf[i].sn == n
    {
      var i :| 0 <= i < |s.buf| && s.buf[i].sn == n;
      assert buf[i].sn == n;
    }
  }

  lemma InputTrue(mine: seq<Frag>, theirs: seq<Frag>, k: Kcb, ot: Kcb, takenMe: int, takenOt: int, pkts: seq<Pkt>)
    requires Halves(mine, theirs, k, ot, takenMe, takenOt)
    requires forall p :: p in pkts ==> TrueFrom(theirs, ot.snd.nxt, ot.rcv, p) && 0 <= p.wnd < 0x1_0000
    requires RecentAll(Scan(k, false, 0), pkts)
    ensures FreshAll(Scan(k, false, 0), pkts)
    ensures var k' := Input(Unbounded, k, Parsed(pkts, 0));
            Halves(mine, theirs, k', ot, takenMe, takenOt) && Grows(k.rcv, k'.rcv) && Steady(k, k')
  {
    hide ApplyAll, FinishInput, Direction, SndRun, RcvRun, TrueFrom, Grows;
    ApplyAllTrue(mine, theirs, Scan(k, false, 0), ot, takenMe, takenOt, pkts);
    FinishTrue(mine, theirs, k.snd.una, ApplyAll(Unbounded, Scan(k, false, 0), pkts), ot, takenMe, takenOt);
  }

  /** The other endpoint's view of what it has delivered, as a count of fragments. */
  ghost function TakenBy(y: Endpoint, x: Endpoint): int
    requires x.u.Mss() > 0
  {
    |AllFrags(y.delivered, x.u.Mss())|
  }

  lemma PairHalves(me: Endpoint, ot: Endpoint, out: set<Datagram>, inbox: set<Datagram>)
    requires Pair(me, ot, out, inbox)
    ensures Halves(StreamOf(me), StreamOf(ot), me.u, ot.u, TakenBy(me, ot), TakenBy(ot, me))
  {
    hide Direction, RcvRun, NetTrue;
  }

  /** An endpoint whose protocol state moved on, with the same messages accepted and delivered. */
  lemma MovedPair(me: Endpoint, u': Kcb, ot: Endpoint, out: set<Datagram>, inbox: set<Datagram>)
    requires Pair(me, ot, out, inbox)
    requires Halves(StreamOf(me), StreamOf(ot), u', ot.u, TakenBy(me, ot), TakenBy(ot, me))
    requires SameConfig(me.u, u') && me.u.snd.nxt <= u'.snd.nxt && Grows(me.u.rcv, u'.rcv)
    ensures Pair(me.(k := WrapKcb(u'), u := u'), ot, out, inbox)
  {
    hide Direction, SndRun, RcvRun, DatagramTrue, Grows, AllFrags, WrapSnd, WrapRcv;
    var me' := me.(k := WrapKcb(u'), u := u');
    assert StreamOf(me') == StreamOf(me);
    SentIn(StreamOf(me), u'.snd, ot.u.rcv, TakenBy(ot, me));
    NetGrows(me, me', out);
  }

  lemma SentIn(stream: seq<Frag>, s: Snd, r: Rcv, taken: int)
    requires Direction(stream, s, r, taken)
    ensures 0 <= s.nxt <= |stream|
  {
  }

  lemma ArriveKeepsPair(me: Endpoint, ot: Endpoint, out: set<Datagram>, inbox: set<Datagram>, d: Datagram)
    requires Pair(me, ot, out, inbox) && Enabled(me, inbox, Arrive(d))
    ensures Usable(me) && Act(me, Arrive(d)).1 == []
    ensures Pair(Act(me, Arrive(d)).0, ot, out, inbox)
  {
    hide Direction, SndRun, RcvRun, TrueFrom, AllFrags, WrapSnd, WrapRcv, Input, Parse, RecentAll, FreshAll, Grows, Halves;
    LinkedUsable(me);
    PairHalves(me, ot, out, inbox);
    assert DatagramTrue(ot.u.conv, StreamOf(ot), ot.u.snd.nxt, ot.u.rcv, d);
    InputTrue(StreamOf(me), StreamOf(ot), me.u, ot.u, TakenBy(me, ot), TakenBy(ot, me), d.pkts);
    InputWraps(me.u, d.pkts, 0);
    MovedPair(me, Input(Unbounded, me.u, Parsed(d.pkts, 0)), ot, out, inbox);
  }

  // ---------- ikcp_flush ----------

  lemma FlushTrue(mine: seq<Frag>, theirs: seq<Frag>, k: Kcb, ot: Kcb, takenMe: int, takenOt: int)
    requires Halves(mine, theirs, k, ot, takenMe, takenOt)
    ensures var (k', pkts) := Flush(Unbounded, k);
            && Halves(mine, theirs, k', ot, takenMe, takenOt)
            && k.snd.nxt <= k'.snd.nxt && Grows(k.rcv, k'.rcv) && SameConfig(k, k')
            && forall p :: p in pkts ==> TrueFrom(mine, k'.snd.nxt, k'.rcv, p)
  {
    GrowsRefl(k.rcv);
    if k.ctl.updated {
      hide Flush, Admit, Transmit, ProbeTimer, SendWindow, AckPkts, ProbePkts, SndRun, RcvRun, DataTrue;
      var c := ProbeTimer(k.ctl);
      var t := StampOf(k.rcv, c);
      var cwnd := SendWindow(k.snd, c);
      SendWindowBound(k.snd, c);
      var s := Admit(Unbounded, k.snd, cwnd, t);
      AdmitTrue(mine, k.snd, ot.rcv, cwnd, t);
      SentBufTrue(mine, s, ot.rcv, t);
      TransmitTrue(mine, s.nxt, k.rcv, t, s.buf);
      ControlTrue(mine, s.nxt, k.rcv, c.askSend, c.askTell);
      FlushKeeps(Unbounded, k);
      FlushParts(Unbounded, k);
      AfterAcksSent(k.rcv);
      FlushNarrow(k);
      hide Narrow;
    } else {
      assert Flush(Unbounded, k) == (k, []);
    }
  }

  lemma {:induction false} AdmitNarrow(s: Snd, cwnd: int, t: Stamp)
    requires cwnd < 0x1_0000 && s.nxt - s.una < 0x1_0000
    ensures var s' := Admit(Unbounded, s, cwnd, t); s'.nxt - s'.una < 0x1_0000
    decreases |s.queue|
  {
    if s.nxt - (s.una + cwnd) < 0 && s.queue != [] {
      AdmitNarrow(AdmitOne(Unbounded, s, t), cwnd, t);
    }
  }

  lemma FlushNarrow(k: Kcb)
    requires KcbOk(Unbounded, k) && Narrow(k) && k.ctl.updated
    ensures Narrow(Flush(Unbounded, k).0)
  {
    hide Flush, Admit, Transmit, ProbeTimer, StampOf, AckPkts, ProbePkts, RcvRun;
    var c := ProbeTimer(k.ctl);
    var t := StampOf(k.rcv, c);
    ProbeTimerKeeps(k.ctl);
    AdmitNarrow(k.snd, SendWindow(k.snd, c), t);
    FlushKeepsRmtWnd(k);
    FlushParts(Unbounded, k);
  }

  lemma FlushKeepsRmtWnd(k: Kcb)
    requires 0 < k.Mss() < WORD && 0 <= k.snd.wnd
    ensures Flush(Unbounded, k).0.ctl.rmtWnd == k.ctl.rmtWnd
  {
    ProbeTimerKeeps(k.ctl);
    hide Admit, Transmit, AfterFlush, StampOf, SendWindow, AckPkts, ProbePkts, ProbeTimer, Wrap;
  }

  lemma AfterAcksSent(r: Rcv)
    ensures var r' := r.(acks := []); Grows(r, r') && AcksTrue(r') && forall p :: AckTrue(r, p) ==> AckTrue(r', p)
  {
  }

  lemma StreamSized(x: Endpoint, y: Endpoint)
    requires Linked(x) && Flow(x, y)
    ensures Sized(x.u)
  {
    StreamFragsOk(x.accepted, x.u.Mss());
    hide AllFrags, SndRun, RcvRun, NothingLost, ReceiverTrue, AcksTrue;
  }

  /** The emitted datagrams are true, and stand for the segments beside them. */
  lemma EmittedTrue(conv: u32, mtu: int, pkts: seq<Pkt>, stream: seq<Frag>, sent: int, r: Rcv)
    requires 0 < mtu < HALF
    requires forall p :: p in pkts ==> TrueFrom(stream, sent, r, p)
    requires forall i :: 0 <= i < |pkts| ==> Wireable(pkts[i]) && pkts[i].Size() <= mtu
    ensures forall d :: d in Emitted(conv, mtu, WrapPkts(pkts), pkts) ==> DatagramTrue(conv, stream, sent, r, d)
  {
    assert forall p :: p in pkts ==> 0 <= p.wnd < 0x1_0000;
    hide TrueFrom, Wireable, Parse, Pack, EncodeAll;
    GroupedWraps(mtu, pkts);
    GroupedFlattens(mtu, pkts);
    GroupedFits(mtu, pkts);
    var groups := Grouped(mtu, pkts);
    var out := Emitted(conv, mtu, WrapPkts(pkts), pkts);
    forall i | 0 <= i < |out|
      ensures DatagramTrue(conv, stream, sent, r, out[i])
    {
      EncodeAllWraps(conv, groups[i]);
      assert Fits(mtu, groups[i]);
      forall j | 0 <= j < |groups[i]|
        ensures groups[i][j] in pkts
      {
        FlattenMember(groups, i, j);
      }
      ReadsBack(conv, mtu, groups[i]);
      assert out[i] == Datagram(EncodeAll(conv, groups[i]), groups[i]);
    }
  }

  lemma FlushKeepsPair(me: Endpoint, ot: Endpoint, out: set<Datagram>, inbox: set<Datagram>)
    requires Pair(me, ot, out, inbox)
    ensures Usable(me)
    ensures Pair(Act(me, FlushNow).0, ot, out + AsSet(Act(me, FlushNow).1), inbox)
  {
    hide Flush, Direction, SndRun, RcvRun, TrueFrom, AllFrags, WrapSnd, WrapRcv, Grows, Halves, DatagramTrue, Emitted, Sized;
    LinkedUsable(me);
    PairHalves(me, ot, out, inbox);
    FlushTrue(StreamOf(me), StreamOf(ot), me.u, ot.u, TakenBy(me, ot), TakenBy(ot, me));
    FlushWraps(me.u);
    var (u, pkts) := Flush(Unbounded, me.u);
    MovedPair(me, u, ot, out, inbox);
    StreamSized(me, ot);
    FlushFits(Unbounded, me.u);
    EmittedTrue(me.u.conv, me.u.mtu, pkts, StreamOf(me), u.snd.nxt, u.rcv);
  }

  lemma UpdateKeepsPair(me: Endpoint, ot: Endpoint, out: set<Datagram>, inbox: set<Datagram>, now: u32)
    requires Pair(me, ot, out, inbox)
    ensures Usable(me)
    ensures Pair(Act(me, UpdateAt(now)).0, ot, out + AsSet(Act(me, UpdateAt(now)).1), inbox)
  {
    hide Flush, Direction, SndRun, RcvRun, AllFrags, WrapSnd, WrapRcv, DatagramTrue, Tick;
    LinkedUsable(me);
    var (c, due) := Tick(me.u.ctl, now);
    TickKeeps(me.u.ctl, now);
    var me1 := me.(k := me.k.(ctl := c), u := me.u.(ctl := c));
    assert StreamOf(me1) == StreamOf(me);
    assert Pair(me1, ot, out, inbox);
    if due {
      FlushKeepsPair(me1, ot, out, inbox);
      assert Act(me, UpdateAt(now)) == Act(me1, FlushNow);
    } else {
      assert Act(me, UpdateAt(now)) == (me1, []);
      assert out + AsSet([]) == out;
    }
  }

  lemma TickKeeps(c: Ctl, now: u32)
    ensures Tick(c, now).0.interval == c.interval && Tick(c, now).0.updated && Tick(c, now).0.rmtWnd == c.rmtWnd
  {
    hide Wrap, Signed;
  }

}
