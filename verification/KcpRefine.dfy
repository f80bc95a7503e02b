/**
 Wraparound: the 32-bit program simulates, step for step, the same protocol over
 unbounded sequence numbers, as long as no comparison spans half the number
 space.

 Each lemma says that an operation commutes with reducing every sequence number
 modulo 2^32.
 */
module KcpRefine {
  import opened Serial
  import opened KcpWire
  import opened KcpModel
  import opened KcpInvariant

  // ---------- reduction modulo 2^32 ----------

  ghost function WrapSeg(seg: SndSeg): SndSeg {
    seg.(sn := Wrap(seg.sn), una := Wrap(seg.una))
  }

  ghost function WrapSegs(buf: seq<SndSeg>): (r: seq<SndSeg>)
    ensures |r| == |buf| && forall i :: 0 <= i < |buf| ==> r[i] == WrapSeg(buf[i])
  {
    seq(|buf|, i requires 0 <= i < |buf| => WrapSeg(buf[i]))
  }

  ghost function WrapRcvSegs(buf: seq<RcvSeg>): (r: seq<RcvSeg>)
    ensures |r| == |buf| && forall i :: 0 <= i < |buf| ==> r[i] == buf[i].(sn := Wrap(buf[i].sn))
  {
    seq(|buf|, i requires 0 <= i < |buf| => buf[i].(sn := Wrap(buf[i].sn)))
  }

  ghost function WrapAcks(acks: seq<Ack>): (r: seq<Ack>)
    ensures |r| == |acks| && forall i :: 0 <= i < |acks| ==> r[i] == acks[i].(sn := Wrap(acks[i].sn))
  {
    seq(|acks|, i requires 0 <= i < |acks| => acks[i].(sn := Wrap(acks[i].sn)))
  }

  ghost function WrapSnd(s: Snd): Snd {
    s.(una := Wrap(s.una), nxt := Wrap(s.nxt), buf := WrapSegs(s.buf))
  }

  ghost function WrapRcv(r: Rcv): Rcv {
    r.(nxt := Wrap(r.nxt), buf := WrapRcvSegs(r.buf), acks := WrapAcks(r.acks))
  }

  ghost function WrapKcb(k: Kcb): Kcb {
    k.(snd := WrapSnd(k.snd), rcv := WrapRcv(k.rcv))
  }

  ghost function WrapScan(sc: Scan): Scan {
    Scan(WrapKcb(sc.k), sc.acked, Wrap(sc.maxack))
  }

  // ---------- freshness ----------

  /** The comparison of a and b does not span half the number space. */
  ghost predicate Near(a: int, b: int) {
    -HALF <= a - b < HALF
  }

  /** An acknowledgement of something sent, not half the number space ago. */
  ghost predicate FreshAck(s: Snd, sn: int) {
    s.nxt - HALF <= sn <= s.nxt
  }

  ghost predicate FreshData(r: Rcv, sn: int) {
    r.nxt + r.wnd - HALF <= sn < r.nxt + HALF
  }

  ghost predicate FreshPkt(k: Kcb, p: Pkt) {
    && FreshAck(k.snd, p.una)
    && (p.cmd == CMD_ACK ==> FreshAck(k.snd, p.sn) && p.sn < k.snd.nxt)
    && (p.cmd == CMD_PUSH ==> FreshData(k.rcv, p.sn))
  }

  /** Every segment of a datagram is fresh when its turn comes. */
  ghost predicate FreshAll(sc: Scan, pkts: seq<Pkt>)
    decreases |pkts|
  {
    pkts != [] ==> FreshPkt(sc.k, pkts[0]) && FreshAll(Apply(Unbounded, sc, pkts[0]), pkts[1..])
  }

  lemma NearDiff(a: int, b: int)
    requires Near(a, b)
    ensures Wrap32.Diff(Wrap(a), Wrap(b)) == Unbounded.Diff(a, b)
    ensures Wrap(a) == Wrap(b) <==> a == b
  {
    ItimediffExact(a, b);
    WrapInjective(a, b);
  }

  // ---------- the sending half ----------

  lemma {:induction false} DropBeforeWraps(buf: seq<SndSeg>, una: int)
    requires forall i :: 0 <= i < |buf| ==> Near(una, buf[i].sn)
    ensures DropBefore(Wrap32, WrapSegs(buf), Wrap(una)) == WrapSegs(DropBefore(Unbounded, buf, una))
  {
    hide Wrap, Signed;
    if buf != [] {
      NearDiff(una, buf[0].sn);
      assert WrapSegs(buf)[1..] == WrapSegs(buf[1..]);
      DropBeforeWraps(buf[1..], una);
    }
  }

  lemma {:induction false} RemoveAckedWraps(buf: seq<SndSeg>, sn: int)
    requires forall i :: 0 <= i < |buf| ==> Near(sn, buf[i].sn)
    ensures RemoveAcked(Wrap32, WrapSegs(buf), Wrap(sn)) == WrapSegs(RemoveAcked(Unbounded, buf, sn))
  {
    hide Wrap, Signed;
    if buf != [] {
      NearDiff(sn, buf[0].sn);
      assert WrapSegs(buf)[1..] == WrapSegs(buf[1..]);
      if sn != buf[0].sn && sn - buf[0].sn >= 0 {
        RemoveAckedWraps(buf[1..], sn);
        assert [WrapSeg(buf[0])] + WrapSegs(RemoveAcked(Unbounded, buf[1..], sn))
            == WrapSegs([buf[0]] + RemoveAcked(Unbounded, buf[1..], sn));
      }
    }
  }

  lemma {:induction false} BumpBeforeWraps(buf: seq<SndSeg>, sn: int)
    requires forall i :: 0 <= i < |buf| ==> Near(sn, buf[i].sn)
    ensures BumpBefore(Wrap32, WrapSegs(buf), Wrap(sn)) == WrapSegs(BumpBefore(Unbounded, buf, sn))
  {
    hide Wrap, Signed, Bumped;
    if buf != [] {
      NearDiff(sn, buf[0].sn);
      BumpedWraps(buf[0], sn);
      assert WrapSegs(buf)[1..] == WrapSegs(buf[1..]);
      if sn - buf[0].sn >= 0 {
        BumpBeforeWraps(buf[1..], sn);
        var head, rest := Bumped(buf[0], sn), BumpBefore(Unbounded, buf[1..], sn);
        assert WrapSegs([head] + rest) == [WrapSeg(head)] + WrapSegs(rest);
      }
    }
  }

  lemma BumpedWraps(seg: SndSeg, sn: int)
    requires Near(sn, seg.sn)
    ensures Bumped(WrapSeg(seg), Wrap(sn)) == WrapSeg(Bumped(seg, sn))
  {
    NearDiff(sn, seg.sn);
  }

  lemma ParseUnaWraps(s: Snd, una: int)
    requires SndRun(Unbounded, s) && FreshAck(s, una)
    ensures ParseUna(Wrap32, WrapSnd(s), Wrap(una)) == WrapSnd(ParseUna(Unbounded, s, una))
  {
    DropBeforeWraps(s.buf, una);
  }

  lemma ParseAckWraps(s: Snd, sn: int)
    requires SndRun(Unbounded, s) && FreshAck(s, sn)
    ensures ParseAck(Wrap32, WrapSnd(s), Wrap(sn)) == WrapSnd(ParseAck(Unbounded, s, sn))
  {
    NearDiff(sn, s.una);
    NearDiff(sn, s.nxt);
    RemoveAckedWraps(s.buf, sn);
  }

  lemma ParseFastackWraps(s: Snd, sn: int)
    requires SndRun(Unbounded, s) && FreshAck(s, sn)
    ensures ParseFastack(Wrap32, WrapSnd(s), Wrap(sn)) == WrapSnd(ParseFastack(Unbounded, s, sn))
  {
    NearDiff(sn, s.una);
    NearDiff(sn, s.nxt);
    BumpBeforeWraps(s.buf, sn);
  }

  /** The stamp of a segment carries the receiver's next number, reduced. */
  ghost function WrapStamp(t: Stamp): Stamp {
    t.(una := Wrap(t.una))
  }

  lemma {:induction false} AdmitWraps(s: Snd, cwnd: int, t: Stamp)
    requires SndOk(Unbounded, s) && 0 <= cwnd <= s.wnd
    ensures Admit(Wrap32, WrapSnd(s), cwnd, WrapStamp(t)) == WrapSnd(Admit(Unbounded, s, cwnd, t))
    decreases |s.queue|
  {
    WrapOfWrap(s.una, cwnd);
    NearDiff(s.nxt, s.una + cwnd);
    if s.nxt - (s.una + cwnd) < 0 && s.queue != [] {
      AdmitOneKeeps(Unbounded, s, cwnd, t);
      AdmitOneWraps(s, t);
      AdmitWraps(AdmitOne(Unbounded, s, t), cwnd, t);
    }
  }

  lemma AdmitOneWraps(s: Snd, t: Stamp)
    requires s.queue != []
    ensures AdmitOne(Wrap32, WrapSnd(s), WrapStamp(t)) == WrapSnd(AdmitOne(Unbounded, s, t))
  {
    WrapOfWrap(s.nxt, 1);
    assert WrapSegs(s.buf + [Admitted(s, t)]) == WrapSegs(s.buf) + [WrapSeg(Admitted(s, t))];
  }

  ghost function WrapWalk(w: Walk): Walk {
    w.(buf := WrapSegs(w.buf), pkts := WrapPkts(w.pkts))
  }

  lemma {:induction false} TransmitWraps(t: Stamp, buf: seq<SndSeg>)
    ensures Transmit(WrapStamp(t), WrapSegs(buf)) == WrapWalk(Transmit(t, buf))
  {
    if buf != [] {
      var init, seg := buf[..|buf| - 1], buf[|buf| - 1];
      assert WrapSegs(buf)[..|buf| - 1] == WrapSegs(init);
      TransmitWraps(t, init);
      StampedWraps(t, seg);
      var w, out := Transmit(t, init), Stamped(t, seg);
      assert WrapSegs(w.buf + [out]) == WrapSegs(w.buf) + [WrapSeg(out)];
      assert WrapPkts(w.pkts + [PktOf(out)]) == WrapPkts(w.pkts) + [WrapPkt(PktOf(out))];
      hide Stamped, Due;
    }
  }

  lemma StampedWraps(t: Stamp, seg: SndSeg)
    ensures Due(WrapStamp(t), WrapSeg(seg)) == Due(t, seg)
    ensures Stamped(WrapStamp(t), WrapSeg(seg)) == WrapSeg(Stamped(t, seg))
    ensures PktOf(WrapSeg(Stamped(t, seg))) == WrapPkt(PktOf(Stamped(t, seg)))
  {
    hide Wrap, Signed, Itimediff;
  }

  // ---------- the receiving half ----------

  lemma {:induction false} SlotWraps(buf: seq<RcvSeg>, n: nat, sn: int)
    requires n <= |buf| && forall i :: 0 <= i < |buf| ==> Near(sn, buf[i].sn)
    ensures Slot(Wrap32, WrapRcvSegs(buf), n, Wrap(sn)) == Slot(Unbounded, buf, n, sn)
  {
    if n > 0 {
      NearDiff(sn, buf[n - 1].sn);
      SlotWraps(buf, n - 1, sn);
    }
  }

  lemma InsertWraps(r: Rcv, seg: RcvSeg)
    requires forall i :: 0 <= i < |r.buf| ==> Near(seg.sn, r.buf[i].sn)
    ensures Insert(Wrap32, WrapRcv(r), seg.(sn := Wrap(seg.sn))) == WrapRcv(Insert(Unbounded, r, seg))
  {
    SlotWraps(r.buf, |r.buf|, seg.sn);
    var at := Slot(Unbounded, r.buf, |r.buf|, seg.sn).0;
    assert WrapRcvSegs(r.buf[..at] + [seg] + r.buf[at..])
        == WrapRcvSegs(r.buf)[..at] + [seg.(sn := Wrap(seg.sn))] + WrapRcvSegs(r.buf)[at..];
  }

  lemma {:induction false} DrainWraps(r: Rcv)
    requires RcvRun(Unbounded, r)
    ensures Drain(Wrap32, WrapRcv(r)) == WrapRcv(Drain(Unbounded, r))
    decreases |r.buf|
  {
    if r.buf != [] {
      assert RcvSns(r.buf)[0] == r.buf[0].sn;
      WrapInjective(r.buf[0].sn, r.nxt);
      if r.buf[0].sn == r.nxt && r.nque < r.wnd {
        WrapOfWrap(r.nxt, 1);
        assert WrapRcvSegs(r.buf)[1..] == WrapRcvSegs(r.buf[1..]);
        assert DrainOne(Wrap32, WrapRcv(r)) == WrapRcv(DrainOne(Unbounded, r));
        DrainOneKeeps(Unbounded, r);
        DrainWraps(DrainOne(Unbounded, r));
      }
    }
  }

  lemma PushPktWraps(r: Rcv, p: Pkt)
    requires RcvOk(Unbounded, r) && FreshData(r, p.sn)
    ensures PushPkt(Wrap32, WrapRcv(r), WrapPkt(p)) == WrapRcv(PushPkt(Unbounded, r, p))
  {
    WrapOfWrap(r.nxt, r.wnd);
    NearDiff(p.sn, r.nxt + r.wnd);
    NearDiff(p.sn, r.nxt);
    var r1, seg := r.(acks := r.acks + [Ack(p.sn, p.ts)]), RcvSeg(p.sn, p.frg, p.data);
    assert WrapAcks(r1.acks) == WrapAcks(r.acks) + [Ack(Wrap(p.sn), p.ts)];
    hide Insert, Drain, Wrap, Signed;
    if 0 <= p.sn - r.nxt < r.wnd {
      InsertDrainWraps(r1, seg);
    }
  }

  lemma InsertDrainWraps(r: Rcv, seg: RcvSeg)
    requires RcvRun(Unbounded, r) && r.nxt <= seg.sn < r.nxt + r.wnd
    ensures Drain(Wrap32, Insert(Wrap32, WrapRcv(r), seg.(sn := Wrap(seg.sn)))) ==
            WrapRcv(Drain(Unbounded, Insert(Unbounded, r, seg)))
  {
    forall i | 0 <= i < |r.buf|
      ensures Near(seg.sn, r.buf[i].sn)
    {
      assert RcvSns(r.buf)[i] == r.buf[i].sn;
    }
    InsertWraps(r, seg);
    InsertKeeps(Unbounded, r, seg);
    DrainWraps(Insert(Unbounded, r, seg));
  }

  // ---------- whole operations ----------

  lemma UnaWraps(s: Snd, una: int)
    requires SndOk(Unbounded, s) && FreshAck(s, una)
    ensures var s1 := ShrinkBuf(ParseUna(Unbounded, s, una));
            && ShrinkBuf(ParseUna(Wrap32, WrapSnd(s), Wrap(una))) == WrapSnd(s1)
            && SndOk(Unbounded, s1) && s1.nxt == s.nxt
  {
    ParseUnaWraps(s, una);
    ParseUnaKeeps(Unbounded, s, una);
    ShrinkBufKeeps(Unbounded, ParseUna(Unbounded, s, una));
  }

  lemma AckWraps(s: Snd, sn: int)
    requires SndOk(Unbounded, s) && FreshAck(s, sn)
    ensures var s1 := ShrinkBuf(ParseAck(Unbounded, s, sn));
            ShrinkBuf(ParseAck(Wrap32, WrapSnd(s), Wrap(sn))) == WrapSnd(s1) && s1.nxt == s.nxt
  {
    ParseAckWraps(s, sn);
  }

  /** The largest acknowledged number so far is itself a fresh acknowledgement. */
  ghost predicate ScanFresh(sc: Scan) {
    sc.acked ==> FreshAck(sc.k.snd, sc.maxack) && sc.maxack < sc.k.snd.nxt
  }

  lemma ApplyWraps(sc: Scan, p: Pkt)
    requires KcbOk(Unbounded, sc.k) && FreshPkt(sc.k, p) && ScanFresh(sc)
    ensures Apply(Wrap32, WrapScan(sc), WrapPkt(p)) == WrapScan(Apply(Unbounded, sc, p))
    ensures ScanFresh(Apply(Unbounded, sc, p))
  {
    hide ParseUna, ParseAck, ShrinkBuf, PushPkt, UpdateAck, SndRun, RcvRun, Wrap, Signed, Itimediff;
    var s := sc.k.snd;
    UnaWraps(s, p.una);
    var s1 := ShrinkBuf(ParseUna(Unbounded, s, p.una));
    if p.cmd == CMD_ACK {
      AckWraps(s1, p.sn);
      if sc.acked {
        NearDiff(p.sn, sc.maxack);
      }
    } else if p.cmd == CMD_PUSH {
      PushPktWraps(sc.k.rcv, p);
    }
  }

  lemma {:induction false} ApplyAllWraps(sc: Scan, pkts: seq<Pkt>)
    requires KcbOk(Unbounded, sc.k) && FreshAll(sc, pkts) && ScanFresh(sc)
    ensures ApplyAll(Wrap32, WrapScan(sc), WrapPkts(pkts)) == WrapScan(ApplyAll(Unbounded, sc, pkts))
    ensures KcbOk(Unbounded, ApplyAll(Unbounded, sc, pkts).k)
    ensures ScanFresh(ApplyAll(Unbounded, sc, pkts))
    decreases |pkts|
  {
    if pkts != [] {
      ApplyWraps(sc, pkts[0]);
      ApplyKeeps(Unbounded, sc, pkts[0]);
      assert WrapPkts(pkts)[1..] == WrapPkts(pkts[1..]);
      hide Apply, KcbOk, ScanFresh;
      ApplyAllWraps(Apply(Unbounded, sc, pkts[0]), pkts[1..]);
    }
  }

  /** ikcp_input: the 32-bit run on the received words is the unbounded run, reduced. */
  lemma InputWraps(k: Kcb, pkts: seq<Pkt>, rc: int)
    requires KcbOk(Unbounded, k) && FreshAll(Scan(k, false, 0), pkts)
    ensures Input(Wrap32, WrapKcb(k), Parsed(WrapPkts(pkts), rc)) == WrapKcb(Input(Unbounded, k, Parsed(pkts, rc)))
  {
    ApplyAllWraps(Scan(k, false, 0), pkts);
    var sc := ApplyAll(Unbounded, Scan(k, false, 0), pkts);
    ApplyAllKeepsMtu(Unbounded, Scan(k, false, 0), pkts);
    ApplyAllUna(Scan(k, false, 0), pkts);
    FinishInputWraps(k.snd.una, sc);
    hide ApplyAll, FinishInput, KcbOk;
  }

  /** Input only moves snd_una forward. */
  lemma {:induction false} ApplyAllUna(sc: Scan, pkts: seq<Pkt>)
    requires KcbOk(Unbounded, sc.k)
    ensures sc.k.snd.una <= ApplyAll(Unbounded, sc, pkts).k.snd.una <= sc.k.snd.nxt
    decreases |pkts|
  {
    if pkts != [] {
      ApplyUna(sc, pkts[0]);
      ApplyKeeps(Unbounded, sc, pkts[0]);
      hide Apply;
      ApplyAllUna(Apply(Unbounded, sc, pkts[0]), pkts[1..]);
    }
  }

  lemma ApplyUna(sc: Scan, p: Pkt)
    requires KcbOk(Unbounded, sc.k)
    ensures sc.k.snd.una <= Apply(Unbounded, sc, p).k.snd.una
    ensures Apply(Unbounded, sc, p).k.snd.nxt == sc.k.snd.nxt
  {
    hide DropBefore, RemoveAcked, PushPkt, UpdateAck, SndRun, RcvRun;
    var s := ParseUna(Unbounded, sc.k.snd, p.una);
    ParseUnaKeeps(Unbounded, sc.k.snd, p.una);
    UnaForward(s);
    ShrinkBufKeeps(Unbounded, s);
    ParseAckKeeps(Unbounded, ShrinkBuf(s), p.sn);
    UnaForward(ParseAck(Unbounded, ShrinkBuf(s), p.sn));
  }

  lemma UnaForward(s: Snd)
    requires SndRun(Unbounded, s)
    ensures s.una <= ShrinkBuf(s).una
  {
    ShrinkBufKeeps(Unbounded, s);
    assert s.buf != [] ==> SndSns(s.buf)[0] == s.buf[0].sn;
  }

  lemma FinishInputWraps(prevUna: int, sc: Scan)
    requires KcbOk(Unbounded, sc.k) && Near(sc.k.snd.una, prevUna)
    requires sc.acked ==> FreshAck(sc.k.snd, sc.maxack)
    ensures FinishInput(Wrap32, Wrap(prevUna), WrapScan(sc)) == WrapKcb(FinishInput(Unbounded, prevUna, sc))
  {
    if sc.acked {
      ParseFastackWraps(sc.k.snd, sc.maxack);
    }
    NearDiff(sc.k.snd.una, prevUna);
    hide GrowCwnd, Wrap, Signed, BumpBefore, SndOk, SndRun, RcvOk;
  }

  lemma SendWraps(k: Kcb, msg: seq<byte>)
    requires k.Mss() > 0
    ensures Send(WrapKcb(k), msg) == (WrapKcb(Send(k, msg).0), Send(k, msg).1)
  {
  }

  lemma RecvWraps(k: Kcb, len: int)
    requires KcbOk(Unbounded, k)
    ensures Recv(Wrap32, WrapKcb(k), len) ==
            (WrapKcb(Recv(Unbounded, k, len).0), Recv(Unbounded, k, len).1, Recv(Unbounded, k, len).2)
  {
    hide Drain, Joined, HeadCount, SndRun, RcvRun, Wrap;
    var n := HeadCount(k.rcv.queue);
    TakeKeepsRun(k.rcv, n);
    DrainWraps(k.rcv);
    DrainWraps(k.rcv.(queue := k.rcv.queue[n..], nque := k.rcv.nque - n));
  }

  lemma TakeKeepsRun(r: Rcv, n: nat)
    requires RcvRun(Unbounded, r) && n <= |r.queue|
    ensures RcvRun(Unbounded, r.(queue := r.queue[n..], nque := r.nque - n))
  {
  }

  /** ikcp_flush: the same segments, reduced, and so the same datagrams. */
  lemma FlushWraps(k: Kcb)
    requires KcbOk(Unbounded, k)
    ensures Flush(Wrap32, WrapKcb(k)) == (WrapKcb(Flush(Unbounded, k).0), WrapPkts(Flush(Unbounded, k).1))
  {
    hide Admit, Transmit, ProbeTimer, AfterFlush, SendWindow, WndUnused, SndRun, RcvRun, WrapPkts, WrapSegs, Wrap;
    if k.ctl.updated {
      var c := ProbeTimer(k.ctl);
      var t := StampOf(k.rcv, c);
      var cwnd := SendWindow(k.snd, c);
      SendWindowBound(k.snd, c);
      AdmitWraps(k.snd, cwnd, t);
      var s := Admit(Unbounded, k.snd, cwnd, t);
      TransmitWraps(t, s.buf);
      StampOfWraps(k.rcv, c);
      FlushResultWraps(k, c, t, cwnd, s, Transmit(t, s.buf));
    }
  }

  lemma SendWindowBound(s: Snd, c: Ctl)
    requires SndRun(Unbounded, s)
    ensures 0 <= SendWindow(s, c) <= s.wnd < HALF
    ensures SendWindow(WrapSnd(s), c) == SendWindow(s, c)
  {
  }

  lemma StampOfWraps(r: Rcv, c: Ctl)
    ensures StampOf(WrapRcv(r), c) == WrapStamp(StampOf(r, c))
  {
  }

  lemma FlushResultWraps(k: Kcb, c: Ctl, t: Stamp, cwnd: u32, s: Snd, w: Walk)
    requires 0 < k.Mss() < WORD
    ensures FlushResult(WrapKcb(k), c, WrapStamp(t), cwnd, WrapSnd(s), WrapWalk(w)) ==
            (WrapKcb(FlushResult(k, c, t, cwnd, s, w).0), WrapPkts(FlushResult(k, c, t, cwnd, s, w).1))
  {
    WrapOfWrap(s.nxt, s.una);
    ControlPktsWrap(k.rcv, c.askSend, c.askTell);
    var a, b := AckPkts(k.rcv), ProbePkts(k.rcv, c.askSend, c.askTell);
    assert WrapPkts(a + b + w.pkts) == WrapPkts(a) + WrapPkts(b) + WrapPkts(w.pkts);
    assert WrapAcks([]) == [];
    hide AckPkts, ProbePkts, AfterFlush, WrapPkts, Wrap;
  }

  lemma ControlPktsWrap(r: Rcv, askSend: bool, askTell: bool)
    ensures AckPkts(WrapRcv(r)) == WrapPkts(AckPkts(r))
    ensures ProbePkts(WrapRcv(r), askSend, askTell) == WrapPkts(ProbePkts(r, askSend, askTell))
  {
    hide Wrap;
    var last := if r.acks == [] then Ack(0, 0) else r.acks[|r.acks| - 1];
    var last' := if r.acks == [] then Ack(0, 0) else WrapAcks(r.acks)[|r.acks| - 1];
    assert last' == last.(sn := Wrap(last.sn)) by {
      WrapZero();
    }
  }

  lemma WrapZero()
    ensures Wrap(0) == 0
  {
  }
}
