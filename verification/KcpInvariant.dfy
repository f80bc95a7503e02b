/**
 What every call keeps, whatever bytes arrive: both reordering buffers are
 strictly ordered inside their windows, snd_una is the oldest segment in flight,
 the counters are the list lengths, and nothing deliverable is left behind.
 Everything is proved for both arithmetics at once.
 */
module KcpInvariant {
  import opened Serial
  import opened KcpWire
  import opened KcpModel

  // ---------- ordered runs of sequence numbers ----------

  /** x is a value the arithmetic can hold. */
  ghost predicate Rep(ar: Arith, x: int) {
    ar.Norm(x) == x
  }

  ghost predicate Within(ar: Arith, sns: seq<int>, base: int, limit: int) {
    forall i :: 0 <= i < |sns| ==> Rep(ar, sns[i]) && 0 <= ar.Off(sns[i], base) < limit
  }

  ghost predicate Ascending(ar: Arith, sns: seq<int>, base: int) {
    forall i, j :: 0 <= i < j < |sns| ==> ar.Off(sns[i], base) < ar.Off(sns[j], base)
  }

  ghost function SndSns(buf: seq<SndSeg>): (s: seq<int>)
    ensures |s| == |buf| && forall i :: 0 <= i < |s| ==> s[i] == buf[i].sn
  {
    seq(|buf|, i requires 0 <= i < |buf| => buf[i].sn)
  }

  ghost function RcvSns(buf: seq<RcvSeg>): (s: seq<int>)
    ensures |s| == |buf| && forall i :: 0 <= i < |s| ==> s[i] == buf[i].sn
  {
    seq(|buf|, i requires 0 <= i < |buf| => buf[i].sn)
  }

  lemma OffInjective(ar: Arith, x: int, y: int, base: int)
    requires Rep(ar, x) && Rep(ar, y)
    ensures ar.Off(x, base) == ar.Off(y, base) <==> x == y
  {
    if ar.Wrap32? && ar.Off(x, base) == ar.Off(y, base) {
      WrapOfWrap(x - base, base);
      WrapOfWrap(y - base, base);
    }
  }

  /** Taking the base up to, or just past, the first number keeps the run ordered. */
  lemma RebaseRun(ar: Arith, sns: seq<int>, base: int, base': int, limit: int)
    requires Within(ar, sns, base, limit) && Ascending(ar, sns, base)
    requires 0 <= ar.Off(base', base)
    requires forall i :: 0 <= i < |sns| ==> ar.Off(base', base) <= ar.Off(sns[i], base)
    ensures Within(ar, sns, base', limit - ar.Off(base', base)) && Ascending(ar, sns, base')
  {
    forall i | 0 <= i < |sns|
      ensures ar.Off(sns[i], base') == ar.Off(sns[i], base) - ar.Off(base', base)
    {
      Rebase(ar, sns[i], base, base');
    }
  }

  // ---------- the sending half ----------

  /** snd_buf is ordered between a possibly outdated snd_una and snd_nxt, and the window holds. */
  ghost predicate SndRun(ar: Arith, s: Snd) {
    && 1 <= s.wnd < HALF
    && s.nbuf == |s.buf| && s.nque == |s.queue|
    && Rep(ar, s.una) && Rep(ar, s.nxt)
    && 0 <= ar.Off(s.nxt, s.una) <= s.wnd
    && Within(ar, SndSns(s.buf), s.una, ar.Off(s.nxt, s.una))
    && Ascending(ar, SndSns(s.buf), s.una)
  }

  /** In addition snd_una is the oldest segment in flight, or snd_nxt when there is none. */
  ghost predicate SndOk(ar: Arith, s: Snd) {
    && SndRun(ar, s)
    && s.una == (if s.buf != [] then s.buf[0].sn else s.nxt)
  }

  lemma ShrinkBufKeeps(ar: Arith, s: Snd)
    requires SndRun(ar, s)
    ensures SndOk(ar, ShrinkBuf(s))
    ensures ar.Off(ShrinkBuf(s).una, s.una) <= ar.Off(s.nxt, s.una)
    ensures ar.Off(s.nxt, ShrinkBuf(s).una) == ar.Off(s.nxt, s.una) - ar.Off(ShrinkBuf(s).una, s.una)
  {
    var una := ShrinkBuf(s).una;
    assert s.buf != [] ==> SndSns(s.buf)[0] == una;
    RebaseRun(ar, SndSns(s.buf), s.una, una, ar.Off(s.nxt, s.una));
    Rebase(ar, s.nxt, s.una, una);
  }

  lemma {:induction false} DropIsSuffix(ar: Arith, buf: seq<SndSeg>, una: int)
    ensures var r := DropBefore(ar, buf, una); r == buf[|buf| - |r|..]
  {
    if buf != [] && ar.Diff(una, buf[0].sn) > 0 {
      DropIsSuffix(ar, buf[1..], una);
    }
  }

  lemma ParseUnaKeeps(ar: Arith, s: Snd, una: int)
    requires SndRun(ar, s)
    ensures SndRun(ar, ParseUna(ar, s, una))
  {
    DropIsSuffix(ar, s.buf, una);
    var buf := DropBefore(ar, s.buf, una);
    var n := |s.buf| - |buf|;
    assert SndSns(buf) == SndSns(s.buf)[n..];
  }

  /** What RemoveAcked does: nothing, or it deletes the one segment numbered sn. */
  lemma {:induction false} RemoveAckedShape(ar: Arith, buf: seq<SndSeg>, sn: int) returns (at: nat)
    ensures at <= |buf|
    ensures at == |buf| ==> RemoveAcked(ar, buf, sn) == buf
    ensures at < |buf| ==> buf[at].sn == sn && RemoveAcked(ar, buf, sn) == buf[..at] + buf[at + 1..]
  {
    if buf == [] || sn == buf[0].sn {
      at := 0;
    } else if ar.Diff(sn, buf[0].sn) < 0 {
      at := |buf|;
    } else {
      at := RemoveAckedShape(ar, buf[1..], sn);
      at := at + 1;
    }
  }

  lemma RemoveAt(ar: Arith, sns: seq<int>, at: nat, base: int, limit: int)
    requires at < |sns| && Within(ar, sns, base, limit) && Ascending(ar, sns, base)
    ensures Within(ar, sns[..at] + sns[at + 1..], base, limit) && Ascending(ar, sns[..at] + sns[at + 1..], base)
  {
  }

  lemma ParseAckKeeps(ar: Arith, s: Snd, sn: int)
    requires SndRun(ar, s)
    ensures SndRun(ar, ParseAck(ar, s, sn))
  {
    if ar.Diff(sn, s.una) >= 0 && ar.Diff(sn, s.nxt) < 0 {
      var at := RemoveAckedShape(ar, s.buf, sn);
      if at < |s.buf| {
        RemoveAt(ar, SndSns(s.buf), at, s.una, ar.Off(s.nxt, s.una));
        assert SndSns(s.buf[..at] + s.buf[at + 1..]) == SndSns(s.buf)[..at] + SndSns(s.buf)[at + 1..];
      }
    }
  }

  /** Counting skipped acknowledgements changes no segment's number, fragment or data. */
  lemma {:induction false} BumpBeforeSame(ar: Arith, buf: seq<SndSeg>, sn: int)
    ensures var r := BumpBefore(ar, buf, sn);
            forall i :: 0 <= i < |buf| ==> r[i] == buf[i].(fastack := r[i].fastack)
  {
    if buf != [] && ar.Diff(sn, buf[0].sn) >= 0 {
      BumpBeforeSame(ar, buf[1..], sn);
    }
  }

  lemma ParseFastackKeeps(ar: Arith, s: Snd, sn: int)
    requires SndOk(ar, s)
    ensures SndOk(ar, ParseFastack(ar, s, sn))
  {
    BumpBeforeSame(ar, s.buf, sn);
    assert SndSns(BumpBefore(ar, s.buf, sn)) == SndSns(s.buf);
  }

  lemma AdmitOneKeeps(ar: Arith, s: Snd, cwnd: int, t: Stamp)
    requires SndOk(ar, s) && 0 <= cwnd <= s.wnd
    requires ar.Diff(s.nxt, ar.Norm(s.una + cwnd)) < 0 && s.queue != []
    ensures SndOk(ar, AdmitOne(ar, s, t))
  {
    WindowOpen(ar, s.una, s.nxt, cwnd);
    var s' := AdmitOne(ar, s, t);
    Increment(ar, s.nxt, s.una);
    assert SndSns(s'.buf) == SndSns(s.buf) + [s.nxt];
  }

  /** The admission test is exactly: fewer than cwnd segments in flight. */
  lemma WindowOpen(ar: Arith, una: int, nxt: int, cwnd: int)
    requires 0 <= ar.Off(nxt, una) < HALF && 0 <= cwnd < HALF
    ensures ar.Diff(nxt, ar.Norm(una + cwnd)) < 0 <==> ar.Off(nxt, una) < cwnd
  {
    if ar.Wrap32? {
      WrapOfWrap(una + cwnd, -una);
    }
    DiffByOffsets(ar, nxt, ar.Norm(una + cwnd), una);
  }

  lemma {:induction false} AdmitKeeps(ar: Arith, s: Snd, cwnd: int, t: Stamp)
    requires SndOk(ar, s) && 0 <= cwnd <= s.wnd
    ensures SndOk(ar, Admit(ar, s, cwnd, t))
    decreases |s.queue|
  {
    if ar.Diff(s.nxt, ar.Norm(s.una + cwnd)) < 0 && s.queue != [] {
      AdmitOneKeeps(ar, s, cwnd, t);
      AdmitKeeps(ar, AdmitOne(ar, s, t), cwnd, t);
    }
  }

  /** Transmission changes no segment's number, fragment or data. */
  lemma {:induction false} TransmitSame(t: Stamp, buf: seq<SndSeg>)
    ensures var w := Transmit(t, buf);
            forall i :: 0 <= i < |buf| ==> w.buf[i] == Stamped(t, buf[i])
  {
    if buf != [] {
      TransmitSame(t, buf[..|buf| - 1]);
    }
  }

  lemma TransmitKeeps(ar: Arith, s: Snd, t: Stamp)
    requires SndOk(ar, s)
    ensures SndOk(ar, s.(buf := Transmit(t, s.buf).buf))
  {
    TransmitSame(t, s.buf);
    assert SndSns(Transmit(t, s.buf).buf) == SndSns(s.buf);
  }

  // ---------- the receiving half ----------

  ghost predicate RcvRun(ar: Arith, r: Rcv) {
    && WND_RCV <= r.wnd < HALF
    && r.nbuf == |r.buf| && r.nque == |r.queue| <= r.wnd
    && Rep(ar, r.nxt)
    && Within(ar, RcvSns(r.buf), r.nxt, r.wnd)
    && Ascending(ar, RcvSns(r.buf), r.nxt)
  }

  ghost predicate Drained(r: Rcv) {
    r.buf != [] && r.buf[0].sn == r.nxt ==> r.nque >= r.wnd
  }

  ghost predicate RcvOk(ar: Arith, r: Rcv) {
    RcvRun(ar, r) && Drained(r)
  }

  /** Acceptance is exactly: the number lies in the receive window. */
  lemma AcceptableWindow(ar: Arith, r: Rcv, sn: int)
    requires 0 <= r.wnd < HALF && Rep(ar, sn) && Rep(ar, r.nxt)
    ensures Acceptable(ar, r, sn) <==> 0 <= ar.Off(sn, r.nxt) < r.wnd
  {
    if ar.Wrap32? {
      WrapOfWrap(r.nxt + r.wnd, sn);
      WrapOfWrap(sn - r.nxt, -r.wnd);
      EndOfWindow(ar.Off(sn, r.nxt), r.wnd);
    }
  }

  lemma EndOfWindow(off: u32, wnd: int)
    requires 0 <= wnd < HALF
    ensures Signed(Wrap(off - wnd)) < 0 && Signed(off) >= 0 <==> off < wnd
  {
    if off < HALF {
      SignedSmall(off - wnd);
    }
  }

  /** The backward search finds the place that keeps the run ordered. */
  lemma {:induction false} SlotPlaces(ar: Arith, buf: seq<RcvSeg>, n: nat, sn: int, base: int)
    requires n <= |buf| && Rep(ar, sn) && 0 <= ar.Off(sn, base) < HALF
    requires Within(ar, RcvSns(buf), base, HALF) && Ascending(ar, RcvSns(buf), base)
    ensures var (at, repeat) := Slot(ar, buf, n, sn);
            && (repeat <==> exists i :: 0 <= i < n && buf[i].sn == sn)
            && (!repeat ==> Splits(ar, RcvSns(buf), n, at, sn, base))
  {
    hide Within, Ascending, Wrap, Signed;
    if n > 0 {
      CompareAt(ar, RcvSns(buf), n - 1, sn, base);
      if ar.Diff(sn, buf[n - 1].sn) > 0 {
        AllBelow(ar, RcvSns(buf), n, sn, base);
      } else if buf[n - 1].sn != sn {
        SlotPlaces(ar, buf, n - 1, sn, base);
      }
    }
  }

  /** sn lies after the first `at` of the first n numbers, and before the others. */
  ghost predicate Splits(ar: Arith, sns: seq<int>, n: nat, at: nat, sn: int, base: int)
    requires at <= n <= |sns|
  {
    && (forall i :: 0 <= i < at ==> ar.Off(sns[i], base) < ar.Off(sn, base))
    && (forall i :: at <= i < n ==> ar.Off(sn, base) < ar.Off(sns[i], base))
  }

  lemma CompareAt(ar: Arith, sns: seq<int>, i: nat, sn: int, base: int)
    requires i < |sns| && Within(ar, sns, base, HALF) && Rep(ar, sn) && 0 <= ar.Off(sn, base) < HALF
    ensures ar.Diff(sn, sns[i]) > 0 <==> ar.Off(sns[i], base) < ar.Off(sn, base)
    ensures sn == sns[i] <==> ar.Off(sns[i], base) == ar.Off(sn, base)
  {
    DiffByOffsets(ar, sn, sns[i], base);
    OffInjective(ar, sn, sns[i], base);
  }

  lemma AllBelow(ar: Arith, sns: seq<int>, n: nat, sn: int, base: int)
    requires 0 < n <= |sns| && Ascending(ar, sns, base) && Rep(ar, sn)
    requires ar.Off(sns[n - 1], base) < ar.Off(sn, base)
    ensures forall i :: 0 <= i < n ==> ar.Off(sns[i], base) < ar.Off(sn, base) && sns[i] != sn
  {
  }

  lemma InsertKeeps(ar: Arith, r: Rcv, seg: RcvSeg)
    requires RcvRun(ar, r) && Rep(ar, seg.sn) && 0 <= ar.Off(seg.sn, r.nxt) < r.wnd
    ensures RcvRun(ar, Insert(ar, r, seg))
  {
    SlotPlaces(ar, r.buf, |r.buf|, seg.sn, r.nxt);
    var (at, repeat) := Slot(ar, r.buf, |r.buf|, seg.sn);
    if !repeat {
      InsertAt(ar, RcvSns(r.buf), at, seg.sn, r.nxt, r.wnd);
      assert RcvSns(r.buf[..at] + [seg] + r.buf[at..]) == RcvSns(r.buf)[..at] + [seg.sn] + RcvSns(r.buf)[at..];
    }
  }

  lemma InsertAt(ar: Arith, sns: seq<int>, at: nat, sn: int, base: int, limit: int)
    requires at <= |sns| && Within(ar, sns, base, limit) && Ascending(ar, sns, base)
    requires Rep(ar, sn) && 0 <= ar.Off(sn, base) < limit
    requires forall i :: 0 <= i < at ==> ar.Off(sns[i], base) < ar.Off(sn, base)
    requires forall i :: at <= i < |sns| ==> ar.Off(sn, base) < ar.Off(sns[i], base)
    ensures var out := sns[..at] + [sn] + sns[at..];
            Within(ar, out, base, limit) && Ascending(ar, out, base)
  {
  }

  lemma DrainOneKeeps(ar: Arith, r: Rcv)
    requires RcvRun(ar, r) && r.buf != [] && r.buf[0].sn == r.nxt && r.nque < r.wnd
    ensures RcvRun(ar, DrainOne(ar, r))
  {
    var r' := DrainOne(ar, r);
    var sns := RcvSns(r.buf);
    Increment(ar, r.nxt, r.nxt);
    assert RcvSns(r'.buf) == sns[1..];
    assert ar.Off(sns[0], r.nxt) == 0;
    RebaseRun(ar, sns[1..], r.nxt, r'.nxt, r.wnd);
  }

  lemma {:induction false} DrainKeeps(ar: Arith, r: Rcv)
    requires RcvRun(ar, r)
    ensures RcvOk(ar, Drain(ar, r))
    ensures Drain(ar, r).wnd == r.wnd && Drain(ar, r).acks == r.acks
    decreases |r.buf|
  {
    if r.buf != [] && r.buf[0].sn == r.nxt && r.nque < r.wnd {
      DrainOneKeeps(ar, r);
      DrainKeeps(ar, DrainOne(ar, r));
    }
  }

  lemma PushPktKeeps(ar: Arith, r: Rcv, p: Pkt)
    requires RcvOk(ar, r) && Rep(ar, p.sn)
    ensures RcvOk(ar, PushPkt(ar, r, p))
  {
    AcceptableWindow(ar, r, p.sn);
    if Acceptable(ar, r, p.sn) {
      var r1, seg := r.(acks := r.acks + [Ack(p.sn, p.ts)]), RcvSeg(p.sn, p.frg, p.data);
      InsertKeeps(ar, r1, seg);
      DrainKeeps(ar, Insert(ar, r1, seg));
    }
  }

  // ---------- the control block ----------

  ghost predicate CtlOk(c: Ctl) {
    10 <= c.interval <= 5000
  }

  ghost predicate KcbOk(ar: Arith, k: Kcb) {
    50 <= k.mtu < HALF && SndOk(ar, k.snd) && RcvOk(ar, k.rcv) && CtlOk(k.ctl)
  }

  lemma CreateOk(ar: Arith, conv: u32)
    ensures KcbOk(ar, Create(conv))
  {
  }

  lemma SendKeeps(ar: Arith, k: Kcb, msg: seq<byte>)
    requires KcbOk(ar, k)
    ensures KcbOk(ar, Send(k, msg).0)
  {
  }

  lemma RecvKeeps(ar: Arith, k: Kcb, len: int)
    requires KcbOk(ar, k)
    ensures KcbOk(ar, Recv(ar, k, len).0)
  {
    var n := HeadCount(k.rcv.queue);
    DrainKeeps(ar, k.rcv);
    DrainKeeps(ar, k.rcv.(queue := k.rcv.queue[n..], nque := k.rcv.nque - n));
  }

  lemma AckSideKeeps(ar: Arith, s: Snd, una: int, sn: int)
    requires SndOk(ar, s)
    ensures var s1 := ShrinkBuf(ParseUna(ar, s, una));
            SndOk(ar, s1) && SndOk(ar, ShrinkBuf(ParseAck(ar, s1, sn)))
  {
    ParseUnaKeeps(ar, s, una);
    ShrinkBufKeeps(ar, ParseUna(ar, s, una));
    var s1 := ShrinkBuf(ParseUna(ar, s, una));
    ParseAckKeeps(ar, s1, sn);
    ShrinkBufKeeps(ar, ParseAck(ar, s1, sn));
  }

  lemma ApplyKeeps(ar: Arith, sc: Scan, p: Pkt)
    requires KcbOk(ar, sc.k) && Rep(ar, p.sn)
    ensures KcbOk(ar, Apply(ar, sc, p).k)
  {
    hide UpdateAck, ParseUna, ParseAck, ShrinkBuf, PushPkt, SndOk, RcvOk, Signed;
    AckSideKeeps(ar, sc.k.snd, p.una, p.sn);
    PushPktKeeps(ar, sc.k.rcv, p);
  }

  lemma {:induction false} ApplyAllKeeps(ar: Arith, sc: Scan, pkts: seq<Pkt>)
    requires KcbOk(ar, sc.k) && forall i :: 0 <= i < |pkts| ==> Rep(ar, pkts[i].sn)
    ensures KcbOk(ar, ApplyAll(ar, sc, pkts).k)
    decreases |pkts|
  {
    if pkts != [] {
      ApplyKeeps(ar, sc, pkts[0]);
      hide Apply;
      ApplyAllKeeps(ar, Apply(ar, sc, pkts[0]), pkts[1..]);
    }
  }

  lemma InputKeeps(ar: Arith, k: Kcb, d: Parsed)
    requires KcbOk(ar, k) && forall i :: 0 <= i < |d.pkts| ==> Rep(ar, d.pkts[i].sn)
    ensures KcbOk(ar, Input(ar, k, d))
  {
    ApplyAllKeepsMtu(ar, Scan(k, false, 0), d.pkts);
    ApplyAllKeeps(ar, Scan(k, false, 0), d.pkts);
    FinishInputKeeps(ar, k.snd.una, ApplyAll(ar, Scan(k, false, 0), d.pkts));
  }

  lemma FinishInputKeeps(ar: Arith, prevUna: int, sc: Scan)
    requires KcbOk(ar, sc.k)
    ensures KcbOk(ar, FinishInput(ar, prevUna, sc))
  {
    hide GrowCwnd, ParseFastack, SndOk, RcvOk;
    ParseFastackKeeps(ar, sc.k.snd, sc.maxack);
  }

  lemma FlushKeeps(ar: Arith, k: Kcb)
    requires KcbOk(ar, k)
    ensures KcbOk(ar, Flush(ar, k).0)
    ensures Flush(ar, k).0.mtu == k.mtu && Flush(ar, k).0.conv == k.conv
  {
    if k.ctl.updated {
      var c := ProbeTimer(k.ctl);
      var t := StampOf(k.rcv, c);
      var cwnd := SendWindow(k.snd, c);
      var s := Admit(ar, k.snd, cwnd, t);
      AdmitKeeps(ar, k.snd, cwnd, t);
      TransmitKeeps(ar, s, t);
      FlushParts(ar, k);
    }
  }

  /** Flush put together from its parts. */
  lemma FlushParts(ar: Arith, k: Kcb)
    requires 0 < k.Mss() < WORD && 0 <= k.snd.wnd && k.ctl.updated
    ensures var c := ProbeTimer(k.ctl);
            var t := StampOf(k.rcv, c);
            var s := Admit(ar, k.snd, SendWindow(k.snd, c), t);
            var (k', pkts) := Flush(ar, k);
            && k' == k.(snd := s.(buf := Transmit(t, s.buf).buf), rcv := k.rcv.(acks := []), ctl := k'.ctl)
            && k'.ctl.interval == k.ctl.interval && k'.ctl.updated
            && pkts == AckPkts(k.rcv) + ProbePkts(k.rcv, c.askSend, c.askTell) + Transmit(t, s.buf).pkts
  {
    var c := ProbeTimer(k.ctl);
    var t := StampOf(k.rcv, c);
    var cwnd := SendWindow(k.snd, c);
    var s := Admit(ar, k.snd, cwnd, t);
    ProbeTimerKeeps(k.ctl);
    hide AfterFlush, ProbeTimer, StampOf, Admit, Transmit, AckPkts, ProbePkts, SendWindow, Wrap;
  }

  lemma ProbeTimerKeeps(c: Ctl)
    ensures ProbeTimer(c).interval == c.interval && ProbeTimer(c).updated == c.updated
    ensures ProbeTimer(c).rmtWnd == c.rmtWnd && ProbeTimer(c).cong == c.cong && ProbeTimer(c).nocwnd == c.nocwnd
  {
  }

  /**
   Changing the windows of a control block in use is safe exactly when nothing is
   cut off: what is in flight fits the new send window, what is stored fits the new
   receive window, and no segment at the head of rcv_buf waits for room that the
   new window gives (the next ikcp_recv would deliver it).
   */
  lemma WndSizeKeeps(ar: Arith, k: Kcb, sndwnd: int, rcvwnd: int)
    requires KcbOk(ar, k) && sndwnd < HALF && rcvwnd < HALF
    ensures var w := Max(rcvwnd, WND_RCV);
            KcbOk(ar, WndSize(k, sndwnd, rcvwnd)) <==>
            && (sndwnd > 0 ==> ar.Off(k.snd.nxt, k.snd.una) <= sndwnd)
            && (rcvwnd > 0 ==>
                  && |k.rcv.queue| <= w && Within(ar, RcvSns(k.rcv.buf), k.rcv.nxt, w)
                  && (k.rcv.buf != [] && k.rcv.buf[0].sn == k.rcv.nxt ==> |k.rcv.queue| >= w))
  {
    hide Within, Ascending;
  }

  lemma UpdateKeeps(ar: Arith, k: Kcb, now: u32)
    requires KcbOk(ar, k)
    ensures KcbOk(ar, Update(ar, k, now).0)
  {
    var (c, due) := Tick(k.ctl, now);
    FlushKeeps(ar, k.(ctl := c));
  }

  /** The program as it is: no datagram, of any bytes, breaks the control block. */
  lemma AnyDatagramKeeps(k: Kcb, d: seq<byte>)
    requires KcbOk(Wrap32, k)
    ensures KcbOk(Wrap32, Input(Wrap32, k, Parse(k.conv, d)))
  {
    ParsedFieldsInRange(k.conv, d);
    InputKeeps(Wrap32, k, Parse(k.conv, d));
  }
}
