/**
 The KCP control block and its operations as functions on values. The class in
 KcpClass.dfy is the program itself, with the source's loops over mutable
 queues; its methods are proved to compute these functions.
 */
module KcpModel {
  import opened Serial
  import opened KcpWire

  const RTO_NDL: u32 := 30
  const RTO_MIN: u32 := 100
  const RTO_DEF: u32 := 200
  const RTO_MAX: u32 := 60000
  const WND_SND: int := 32
  const WND_RCV: int := 128
  const MTU_DEF: int := 1400
  const INTERVAL: u32 := 100
  const DEADLINK: u32 := 20
  const THRESH_INIT: u32 := 2
  const THRESH_MIN: u32 := 2
  const PROBE_INIT: u32 := 7000
  const PROBE_LIMIT: u32 := 120000
  const FASTACK_LIMIT: int := 5
  const NEVER: u32 := 0xffff_ffff

  /** A piece of a message: how many pieces follow it, and its bytes. */
  datatype Frag = Frag(frg: int, data: seq<byte>)

  datatype SndSeg = SndSeg(sn: int, una: int, frg: int, wnd: int, ts: u32, resendts: u32, rto: u32,
                           fastack: u32, xmit: u32, data: seq<byte>)

  datatype RcvSeg = RcvSeg(sn: int, frg: int, data: seq<byte>)

  datatype Ack = Ack(sn: int, ts: u32)

  /** The sending half: numbered segments in flight, and fragments not yet numbered. */
  datatype Snd = Snd(una: int, nxt: int, wnd: int, queue: seq<Frag>, nque: int, buf: seq<SndSeg>, nbuf: int)

  /** The receiving half: segments out of order, and fragments in order. */
  datatype Rcv = Rcv(nxt: int, wnd: int, buf: seq<RcvSeg>, nbuf: int, queue: seq<Frag>, nque: int, acks: seq<Ack>)

  datatype Cong = Cong(cwnd: u32, incr: u32, ssthresh: u32)

  datatype Rtt = Rtt(srtt: int, rttval: int, rto: u32)

  /** Timers, round-trip estimate, congestion window and options. */
  datatype Ctl = Ctl(rmtWnd: u32, cong: Cong, rtt: Rtt, minrto: u32,
                     current: u32, interval: u32, tsFlush: u32, updated: bool,
                     tsProbe: u32, probeWait: u32, askSend: bool, askTell: bool,
                     xmit: u32, dead: bool, deadLink: u32,
                     nodelay: bool, fastresend: int, fastlimit: int, nocwnd: bool)

  datatype Kcb = Kcb(conv: u32, mtu: int, snd: Snd, rcv: Rcv, ctl: Ctl) {
    function Mss(): int {
      mtu - OVERHEAD
    }
  }

  function Create(conv: u32): Kcb {
    Kcb(conv, MTU_DEF,
        Snd(0, 0, WND_SND, [], 0, [], 0),
        Rcv(0, WND_RCV, [], 0, [], 0, []),
        Ctl(WND_RCV, Cong(0, 0, THRESH_INIT), Rtt(0, 0, RTO_DEF), RTO_MIN, 0, INTERVAL, INTERVAL, false,
            0, 0, false, false, 0, false, DEADLINK, false, 0, FASTACK_LIMIT, false))
  }

  // ---------- acknowledgements: the sending half ----------

  function ShrinkBuf(s: Snd): Snd {
    s.(una := if s.buf != [] then s.buf[0].sn else s.nxt)
  }

  /** Delete the segment numbered sn, giving up at the first segment past it. */
  function RemoveAcked(ar: Arith, buf: seq<SndSeg>, sn: int): (r: seq<SndSeg>)
    ensures |buf| - 1 <= |r| <= |buf|
  {
    if buf == [] then buf
    else if sn == buf[0].sn then buf[1..]
    else if ar.Diff(sn, buf[0].sn) < 0 then buf
    else [buf[0]] + RemoveAcked(ar, buf[1..], sn)
  }

  function ParseAck(ar: Arith, s: Snd, sn: int): Snd {
    if ar.Diff(sn, s.una) < 0 || ar.Diff(sn, s.nxt) >= 0 then s
    else
      var buf := RemoveAcked(ar, s.buf, sn);
      s.(buf := buf, nbuf := s.nbuf - (|s.buf| - |buf|))
  }

  /** Delete segments from the front while they lie before una. */
  function DropBefore(ar: Arith, buf: seq<SndSeg>, una: int): (r: seq<SndSeg>)
    ensures |r| <= |buf|
  {
    if buf != [] && ar.Diff(una, buf[0].sn) > 0 then DropBefore(ar, buf[1..], una) else buf
  }

  function ParseUna(ar: Arith, s: Snd, una: int): Snd {
    var buf := DropBefore(ar, s.buf, una);
    s.(buf := buf, nbuf := s.nbuf - (|s.buf| - |buf|))
  }

  /** Count one more skipped acknowledgement for every segment before sn. */
  function BumpBefore(ar: Arith, buf: seq<SndSeg>, sn: int): (r: seq<SndSeg>)
    ensures |r| == |buf|
  {
    if buf == [] || ar.Diff(sn, buf[0].sn) < 0 then buf
    else [Bumped(buf[0], sn)] + BumpBefore(ar, buf[1..], sn)
  }

  function Bumped(seg: SndSeg, sn: int): SndSeg {
    if sn != seg.sn then seg.(fastack := Wrap(seg.fastack + 1)) else seg
  }

  function ParseFastack(ar: Arith, s: Snd, sn: int): Snd {
    if ar.Diff(sn, s.una) < 0 || ar.Diff(sn, s.nxt) >= 0 then s
    else s.(buf := BumpBefore(ar, s.buf, sn))
  }

  // ---------- data: the receiving half ----------

  /**
   Where a segment numbered sn belongs among the first n of rcv_buf, looking from
   the back, and whether it is there already.
   */
  function Slot(ar: Arith, buf: seq<RcvSeg>, n: nat, sn: int): (r: (nat, bool))
    requires n <= |buf|
    ensures r.0 <= n && (r.1 ==> r.0 > 0 && buf[r.0 - 1].sn == sn)
  {
    if n == 0 then (0, false)
    else if buf[n - 1].sn == sn then (n, true)
    else if ar.Diff(sn, buf[n - 1].sn) > 0 then (n, false)
    else Slot(ar, buf, n - 1, sn)
  }

  function Insert(ar: Arith, r: Rcv, seg: RcvSeg): Rcv {
    var (at, repeat) := Slot(ar, r.buf, |r.buf|, seg.sn);
    if repeat then r
    else r.(buf := r.buf[..at] + [seg] + r.buf[at..], nbuf := r.nbuf + 1)
  }

  /** Move what has become in-order from rcv_buf to rcv_queue, as long as there is room. */
  function Drain(ar: Arith, r: Rcv): (r': Rcv)
    decreases |r.buf|
  {
    if r.buf != [] && r.buf[0].sn == r.nxt && r.nque < r.wnd then
      Drain(ar, DrainOne(ar, r))
    else r
  }

  function DrainOne(ar: Arith, r: Rcv): Rcv
    requires r.buf != []
  {
    r.(buf := r.buf[1..], nbuf := r.nbuf - 1,
       queue := r.queue + [Frag(r.buf[0].frg, r.buf[0].data)], nque := r.nque + 1,
       nxt := ar.Norm(r.nxt + 1))
  }

  predicate Acceptable(ar: Arith, r: Rcv, sn: int) {
    ar.Diff(sn, ar.Norm(r.nxt + r.wnd)) < 0 && ar.Diff(sn, r.nxt) >= 0
  }

  function ParseData(ar: Arith, r: Rcv, seg: RcvSeg): Rcv {
    if !Acceptable(ar, r, seg.sn) then r else Drain(ar, Insert(ar, r, seg))
  }

  // ---------- ikcp_input ----------

  /** The control block while a datagram is being read, with the largest sn acknowledged so far. */
  datatype Scan = Scan(k: Kcb, acked: bool, maxack: int)

  function UpdateAck(r: Rtt, minrto: u32, interval: u32, sample: int): Rtt
    requires sample >= 0
  {
    var delta := if sample >= r.srtt then sample - r.srtt else r.srtt - sample;
    var srtt := if r.srtt == 0 then sample else Max(Quotient(7 * r.srtt + sample, 8), 1);
    var rttval := if r.srtt == 0 then sample / 2 else Quotient(3 * r.rttval + delta, 4);
    var rto := Wrap(srtt + Max(interval, Wrap(4 * rttval)));
    Rtt(srtt, rttval, Min(Max(minrto, rto), RTO_MAX))
  }

  /** C's division, which truncates. */
  function Quotient(a: int, b: int): int
    requires b > 0
  {
    if a >= 0 then a / b else -((-a) / b)
  }

  function AckPkt(ar: Arith, sc: Scan, p: Pkt): Scan {
    var k := sc.k;
    var sample := Itimediff(k.ctl.current, p.ts);
    var rtt := if sample >= 0 then UpdateAck(k.ctl.rtt, k.ctl.minrto, k.ctl.interval, sample) else k.ctl.rtt;
    var s := ShrinkBuf(ParseAck(ar, k.snd, p.sn));
    Scan(k.(snd := s, ctl := k.ctl.(rtt := rtt)), true, if !sc.acked || ar.Diff(p.sn, sc.maxack) > 0 then p.sn else sc.maxack)
  }

  function PushPkt(ar: Arith, r: Rcv, p: Pkt): Rcv {
    if ar.Diff(p.sn, ar.Norm(r.nxt + r.wnd)) >= 0 then r
    else
      var r := r.(acks := r.acks + [Ack(p.sn, p.ts)]);
      if ar.Diff(p.sn, r.nxt) >= 0 then ParseData(ar, r, RcvSeg(p.sn, p.frg, p.data)) else r
  }

  function Apply(ar: Arith, sc: Scan, p: Pkt): Scan {
    var k := sc.k.(snd := ShrinkBuf(ParseUna(ar, sc.k.snd, p.una)), ctl := sc.k.ctl.(rmtWnd := Wrap(p.wnd)));
    var sc := sc.(k := k);
    if p.cmd == CMD_ACK then AckPkt(ar, sc, p)
    else if p.cmd == CMD_PUSH then sc.(k := k.(rcv := PushPkt(ar, k.rcv, p)))
    else if p.cmd == CMD_WASK then sc.(k := k.(ctl := k.ctl.(askTell := true)))
    else sc
  }

  function ApplyAll(ar: Arith, sc: Scan, pkts: seq<Pkt>): Scan
    decreases |pkts|
  {
    if pkts == [] then sc else ApplyAll(ar, Apply(ar, sc, pkts[0]), pkts[1..])
  }

  function Times32(a: int, b: int): (w: u32) {
    Wrap(a * b)
  }

  /** One congestion-avoidance step of the byte counter. */
  function AvoidanceStep(incr: u32, mss: int): (w: u32)
    requires 0 < incr
  {
    Wrap(incr + Times32(mss, mss) / incr + mss / 16)
  }

  /** Slow start and congestion avoidance, on new data acknowledged. */
  function GrowCwnd(g: Cong, rmtWnd: u32, mss: int): Cong
    requires 0 < mss < WORD
  {
    if g.cwnd >= rmtWnd then g
    else
      var slow := g.cwnd < g.ssthresh;
      var incr := if slow then Wrap(g.incr + mss) else AvoidanceStep(Max(g.incr, mss), mss);
      var cwnd := if slow || Times32(Wrap(g.cwnd + 1), mss) <= incr then Wrap(g.cwnd + 1) else g.cwnd;
      if cwnd > rmtWnd then g.(cwnd := rmtWnd, incr := Times32(rmtWnd, mss)) else g.(cwnd := cwnd, incr := incr)
  }

  function FinishInput(ar: Arith, prevUna: int, sc: Scan): Kcb
    requires 0 < sc.k.Mss() < WORD
  {
    var k := if sc.acked then sc.k.(snd := ParseFastack(ar, sc.k.snd, sc.maxack)) else sc.k;
    if ar.Diff(k.snd.una, prevUna) > 0 then k.(ctl := k.ctl.(cong := GrowCwnd(k.ctl.cong, k.ctl.rmtWnd, k.Mss()))) else k
  }

  function Input(ar: Arith, k: Kcb, d: Parsed): (k': Kcb)
    requires 0 < k.Mss() < WORD
  {
    ApplyAllKeepsMtu(ar, Scan(k, false, 0), d.pkts);
    var sc := ApplyAll(ar, Scan(k, false, 0), d.pkts);
    if d.rc == 0 then FinishInput(ar, k.snd.una, sc) else sc.k
  }

  lemma {:induction false} ApplyAllKeepsMtu(ar: Arith, sc: Scan, pkts: seq<Pkt>)
    ensures ApplyAll(ar, sc, pkts).k.mtu == sc.k.mtu && ApplyAll(ar, sc, pkts).k.conv == sc.k.conv
    decreases |pkts|
  {
    if pkts != [] {
      hide Apply;
      ApplyAllKeepsMtu(ar, Apply(ar, sc, pkts[0]), pkts[1..]);
    }
  }

  // ---------- ikcp_send ----------

  function FragCount(len: nat, mss: int): int
    requires mss > 0
  {
    if len <= mss then 1 else (len + mss - 1) / mss
  }

  /** The first `count` pieces of a message, each as large as fits. */
  function Fragment(msg: seq<byte>, mss: int, count: nat): (q: seq<Frag>)
    requires mss > 0
    ensures |q| == count
  {
    if count == 0 then []
    else
      var size := Min(|msg|, mss);
      [Frag(count - 1, msg[..size])] + Fragment(msg[size..], mss, count - 1)
  }

  function Send(k: Kcb, msg: seq<byte>): (r: (Kcb, int))
    requires k.Mss() > 0
  {
    var count := FragCount(|msg|, k.Mss());
    if count >= WND_RCV then (k, -2)
    else
      assert count >= 0 by { CountPositive(|msg|, k.Mss()); }
      var q := Fragment(msg, k.Mss(), count);
      (k.(snd := k.snd.(queue := k.snd.queue + q, nque := k.snd.nque + count)), 0)
  }

  lemma CountPositive(len: nat, mss: int)
    requires mss > 0
    ensures FragCount(len, mss) >= 1
  {
    if len > mss {
      QuotientBounds(len + mss - 1, mss);
    }
  }

  lemma QuotientBounds(a: int, b: int)
    requires a >= 0 && b > 0
    ensures a / b * b <= a < (a / b + 1) * b
    ensures a >= b ==> a / b >= 1
  {
  }

  // ---------- ikcp_recv ----------

  /** How many queued fragments the head message takes: up to the first with nothing after it. */
  function HeadCount(q: seq<Frag>): (n: nat)
    ensures n <= |q|
    ensures q != [] ==> n > 0
  {
    if q == [] then 0 else if q[0].frg == 0 then 1 else 1 + HeadCount(q[1..])
  }

  function Joined(q: seq<Frag>): (data: seq<byte>) {
    if q == [] then [] else q[0].data + Joined(q[1..])
  }

  function Peeksize(r: Rcv): int {
    if r.queue == [] then -1
    else if r.queue[0].frg == 0 then |r.queue[0].data|
    else if r.nque < r.queue[0].frg + 1 then -1
    else |Joined(r.queue[..HeadCount(r.queue)])|
  }

  /** ikcp_recv: the new state, the return code, and the bytes copied out. */
  function Recv(ar: Arith, k: Kcb, len: int): (r: (Kcb, int, seq<byte>)) {
    if k.rcv.queue == [] then (k, -1, [])
    else if Peeksize(k.rcv) < 0 then (k, -2, [])
    else if Peeksize(k.rcv) > (if len < 0 then -len else len) then (k, -3, [])
    else
      var n := HeadCount(k.rcv.queue);
      var msg := Joined(k.rcv.queue[..n]);
      var taken := if len < 0 then k.rcv else k.rcv.(queue := k.rcv.queue[n..], nque := k.rcv.nque - n);
      var rcv := Drain(ar, taken);
      var tell := rcv.nque < rcv.wnd && k.rcv.nque >= k.rcv.wnd;
      (k.(rcv := rcv, ctl := k.ctl.(askTell := k.ctl.askTell || tell)), |msg|, msg)
  }

  // ---------- ikcp_flush ----------

  function WndUnused(r: Rcv): int {
    if r.nque < r.wnd then r.wnd - r.nque else 0
  }

  function AckPkts(r: Rcv): (s: seq<Pkt>)
    ensures |s| == |r.acks|
  {
    seq(|r.acks|, i requires 0 <= i < |r.acks| =>
      Pkt(CMD_ACK, 0, WndUnused(r), r.acks[i].ts, r.acks[i].sn, r.nxt, []))
  }

  /** The zero-window probe timer. */
  function ProbeTimer(c: Ctl): Ctl {
    if c.rmtWnd != 0 then c.(tsProbe := 0, probeWait := 0)
    else if c.probeWait == 0 then c.(probeWait := PROBE_INIT, tsProbe := Wrap(c.current + PROBE_INIT))
    else if Itimediff(c.current, c.tsProbe) < 0 then c
    else
      var wait := if c.probeWait < PROBE_INIT then PROBE_INIT else c.probeWait;
      var wait := Wrap(wait + wait / 2);
      var wait := if wait > PROBE_LIMIT then PROBE_LIMIT else wait;
      c.(probeWait := wait, tsProbe := Wrap(c.current + wait), askSend := true)
  }

  /** Window probes reuse the segment left over from the acknowledgement loop. */
  function ProbePkts(r: Rcv, askSend: bool, askTell: bool): seq<Pkt> {
    var last := if r.acks == [] then Ack(0, 0) else r.acks[|r.acks| - 1];
    (if askSend then [Pkt(CMD_WASK, 0, WndUnused(r), last.ts, last.sn, r.nxt, [])] else [])
    + (if askTell then [Pkt(CMD_WINS, 0, WndUnused(r), last.ts, last.sn, r.nxt, [])] else [])
  }

  function SendWindow(s: Snd, c: Ctl): int {
    var w := Min(s.wnd, c.rmtWnd);
    if c.nocwnd then w else Min(c.cong.cwnd, w)
  }

  /** What a segment is stamped with when it leaves. */
  datatype Stamp = Stamp(current: u32, wnd: int, una: int, rto: u32, rtomin: u32, resent: u32,
                         nodelay: bool, fastlimit: int, deadLink: u32)

  function StampOf(r: Rcv, c: Ctl): Stamp {
    Stamp(c.current, WndUnused(r), r.nxt, c.rtt.rto, if c.nodelay then 0 else c.rtt.rto / 8,
          if c.fastresend > 0 then Wrap(c.fastresend) else NEVER, c.nodelay, c.fastlimit, c.deadLink)
  }

  function Admitted(s: Snd, t: Stamp): SndSeg
    requires s.queue != []
  {
    SndSeg(s.nxt, t.una, s.queue[0].frg, t.wnd, t.current, t.current, t.rto, 0, 0, s.queue[0].data)
  }

  function AdmitOne(ar: Arith, s: Snd, t: Stamp): Snd
    requires s.queue != []
  {
    s.(queue := s.queue[1..], nque := s.nque - 1, buf := s.buf + [Admitted(s, t)], nbuf := s.nbuf + 1,
       nxt := ar.Norm(s.nxt + 1))
  }

  /** Number fragments and put them in flight while the window has room. */
  function Admit(ar: Arith, s: Snd, cwnd: int, t: Stamp): Snd
    decreases |s.queue|
  {
    if ar.Diff(s.nxt, ar.Norm(s.una + cwnd)) < 0 && s.queue != [] then Admit(ar, AdmitOne(ar, s, t), cwnd, t) else s
  }

  datatype Cause = NotDue | First | Timeout | Fast

  function Due(t: Stamp, seg: SndSeg): Cause {
    if seg.xmit == 0 then First
    else if Itimediff(t.current, seg.resendts) >= 0 then Timeout
    else if seg.fastack >= t.resent && (Signed(seg.xmit) <= t.fastlimit || t.fastlimit <= 0) then Fast
    else NotDue
  }

  function Stamped(t: Stamp, seg: SndSeg): SndSeg {
    var out := seg.(ts := t.current, wnd := t.wnd, una := t.una, xmit := Wrap(seg.xmit + 1));
    match Due(t, seg)
    case NotDue => seg
    case First => out.(rto := t.rto, resendts := Wrap(t.current + t.rto + t.rtomin))
    case Timeout =>
      var rto := Wrap(seg.rto + if t.nodelay then t.rto / 2 else t.rto);
      out.(rto := rto, resendts := Wrap(t.current + rto))
    case Fast => out.(fastack := 0, resendts := Wrap(t.current + seg.rto))
  }

  function PktOf(seg: SndSeg): Pkt {
    Pkt(CMD_PUSH, seg.frg, seg.wnd, seg.ts, seg.sn, seg.una, seg.data)
  }

  /** The outcome of walking snd_buf: new segments, what was transmitted, and why. */
  datatype Walk = Walk(buf: seq<SndSeg>, pkts: seq<Pkt>, timeouts: nat, fasts: nat, dead: bool)

  function Transmit(t: Stamp, buf: seq<SndSeg>): (w: Walk)
    ensures |w.buf| == |buf|
  {
    if buf == [] then Walk([], [], 0, 0, false)
    else
      var seg := buf[|buf| - 1];
      var w := Transmit(t, buf[..|buf| - 1]);
      var out := Stamped(t, seg);
      Walk(w.buf + [out],
           if Due(t, seg) == NotDue then w.pkts else w.pkts + [PktOf(out)],
           w.timeouts + if Due(t, seg) == Timeout then 1 else 0,
           w.fasts + if Due(t, seg) == Fast then 1 else 0,
           w.dead || (Due(t, seg) != NotDue && out.xmit >= t.deadLink))
  }

  /** The congestion window after a flush: fast resends halve it, a timeout closes it. */
  function AfterFlush(g: Cong, w: Walk, inflight: u32, cwnd: u32, resent: u32, mss: int): Cong
    requires 0 < mss < WORD
  {
    if w.timeouts > 0 then Cong(1, mss, Max(cwnd / 2, THRESH_MIN))
    else if w.fasts > 0 then
      var ssthresh := Max(inflight / 2, THRESH_MIN);
      AtLeastOne(Cong(Wrap(ssthresh + resent), Times32(Wrap(ssthresh + resent), mss), ssthresh), mss)
    else AtLeastOne(g, mss)
  }

  function AtLeastOne(g: Cong, mss: int): Cong
    requires 0 < mss < WORD
  {
    if g.cwnd < 1 then g.(cwnd := 1, incr := mss) else g
  }

  /** ikcp_flush: the new state and the segments sent, in the order they are written. */
  function Flush(ar: Arith, k: Kcb): (r: (Kcb, seq<Pkt>))
    requires 0 < k.Mss() < WORD && 0 <= k.snd.wnd
  {
    if !k.ctl.updated then (k, [])
    else
      var c := ProbeTimer(k.ctl);
      var t := StampOf(k.rcv, c);
      var cwnd := SendWindow(k.snd, c);
      var s := Admit(ar, k.snd, cwnd, t);
      FlushResult(k, c, t, cwnd, s, Transmit(t, s.buf))
  }

  function FlushResult(k: Kcb, c: Ctl, t: Stamp, cwnd: u32, s: Snd, w: Walk): (r: (Kcb, seq<Pkt>))
    requires 0 < k.Mss() < WORD
  {
    var g := AfterFlush(c.cong, w, Wrap(s.nxt - s.una), cwnd, t.resent, k.Mss());
    var c' := c.(askSend := false, askTell := false, cong := g, xmit := Wrap(c.xmit + w.timeouts),
                 dead := c.dead || w.dead);
    (k.(snd := s.(buf := w.buf), rcv := k.rcv.(acks := []), ctl := c'),
     AckPkts(k.rcv) + ProbePkts(k.rcv, c.askSend, c.askTell) + w.pkts)
  }

  /** Filling datagrams: those already sent, and the one being filled. */
  datatype Packing = Packing(done: seq<seq<Pkt>>, cur: seq<Pkt>) {
    function Close(): seq<seq<Pkt>> {
      if cur == [] then done else done + [cur]
    }
  }

  function PackOne(mtu: int, pk: Packing, p: Pkt): Packing {
    if TotalSize(pk.cur) + p.Size() > mtu then Packing(pk.Close(), [p]) else Packing(pk.done, pk.cur + [p])
  }

  function Pack(mtu: int, pkts: seq<Pkt>): Packing {
    if pkts == [] then Packing([], []) else PackOne(mtu, Pack(mtu, pkts[..|pkts| - 1]), pkts[|pkts| - 1])
  }

  function Grouped(mtu: int, pkts: seq<Pkt>): seq<seq<Pkt>> {
    Pack(mtu, pkts).Close()
  }

  function Datagrams(conv: u32, groups: seq<seq<Pkt>>): (d: seq<seq<byte>>)
    ensures |d| == |groups|
  {
    seq(|groups|, i requires 0 <= i < |groups| => EncodeAll(conv, groups[i]))
  }

  // ---------- ikcp_update and ikcp_check ----------

  /** The flush timer at time now: the new control part, and whether to flush. */
  function Tick(c: Ctl, now: u32): (r: (Ctl, bool)) {
    var c := c.(current := now);
    var c := if c.updated then c else c.(updated := true, tsFlush := now);
    var slap := Itimediff(now, c.tsFlush);
    var reset := slap >= 10000 || slap < -10000;
    var c := if reset then c.(tsFlush := now) else c;
    if !reset && slap < 0 then (c, false)
    else
      var next := Wrap(c.tsFlush + c.interval);
      (c.(tsFlush := if Itimediff(now, next) >= 0 then Wrap(now + c.interval) else next), true)
  }

  function Update(ar: Arith, k: Kcb, now: u32): (r: (Kcb, seq<Pkt>))
    requires 0 < k.Mss() < WORD && 0 <= k.snd.wnd
  {
    var (c, due) := Tick(k.ctl, now);
    if due then Flush(ar, k.(ctl := c)) else (k.(ctl := c), [])
  }

  /** The least time until a segment of snd_buf is due, at most `least`; 0 when one is due now. */
  function NextResend(buf: seq<SndSeg>, now: u32, least: int): (d: int) {
    if buf == [] then least
    else
      var diff := Itimediff(buf[0].resendts, now);
      if diff <= 0 then 0 else NextResend(buf[1..], now, Min(diff, least))
  }

  function Check(k: Kcb, now: u32): u32 {
    var c := k.ctl;
    var far := Itimediff(now, c.tsFlush) >= 10000 || Itimediff(now, c.tsFlush) < -10000;
    if !c.updated || far || Itimediff(now, c.tsFlush) >= 0 then now
    else
      var packet := NextResend(k.snd.buf, now, 0x7fff_ffff);
      Wrap(now + Min(Min(packet, Itimediff(c.tsFlush, now)), c.interval))
  }

  // ---------- options ----------

  function SetMtu(k: Kcb, mtu: int): (r: (Kcb, int)) {
    if mtu < 50 || mtu < OVERHEAD then (k, -1) else (k.(mtu := mtu), 0)
  }

  function WndSize(k: Kcb, sndwnd: int, rcvwnd: int): Kcb {
    var k := if sndwnd > 0 then k.(snd := k.snd.(wnd := sndwnd)) else k;
    if rcvwnd > 0 then k.(rcv := k.rcv.(wnd := Max(rcvwnd, WND_RCV))) else k
  }

  function BoundedInterval(interval: int): u32 {
    if interval > 5000 then 5000 else if interval < 10 then 10 else interval
  }

  /** Options, each left alone when its argument is negative. */
  function NoDelay(c: Ctl, nodelay: int, interval: int, resend: int, nc: int): Ctl {
    c.(nodelay := if nodelay >= 0 then nodelay != 0 else c.nodelay,
       minrto := if nodelay < 0 then c.minrto else if nodelay != 0 then RTO_NDL else RTO_MIN,
       interval := if interval >= 0 then BoundedInterval(interval) else c.interval,
       fastresend := if resend >= 0 then resend else c.fastresend,
       nocwnd := if nc >= 0 then nc != 0 else c.nocwnd)
  }
}
