/**
 Two endpoints and a network that may lose, duplicate and reorder datagrams.

 Each endpoint runs the 32-bit program (`k`) on bytes. Beside it runs the same
 protocol over unbounded sequence numbers (`u`), which only the proof looks at.
 The network is the set of all datagrams ever sent: any of them may be delivered
 at any time, any number of times, or never. The one assumption is that a
 datagram is not delivered once its numbers lie half the number space behind.
 */
module KcpSystem {
  import opened Serial
  import opened KcpWire
  import opened KcpModel
  import opened KcpInvariant
  import opened KcpRefine
  import opened KcpPack
  import opened KcpStream
  import opened KcpProtocol

  datatype Endpoint = Endpoint(k: Kcb, u: Kcb, accepted: seq<Msg>, delivered: seq<Msg>)

  /** The bytes on the wire, and the segments they stand for with their true numbers. */
  datatype Datagram = Datagram(bytes: seq<byte>, pkts: seq<Pkt>)

  datatype Sys = Sys(a: Endpoint, b: Endpoint, ab: set<Datagram>, ba: set<Datagram>)

  datatype Event = SendMsg(msg: Msg) | RecvMsg(len: int) | UpdateAt(now: u32) | FlushNow | Arrive(d: Datagram)

  datatype Step = Step(atA: bool, ev: Event)

  // ---------- what an endpoint does ----------

  ghost predicate Usable(e: Endpoint) {
    0 < e.k.Mss() < WORD && 0 < e.u.Mss() < WORD && 0 <= e.k.snd.wnd && 0 <= e.u.snd.wnd
  }

  ghost function Emitted(conv: u32, mtu: int, pkts: seq<Pkt>, true_: seq<Pkt>): seq<Datagram> {
    var out, groups := Datagrams(conv, Grouped(mtu, pkts)), Grouped(mtu, true_);
    seq(|out|, i requires 0 <= i < |out| => Datagram(out[i], if i < |groups| then groups[i] else []))
  }

  /**
   The endpoint after an event, and the datagrams it sent. Every endpoint that was
   ever configured is usable (lemma KcpSafety.LinkedUsable).
   */
  ghost function Act(e: Endpoint, ev: Event): (r: (Endpoint, seq<Datagram>)) {
    if Usable(e) then React(e, ev) else (e, [])
  }

  ghost function React(e: Endpoint, ev: Event): (r: (Endpoint, seq<Datagram>))
    requires Usable(e)
  {
    match ev
    case SendMsg(msg) =>
      var (k, rc) := Send(e.k, msg);
      (e.(k := k, u := Send(e.u, msg).0, accepted := if rc == 0 then e.accepted + [msg] else e.accepted), [])
    case RecvMsg(len) =>
      var (k, rc, msg) := Recv(Wrap32, e.k, len);
      (e.(k := k, u := Recv(Unbounded, e.u, len).0,
          delivered := if rc >= 0 && len >= 0 then e.delivered + [msg] else e.delivered), [])
    case UpdateAt(now) =>
      var ((k, pkts), (u, true_)) := (Update(Wrap32, e.k, now), Update(Unbounded, e.u, now));
      (e.(k := k, u := u), Emitted(e.k.conv, e.k.mtu, pkts, true_))
    case FlushNow =>
      var ((k, pkts), (u, true_)) := (Flush(Wrap32, e.k), Flush(Unbounded, e.u));
      (e.(k := k, u := u), Emitted(e.k.conv, e.k.mtu, pkts, true_))
    case Arrive(d) =>
      (e.(k := Input(Wrap32, e.k, Parse(e.k.conv, d.bytes)), u := Input(Unbounded, e.u, Parsed(d.pkts, 0))), [])
  }

  ghost function AsSet(out: seq<Datagram>): set<Datagram> {
    set d | d in out
  }

  ghost function Next(s: Sys, st: Step): Sys {
    if st.atA then
      var (a, out) := Act(s.a, st.ev);
      s.(a := a, ab := s.ab + AsSet(out))
    else
      var (b, out) := Act(s.b, st.ev);
      s.(b := b, ba := s.ba + AsSet(out))
  }

  // ---------- the network assumption ----------

  /** The segment's numbers do not lie half the number space behind. */
  ghost predicate RecentPkt(k: Kcb, p: Pkt) {
    && k.snd.nxt - HALF <= p.una
    && (p.cmd == CMD_ACK ==> k.snd.nxt - HALF <= p.sn)
    && (p.cmd == CMD_PUSH ==> k.rcv.nxt + k.rcv.wnd - HALF <= p.sn)
  }

  ghost predicate RecentAll(sc: Scan, pkts: seq<Pkt>)
    decreases |pkts|
  {
    pkts != [] ==> RecentPkt(sc.k, pkts[0]) && RecentAll(Apply(Unbounded, sc, pkts[0]), pkts[1..])
  }

  /** A datagram may arrive when it was sent, and is not too old. */
  ghost predicate Enabled(me: Endpoint, inbox: set<Datagram>, ev: Event) {
    ev.Arrive? ==> ev.d in inbox && RecentAll(Scan(me.u, false, 0), ev.d.pkts)
  }

  ghost predicate StepEnabled(s: Sys, st: Step) {
    if st.atA then Enabled(s.a, s.ba, st.ev) else Enabled(s.b, s.ab, st.ev)
  }

  // ---------- the invariant ----------

  ghost function StreamOf(e: Endpoint): seq<Frag>
    requires e.u.Mss() > 0
  {
    AllFrags(e.accepted, e.u.Mss())
  }

  /**
   The windows that have been on the wire, and so the number of segments in flight,
   are 16 bits wide, whatever the sending window is set to.
   */
  ghost predicate Narrow(k: Kcb) {
    k.rcv.wnd < 0x1_0000 && k.ctl.rmtWnd < 0x1_0000 && k.snd.nxt - k.snd.una < 0x1_0000
  }

  /** The program is the unbounded protocol with its numbers reduced. */
  ghost predicate Linked(e: Endpoint) {
    e.k == WrapKcb(e.u) && KcbOk(Unbounded, e.u) && Narrow(e.u)
  }

  /** Data flowing from x to y. */
  ghost predicate Flow(x: Endpoint, y: Endpoint)
    requires x.u.Mss() > 0
  {
    && Direction(StreamOf(x), x.u.snd, y.u.rcv, |AllFrags(y.delivered, x.u.Mss())|)
    && y.delivered <= x.accepted
    && (forall i :: 0 <= i < |x.accepted| ==> FragCount(|x.accepted[i]|, x.u.Mss()) < WND_RCV)
  }

  ghost predicate TrueFrom(stream: seq<Frag>, sent: int, r: Rcv, p: Pkt) {
    DataTrue(stream, sent, p) && AckTrue(r, p)
  }

  /** A datagram reads back as its segments, and every one of them is true. */
  ghost predicate DatagramTrue(conv: u32, stream: seq<Frag>, sent: int, r: Rcv, d: Datagram) {
    && Parse(conv, d.bytes) == Parsed(WrapPkts(d.pkts), 0)
    && forall p :: p in d.pkts ==> TrueFrom(stream, sent, r, p) && 0 <= p.wnd < 0x1_0000
  }

  ghost predicate NetTrue(x: Endpoint, net: set<Datagram>)
    requires x.u.Mss() > 0
  {
    forall d :: d in net ==> DatagramTrue(x.u.conv, StreamOf(x), x.u.snd.nxt, x.u.rcv, d)
  }

  /** Everything known about the two endpoints and both networks; symmetric in the two. */
  ghost predicate Pair(me: Endpoint, ot: Endpoint, out: set<Datagram>, inbox: set<Datagram>) {
    && Linked(me) && Linked(ot) && me.u.conv == ot.u.conv
    && Flow(me, ot) && Flow(ot, me)
    && NetTrue(me, out) && NetTrue(ot, inbox)
  }

  ghost predicate Inv(s: Sys) {
    Pair(s.a, s.b, s.ab, s.ba)
  }

  /** Configured in any way, nothing sent yet. */
  ghost predicate Started(e: Endpoint) {
    && e.k == e.u && KcbOk(Unbounded, e.u) && e.u.rcv.wnd < 0x1_0000 && e.u.ctl.rmtWnd < 0x1_0000
    && e.u.snd.una == e.u.snd.nxt == e.u.rcv.nxt == 0
    && e.u.snd.queue == [] && e.u.snd.buf == [] && e.u.rcv.queue == [] && e.u.rcv.buf == [] && e.u.rcv.acks == []
    && e.accepted == [] && e.delivered == []
  }

  ghost predicate Init(s: Sys) {
    && Started(s.a) && Started(s.b) && s.a.u.conv == s.b.u.conv
    && s.ab == {} && s.ba == {}
  }

  lemma InitInv(s: Sys)
    requires Init(s)
    ensures Inv(s)
  {
    StartedLinked(s.a);
    StartedLinked(s.b);
    StartedFlow(s.a, s.b);
    StartedFlow(s.b, s.a);
  }

  lemma StartedLinked(e: Endpoint)
    requires Started(e)
    ensures Linked(e)
  {
    assert WrapSegs([]) == [] && WrapRcvSegs([]) == [] && WrapAcks([]) == [];
    WrapZero();
  }

  lemma StartedFlow(x: Endpoint, y: Endpoint)
    requires Started(x) && Started(y)
    ensures Flow(x, y)
  {
  }

  // ---------- growth ----------

  lemma TrueFromGrows(stream: seq<Frag>, sent: int, r: Rcv, stream': seq<Frag>, sent': int, r': Rcv, p: Pkt)
    requires TrueFrom(stream, sent, r, p) && stream <= stream' && sent <= sent' <= |stream'| && Grows(r, r')
    ensures TrueFrom(stream', sent', r', p)
  {
  }

  lemma NetGrows(x: Endpoint, x': Endpoint, net: set<Datagram>)
    requires x.u.Mss() == x'.u.Mss() > 0 && x.u.conv == x'.u.conv && NetTrue(x, net)
    requires StreamOf(x) <= StreamOf(x') && x.u.snd.nxt <= x'.u.snd.nxt <= |StreamOf(x')| && Grows(x.u.rcv, x'.u.rcv)
    ensures NetTrue(x', net)
  {
    forall d | d in net
      ensures DatagramTrue(x'.u.conv, StreamOf(x'), x'.u.snd.nxt, x'.u.rcv, d)
    {
      forall p | p in d.pkts
        ensures TrueFrom(StreamOf(x'), x'.u.snd.nxt, x'.u.rcv, p)
      {
        TrueFromGrows(StreamOf(x), x.u.snd.nxt, x.u.rcv, StreamOf(x'), x'.u.snd.nxt, x'.u.rcv, p);
      }
    }
  }

  lemma GrowsRefl(r: Rcv)
    ensures Grows(r, r)
  {
  }
}
