/**
 What a flush puts on the wire: whole segments, in order, in non-empty datagrams
 no larger than the MTU, which the receiver reads back exactly.
 */
module KcpPack {
  import opened Serial
  import opened KcpWire
  import opened KcpModel
  import opened KcpInvariant
  import opened KcpRefine

  ghost function Flatten(groups: seq<seq<Pkt>>): seq<Pkt> {
    if groups == [] then [] else Flatten(groups[..|groups| - 1]) + groups[|groups| - 1]
  }

  ghost predicate Fits(mtu: int, group: seq<Pkt>) {
    group != [] && TotalSize(group) <= mtu
  }

  /** Grouping loses, repeats and reorders nothing. */
  lemma {:induction false} GroupedFlattens(mtu: int, pkts: seq<Pkt>)
    ensures Flatten(Grouped(mtu, pkts)) == pkts
    ensures Flatten(Pack(mtu, pkts).done) + Pack(mtu, pkts).cur == pkts
  {
    if pkts != [] {
      var init, p := pkts[..|pkts| - 1], pkts[|pkts| - 1];
      GroupedFlattens(mtu, init);
      var pk := Pack(mtu, init);
      assert init + [p] == pkts;
    }
  }

  /** What filling keeps: closed datagrams fit, and so does the one being filled. */
  ghost predicate PackingFits(mtu: int, pk: Packing) {
    && (forall i :: 0 <= i < |pk.done| ==> Fits(mtu, pk.done[i]))
    && (pk.cur != [] ==> Fits(mtu, pk.cur))
  }

  lemma PackOneFits(mtu: int, pk: Packing, p: Pkt)
    requires PackingFits(mtu, pk) && p.Size() <= mtu
    ensures PackingFits(mtu, PackOne(mtu, pk, p)) && PackOne(mtu, pk, p).cur != []
  {
  }

  /** Every datagram is non-empty and within the MTU, when every segment is. */
  lemma {:induction false} GroupedFits(mtu: int, pkts: seq<Pkt>)
    requires forall i :: 0 <= i < |pkts| ==> pkts[i].Size() <= mtu
    ensures forall i :: 0 <= i < |Grouped(mtu, pkts)| ==> Fits(mtu, Grouped(mtu, pkts)[i])
    ensures PackingFits(mtu, Pack(mtu, pkts)) && (pkts != [] ==> Pack(mtu, pkts).cur != [])
  {
    if pkts != [] {
      GroupedFits(mtu, pkts[..|pkts| - 1]);
      PackOneFits(mtu, Pack(mtu, pkts[..|pkts| - 1]), pkts[|pkts| - 1]);
    }
  }

  /** Datagrams are filled greedily: a datagram was closed only because the next segment did not fit. */
  lemma {:induction false} GroupedGreedy(mtu: int, pkts: seq<Pkt>, i: nat)
    requires forall j :: 0 <= j < |pkts| ==> pkts[j].Size() <= mtu
    requires i + 1 < |Grouped(mtu, pkts)|
    ensures Grouped(mtu, pkts)[i + 1] != []
    ensures TotalSize(Grouped(mtu, pkts)[i]) + Grouped(mtu, pkts)[i + 1][0].Size() > mtu
  {
    var init, p := pkts[..|pkts| - 1], pkts[|pkts| - 1];
    var pk, groups := Pack(mtu, init), Grouped(mtu, pkts);
    GroupedFits(mtu, init);
    GroupedFits(mtu, pkts);
    if i + 1 < |Grouped(mtu, init)| {
      GroupedGreedy(mtu, init, i);
      assert groups[i] == Grouped(mtu, init)[i];
      assert groups[i + 1][0] == Grouped(mtu, init)[i + 1][0];
    }
  }

  lemma FlattenMember(groups: seq<seq<Pkt>>, g: nat, i: nat)
    requires g < |groups| && i < |groups[g]|
    ensures groups[g][i] in Flatten(groups)
  {
    var last := |groups| - 1;
    if g < last {
      FlattenMember(groups[..last], g, i);
    } else {
      assert Flatten(groups)[|Flatten(groups[..last])| + i] == groups[g][i];
    }
  }

  // ---------- grouping and reduction modulo 2^32 ----------

  ghost function WrapGroups(groups: seq<seq<Pkt>>): (r: seq<seq<Pkt>>)
    ensures |r| == |groups| && forall i :: 0 <= i < |groups| ==> r[i] == WrapPkts(groups[i])
  {
    seq(|groups|, i requires 0 <= i < |groups| => WrapPkts(groups[i]))
  }

  lemma {:induction false} TotalSizeWraps(pkts: seq<Pkt>)
    ensures TotalSize(WrapPkts(pkts)) == TotalSize(pkts)
  {
    if pkts != [] {
      assert WrapPkts(pkts)[..|pkts| - 1] == WrapPkts(pkts[..|pkts| - 1]);
      TotalSizeWraps(pkts[..|pkts| - 1]);
    }
  }

  ghost function WrapPacking(pk: Packing): Packing {
    Packing(WrapGroups(pk.done), WrapPkts(pk.cur))
  }

  lemma PackOneWraps(mtu: int, pk: Packing, p: Pkt)
    ensures PackOne(mtu, WrapPacking(pk), WrapPkt(p)) == WrapPacking(PackOne(mtu, pk, p))
  {
    TotalSizeWraps(pk.cur);
    assert WrapPkts(pk.cur + [p]) == WrapPkts(pk.cur) + [WrapPkt(p)];
    assert WrapGroups(pk.done + [pk.cur]) == WrapGroups(pk.done) + [WrapPkts(pk.cur)];
    assert WrapPkts([p]) == [WrapPkt(p)];
  }

  lemma {:induction false} PackWraps(mtu: int, pkts: seq<Pkt>)
    ensures Pack(mtu, WrapPkts(pkts)) == WrapPacking(Pack(mtu, pkts))
  {
    hide PackOne;
    if pkts != [] {
      var init, p := pkts[..|pkts| - 1], pkts[|pkts| - 1];
      assert WrapPkts(pkts)[..|pkts| - 1] == WrapPkts(init);
      PackWraps(mtu, init);
      PackOneWraps(mtu, Pack(mtu, init), p);
    } else {
      assert WrapPkts([]) == [] && WrapGroups([]) == [];
    }
  }

  lemma GroupedWraps(mtu: int, pkts: seq<Pkt>)
    ensures Grouped(mtu, WrapPkts(pkts)) == WrapGroups(Grouped(mtu, pkts))
  {
    PackWraps(mtu, pkts);
    var pk := Pack(mtu, pkts);
    assert WrapGroups(pk.done + [pk.cur]) == WrapGroups(pk.done) + [WrapPkts(pk.cur)];
  }

  lemma Enc32Wraps(w: int)
    ensures Enc32(Wrap(w)) == Enc32(w)
  {
    var v, q := Wrap(w), w / WORD;
    ByteTurns(v, q * 0x100_0000);
    ByteTurns(v / 0x100, q * 0x1_0000);
    ByteTurns(v / 0x1_0000, q * 0x100);
    ByteTurns(v / 0x100_0000, q);
    assert w / 0x100 == v / 0x100 + 256 * (q * 0x1_0000);
    assert w / 0x1_0000 == v / 0x1_0000 + 256 * (q * 0x100);
    assert w / 0x100_0000 == v / 0x100_0000 + 256 * q;
  }

  lemma ByteTurns(x: int, turns: int)
    ensures (x + 256 * turns) % 256 == x % 256
  {
  }

  /** The bytes of a datagram do not depend on the reduced part of the numbers in it. */
  lemma {:induction false} EncodeAllWraps(conv: u32, pkts: seq<Pkt>)
    ensures EncodeAll(conv, WrapPkts(pkts)) == EncodeAll(conv, pkts)
  {
    if pkts != [] {
      var init, p := pkts[..|pkts| - 1], pkts[|pkts| - 1];
      assert WrapPkts(pkts)[..|pkts| - 1] == WrapPkts(init);
      EncodeAllWraps(conv, init);
      EncodePktWraps(conv, p);
      hide EncodePkt;
    }
  }

  lemma EncodePktWraps(conv: u32, p: Pkt)
    ensures EncodePkt(conv, WrapPkt(p)) == EncodePkt(conv, p)
  {
    Enc32Wraps(p.sn);
    Enc32Wraps(p.una);
    hide Enc32, Enc16, Wrap;
  }

  // ---------- the theorem about one flush ----------

  ghost predicate FragOk(mss: int, frg: int, data: seq<byte>) {
    0 <= frg < WND_RCV && |data| <= mss
  }

  /** Every fragment to be sent fits a datagram and its header fields. */
  ghost predicate Sized(k: Kcb) {
    && (forall i :: 0 <= i < |k.snd.queue| ==> FragOk(k.Mss(), k.snd.queue[i].frg, k.snd.queue[i].data))
    && (forall i :: 0 <= i < |k.snd.buf| ==> FragOk(k.Mss(), k.snd.buf[i].frg, k.snd.buf[i].data))
  }

  lemma {:induction false} FragmentSized(msg: seq<byte>, mss: int, count: nat)
    requires mss > 0 && count < WND_RCV
    ensures forall f :: f in Fragment(msg, mss, count) ==> FragOk(mss, f.frg, f.data)
  {
    if count > 0 {
      FragmentSized(msg[Min(|msg|, mss)..], mss, count - 1);
    }
  }

  lemma SendSized(k: Kcb, msg: seq<byte>)
    requires Sized(k) && k.Mss() > 0
    ensures Sized(Send(k, msg).0)
  {
    CountPositive(|msg|, k.Mss());
    if Send(k, msg).1 == 0 {
      FragmentSized(msg, k.Mss(), FragCount(|msg|, k.Mss()));
    }
  }

  lemma InputSized(ar: Arith, k: Kcb, d: Parsed)
    requires Sized(k) && 0 < k.Mss() < WORD
    ensures Sized(Input(ar, k, d))
  {
    hide ApplyAll, ParseFastack, GrowCwnd;
    ApplyAllKeepsMtu(ar, Scan(k, false, 0), d.pkts);
    ApplyAllSized(ar, Scan(k, false, 0), d.pkts);
    var sc := ApplyAll(ar, Scan(k, false, 0), d.pkts);
    FastackSized(ar, sc.k, sc.maxack);
  }

  lemma FastackSized(ar: Arith, k: Kcb, sn: int)
    requires Sized(k)
    ensures Sized(k.(snd := ParseFastack(ar, k.snd, sn)))
  {
    BumpBeforeSame(ar, k.snd.buf, sn);
  }

  lemma {:induction false} ApplyAllSized(ar: Arith, sc: Scan, pkts: seq<Pkt>)
    requires Sized(sc.k)
    ensures Sized(ApplyAll(ar, sc, pkts).k)
    decreases |pkts|
  {
    hide Apply;
    if pkts != [] {
      ApplySized(ar, sc, pkts[0]);
      ApplyAllSized(ar, Apply(ar, sc, pkts[0]), pkts[1..]);
    }
  }

  lemma ApplySized(ar: Arith, sc: Scan, p: Pkt)
    requires Sized(sc.k)
    ensures Sized(Apply(ar, sc, p).k)
  {
    hide DropBefore, RemoveAcked, PushPkt, UpdateAck, Wrap, Signed, Itimediff;
    DropIsSuffix(ar, sc.k.snd.buf, p.una);
    var s := ShrinkBuf(ParseUna(ar, sc.k.snd, p.una));
    var at := RemoveAckedShape(ar, s.buf, p.sn);
  }

  lemma {:induction false} AdmitSized(ar: Arith, k: Kcb, cwnd: int, t: Stamp)
    requires Sized(k)
    ensures Sized(k.(snd := Admit(ar, k.snd, cwnd, t)))
    decreases |k.snd.queue|
  {
    if ar.Diff(k.snd.nxt, ar.Norm(k.snd.una + cwnd)) < 0 && k.snd.queue != [] {
      AdmitSized(ar, k.(snd := AdmitOne(ar, k.snd, t)), cwnd, t);
    }
  }

  lemma StampedSized(t: Stamp, seg: SndSeg, mss: int)
    requires FragOk(mss, seg.frg, seg.data)
    ensures var out := Stamped(t, seg);
            FragOk(mss, out.frg, out.data) && PktOf(out).Size() <= mss + OVERHEAD
    ensures Due(t, seg) != NotDue && 0 <= t.wnd < 0x1_0000 && mss < HALF ==> Wireable(PktOf(Stamped(t, seg)))
  {
    hide Wrap, Signed, Itimediff;
  }

  lemma {:induction false} TransmitSized(t: Stamp, buf: seq<SndSeg>, mss: int)
    requires forall i :: 0 <= i < |buf| ==> FragOk(mss, buf[i].frg, buf[i].data)
    ensures forall p :: p in Transmit(t, buf).pkts ==> p.Size() <= mss + OVERHEAD
    ensures forall p :: p in Transmit(t, buf).pkts && 0 <= t.wnd < 0x1_0000 && mss < HALF ==> Wireable(p)
    ensures forall seg :: seg in Transmit(t, buf).buf ==> FragOk(mss, seg.frg, seg.data)
  {
    hide Stamped, Due;
    if buf != [] {
      var init, seg := buf[..|buf| - 1], buf[|buf| - 1];
      TransmitSized(t, init, mss);
      StampedSized(t, seg, mss);
    }
  }

  lemma ControlPktsFit(r: Rcv, askSend: bool, askTell: bool)
    requires 0 <= r.nque && r.wnd < 0x1_0000
    ensures forall i :: 0 <= i < |AckPkts(r)| ==> Wireable(AckPkts(r)[i]) && AckPkts(r)[i].Size() == OVERHEAD
    ensures var p := ProbePkts(r, askSend, askTell);
            forall i :: 0 <= i < |p| ==> Wireable(p[i]) && p[i].Size() == OVERHEAD
  {
  }

  lemma FlushSized(ar: Arith, k: Kcb)
    requires KcbOk(ar, k) && Sized(k)
    ensures Sized(Flush(ar, k).0)
  {
    if k.ctl.updated {
      hide Admit, Transmit, ProbeTimer, SendWindow, AckPkts, ProbePkts, Flush, SndRun, RcvRun;
      var c := ProbeTimer(k.ctl);
      var t := StampOf(k.rcv, c);
      AdmitSized(ar, k, SendWindow(k.snd, c), t);
      TransmitSized(t, Admit(ar, k.snd, SendWindow(k.snd, c), t).buf, k.Mss());
      FlushParts(ar, k);
    }
  }

  /** Everything a flush writes can be written: it fits its header fields and the MTU. */
  lemma FlushFits(ar: Arith, k: Kcb)
    requires KcbOk(ar, k) && Sized(k) && k.rcv.wnd < 0x1_0000
    ensures forall p :: p in Flush(ar, k).1 ==> Wireable(p) && p.Size() <= k.mtu
  {
    if k.ctl.updated {
      hide Admit, Transmit, ProbeTimer, SendWindow, AckPkts, ProbePkts, Flush, Wireable, SndRun, RcvRun;
      var c := ProbeTimer(k.ctl);
      var t := StampOf(k.rcv, c);
      AdmitSized(ar, k, SendWindow(k.snd, c), t);
      TransmitSized(t, Admit(ar, k.snd, SendWindow(k.snd, c), t).buf, k.Mss());
      ControlPktsFit(k.rcv, c.askSend, c.askTell);
      FlushParts(ar, k);
    }
  }

  /**
   The datagrams of one flush, read back by the segment loop of ikcp_input, give
   the pending acknowledgements, then the window probes, then the transmitted
   segments, in order; each datagram is non-empty, within the MTU, and made of
   whole segments.
   */
  lemma FlushReadsBack(k: Kcb)
    requires KcbOk(Wrap32, k) && Sized(k) && k.rcv.wnd < 0x1_0000 && k.ctl.updated
    ensures var c := ProbeTimer(k.ctl);
            var t := StampOf(k.rcv, c);
            var s := Admit(Wrap32, k.snd, SendWindow(k.snd, c), t);
            var pkts := Flush(Wrap32, k).1;
            var groups := Grouped(k.mtu, pkts);
            var out := Datagrams(k.conv, groups);
            && Flatten(groups) == AckPkts(k.rcv) + ProbePkts(k.rcv, c.askSend, c.askTell) + Transmit(t, s.buf).pkts
            && forall i :: 0 <= i < |out| ==>
                 && 0 < |out[i]| <= k.mtu
                 && Parse(k.conv, out[i]) == Parsed(WrapPkts(groups[i]), 0)
  {
    FlushFits(Wrap32, k);
    FlushParts(Wrap32, k);
    var pkts := Flush(Wrap32, k).1;
    GroupedFlattens(k.mtu, pkts);
    GroupedFits(k.mtu, pkts);
    var groups := Grouped(k.mtu, pkts);
    var out := Datagrams(k.conv, groups);
    forall i | 0 <= i < |out|
      ensures 0 < |out[i]| <= k.mtu && Parse(k.conv, out[i]) == Parsed(WrapPkts(groups[i]), 0)
    {
      assert Fits(k.mtu, groups[i]);
      forall j | 0 <= j < |groups[i]|
        ensures Wireable(groups[i][j])
      {
        FlattenMember(groups, i, j);
      }
      ReadsBack(k.conv, k.mtu, groups[i]);
    }
  }

  lemma ReadsBack(conv: u32, mtu: int, group: seq<Pkt>)
    requires Fits(mtu, group) && mtu < HALF && forall j :: 0 <= j < |group| ==> Wireable(group[j])
    ensures 0 < |EncodeAll(conv, group)| <= mtu
    ensures Parse(conv, EncodeAll(conv, group)) == Parsed(WrapPkts(group), 0)
  {
    ParseEncoded(conv, group);
    EncodedSize(conv, group);
    assert |group| > 0 && TotalSize(group) >= group[|group| - 1].Size() >= OVERHEAD;
    SignedSmall(|EncodeAll(conv, group)|);
  }
}
