/**
 The KCP control block as the program has it: an object whose methods walk and
 rewrite its four queues in loops, and write datagrams through a pointer into a
 fixed buffer. Every method is proved to compute the function of the same name
 in KcpModel, so what the other modules prove about those functions holds of it.
 */
module KcpClass {
  import opened Serial
  import opened KcpWire
  import M = KcpModel
  import opened KcpInvariant
  import opened KcpPack
  import KcpSchedule

  type Frag = M.Frag
  type SndSeg = M.SndSeg
  type RcvSeg = M.RcvSeg

  // ---------- writing through a pointer ----------

  method Encode8u(buf: array<byte>, p: nat, c: int) returns (q: nat)
    requires p + 1 <= buf.Length
    modifies buf
    ensures q == p + 1 && buf[..q] == old(buf[..p]) + [c % 256]
  {
    buf[p] := c % 256;
    q := p + 1;
  }

  method Encode16u(buf: array<byte>, p: nat, w: int) returns (q: nat)
    requires p + 2 <= buf.Length
    modifies buf
    ensures q == p + 2 && buf[..q] == old(buf[..p]) + Enc16(w)
  {
    buf[p], buf[p + 1] := w % 256, w / 256 % 256;
    q := p + 2;
  }

  method Encode32u(buf: array<byte>, p: nat, l: int) returns (q: nat)
    requires p + 4 <= buf.Length
    modifies buf
    ensures q == p + 4 && buf[..q] == old(buf[..p]) + Enc32(l)
  {
    buf[p], buf[p + 1] := l % 256, l / 0x100 % 256;
    buf[p + 2], buf[p + 3] := l / 0x1_0000 % 256, l / 0x100_0000 % 256;
    q := p + 4;
  }

  /** ikcp_encode_seg followed by the copy of the data. */
  method EncodeSeg(buf: array<byte>, ptr: nat, conv: u32, seg: Pkt) returns (q: nat)
    requires ptr + seg.Size() <= buf.Length
    modifies buf
    ensures q == ptr + seg.Size() && buf[..q] == old(buf[..ptr]) + EncodePkt(conv, seg)
  {
    hide Enc16, Enc32, EncodeHeader;
    HeaderParts(buf[..ptr], conv, seg);
    q := Encode32u(buf, ptr, conv);
    q := Encode8u(buf, q, seg.cmd);
    q := Encode8u(buf, q, seg.frg);
    q := Encode16u(buf, q, seg.wnd);
    q := Encode32u(buf, q, seg.ts);
    q := Encode32u(buf, q, seg.sn);
    q := Encode32u(buf, q, seg.una);
    q := Encode32u(buf, q, |seg.data|);
    assert buf[..q] == old(buf[..ptr]) + EncodeHeader(conv, seg);
    q := CopyIn(buf, q, seg.data);
  }

  lemma HeaderParts(base: seq<byte>, conv: u32, p: Pkt)
    ensures base + Enc32(conv) + [p.cmd % 256] + [p.frg % 256] + Enc16(p.wnd) + Enc32(p.ts) + Enc32(p.sn) + Enc32(p.una)
            + Enc32(|p.data|) == base + EncodeHeader(conv, p)
  {
    hide Enc16, Enc32;
  }

  /** memcpy into the buffer. */
  method CopyIn(buf: array<byte>, p: nat, data: seq<byte>) returns (q: nat)
    requires p + |data| <= buf.Length
    modifies buf
    ensures q == p + |data| && buf[..q] == old(buf[..p]) + data
  {
    forall i | 0 <= i < |data| {
      buf[p + i] := data[i];
    }
    q := p + |data|;
    assert buf[..p] == old(buf[..p]) && buf[p..q] == data;
    assert buf[..q] == buf[..p] + buf[p..q];
  }

  // ---------- one step of each walk ----------

  lemma RemoveStep(buf: seq<SndSeg>, p: nat, sn: int)
    requires p < |buf|
    ensures M.RemoveAcked(Wrap32, buf[p..], sn) ==
            if sn == buf[p].sn then buf[p + 1..]
            else if Wrap32.Diff(sn, buf[p].sn) < 0 then buf[p..]
            else [buf[p]] + M.RemoveAcked(Wrap32, buf[p + 1..], sn)
  {
    hide Wrap, Signed;
    assert buf[p..][1..] == buf[p + 1..];
  }

  lemma BumpStep(done: seq<SndSeg>, rest: seq<SndSeg>, sn: int)
    requires rest != []
    ensures Wrap32.Diff(sn, rest[0].sn) < 0 ==> M.BumpBefore(Wrap32, rest, sn) == rest
    ensures Wrap32.Diff(sn, rest[0].sn) >= 0 ==>
              var seg := M.Bumped(rest[0], sn);
              && done + M.BumpBefore(Wrap32, rest, sn) == done + [seg] + M.BumpBefore(Wrap32, rest[1..], sn)
              && (done + rest)[|done| := seg] == done + [seg] + rest[1..]
  {
    hide Wrap, Signed, M.Bumped;
    var seg := M.Bumped(rest[0], sn);
    if Wrap32.Diff(sn, rest[0].sn) >= 0 {
      assert M.BumpBefore(Wrap32, rest, sn) == [seg] + M.BumpBefore(Wrap32, rest[1..], sn);
    }
    hide *;
    Replaced(done, rest, seg);
    JoinThree(done, [seg], M.BumpBefore(Wrap32, rest[1..], sn));
  }

  lemma JoinThree<T>(a: seq<T>, b: seq<T>, c: seq<T>)
    ensures a + (b + c) == a + b + c
  {
  }

  lemma Replaced<T>(done: seq<T>, rest: seq<T>, x: T)
    requires rest != []
    ensures (done + rest)[|done| := x] == done + [x] + rest[1..]
  {
  }

  lemma FragmentStep(msg: seq<byte>, mss: int, count: nat)
    requires mss > 0 && count > 0
    ensures var size := Min(|msg|, mss);
            M.Fragment(msg, mss, count) ==
              [M.Frag(count - 1, msg[..size])] + M.Fragment(msg[size..], mss, count - 1)
  {
  }

  lemma HeadStep(q: seq<Frag>, p: nat)
    requires p < |q|
    ensures M.HeadCount(q[p..]) == if q[p].frg == 0 then 1 else 1 + M.HeadCount(q[p + 1..])
    ensures M.Joined(q[..p + 1]) == M.Joined(q[..p]) + q[p].data
  {
    assert q[p..][1..] == q[p + 1..];
    JoinedSnoc(q[..p], q[p]);
    assert q[..p + 1] == q[..p] + [q[p]];
  }

  lemma {:induction false} JoinedSnoc(q: seq<Frag>, f: Frag)
    ensures M.Joined(q + [f]) == M.Joined(q) + f.data
  {
    if q != [] {
      JoinedSnoc(q[1..], f);
      assert (q + [f])[1..] == q[1..] + [f];
    }
  }

  /** The assertion of ikcp_recv: the length of what was merged is the size announced, whatever was queued. */
  lemma LengthIsPeeksize(r: M.Rcv, n: nat, out: seq<byte>)
    requires n == M.HeadCount(r.queue) && out == M.Joined(r.queue[..n]) && M.Peeksize(r) >= 0
    ensures |out| == M.Peeksize(r)
  {
    if r.queue[0].frg == 0 {
      JoinedSnoc([], r.queue[0]);
      assert r.queue[..1] == [] + [r.queue[0]];
    }
  }

  // ---------- packing ----------

  lemma EncodeSnoc(conv: u32, pkts: seq<Pkt>, p: Pkt)
    ensures EncodeAll(conv, pkts + [p]) == EncodeAll(conv, pkts) + EncodePkt(conv, p)
    ensures TotalSize(pkts + [p]) == TotalSize(pkts) + p.Size()
  {
    assert (pkts + [p])[..|pkts|] == pkts;
  }

  lemma EncodeOne(conv: u32, p: Pkt)
    ensures EncodeAll(conv, [p]) == EncodePkt(conv, p) && TotalSize([p]) == p.Size()
  {
    EncodeSnoc(conv, [], p);
    assert [] + [p] == [p];
  }

  lemma PackMore(mtu: int, pkts: seq<Pkt>, p: Pkt)
    ensures M.Pack(mtu, pkts + [p]) == M.PackOne(mtu, M.Pack(mtu, pkts), p)
  {
    assert (pkts + [p])[..|pkts|] == pkts;
  }

  lemma PackSnoc(mtu: int, pkts: seq<Pkt>, i: nat)
    requires i < |pkts|
    ensures M.Pack(mtu, pkts[..i + 1]) == M.PackOne(mtu, M.Pack(mtu, pkts[..i]), pkts[i])
  {
    assert pkts[..i + 1] == pkts[..i] + [pkts[i]];
    PackMore(mtu, pkts[..i], pkts[i]);
  }

  lemma TransmitStep(t: M.Stamp, buf: seq<SndSeg>, p: nat)
    requires p < |buf|
    ensures var w, w', out := M.Transmit(t, buf[..p]), M.Transmit(t, buf[..p + 1]), M.Stamped(t, buf[p]);
            && w'.buf == w.buf + [out]
            && w'.pkts == (if M.Due(t, buf[p]) == M.NotDue then w.pkts else w.pkts + [M.PktOf(out)])
            && w'.timeouts == w.timeouts + (if M.Due(t, buf[p]) == M.Timeout then 1 else 0)
            && w'.fasts == w.fasts + (if M.Due(t, buf[p]) == M.Fast then 1 else 0)
            && w'.dead == (w.dead || (M.Due(t, buf[p]) != M.NotDue && out.xmit >= t.deadLink))
  {
    assert buf[..p + 1][..p] == buf[..p];
  }

  /** What the acknowledgement loop of a flush leaves in the segment it reuses. */
  ghost function Leftover(acks: seq<M.Ack>): M.Ack {
    if acks == [] then M.Ack(0, 0) else acks[|acks| - 1]
  }

  lemma StampedData(t: M.Stamp, seg: SndSeg)
    ensures M.Stamped(t, seg).data == seg.data
    ensures M.PktOf(M.Stamped(t, seg)).Size() == OVERHEAD + |seg.data|
  {
  }

  /**
   The fields of the control block, grouped as in KcpModel: `snd` has snd_una,
   snd_nxt, snd_wnd, snd_queue, nsnd_que, snd_buf and nsnd_buf; `rcv` the same for
   receiving, with acklist; `ctl` the timers, estimates and options.
   */
  class Kcp {
    const conv: u32
    var mtu: int
    var snd: M.Snd
    var rcv: M.Rcv
    var ctl: M.Ctl
    var buffer: array<byte>
    /** The datagrams handed to the output callback so far. */
    var outbox: seq<seq<byte>>

    /** The state as a value. */
    ghost function Model(): M.Kcb
      reads this
    {
      M.Kcb(conv, mtu, snd, rcv, ctl)
    }

    ghost predicate Valid()
      reads this
    {
      KcbOk(Wrap32, Model()) && Sized(Model()) && buffer.Length == (mtu + OVERHEAD) * 3
    }

    constructor (conv: u32)
      ensures Valid() && Model() == M.Create(conv) && outbox == [] && fresh(buffer)
    {
      this.conv := conv;
      mtu := M.MTU_DEF;
      snd := M.Snd(0, 0, M.WND_SND, [], 0, [], 0);
      rcv := M.Rcv(0, M.WND_RCV, [], 0, [], 0, []);
      ctl := M.Ctl(M.WND_RCV, M.Cong(0, 0, M.THRESH_INIT), M.Rtt(0, 0, M.RTO_DEF), M.RTO_MIN, 0, M.INTERVAL, M.INTERVAL,
                   false, 0, 0, false, false, 0, false, M.DEADLINK, false, 0, M.FASTACK_LIMIT, false);
      buffer := new byte[(M.MTU_DEF + OVERHEAD) * 3];
      outbox := [];
    }

    // ---------- acknowledgements ----------

    method ShrinkBuf()
      modifies `snd
      ensures snd == M.ShrinkBuf(old(snd))
    {
      if |snd.buf| != 0 {
        snd := snd.(una := snd.buf[0].sn);
      } else {
        snd := snd.(una := snd.nxt);
      }
    }

    method ParseAck(sn: int)
      modifies `snd
      ensures snd == M.ParseAck(Wrap32, old(snd), sn)
    {
      hide Wrap, Signed, M.RemoveAcked;
      if Wrap32.Diff(sn, snd.una) < 0 || Wrap32.Diff(sn, snd.nxt) >= 0 {
        return;
      }
      ghost var buf, s := snd.buf, snd;
      var p := 0;
      assert buf[0..] == buf && s == s.(buf := buf, nbuf := s.nbuf - 0);
      while p < |snd.buf|
        invariant 0 <= p <= |buf| && snd == old(snd)
        invariant M.RemoveAcked(Wrap32, buf, sn) == buf[..p] + M.RemoveAcked(Wrap32, buf[p..], sn)
      {
        var seg := snd.buf[p];
        RemoveStep(buf, p, sn);
        if sn == seg.sn {
          snd := snd.(buf := snd.buf[..p] + snd.buf[p + 1..], nbuf := snd.nbuf - 1);
          return;
        }
        if Wrap32.Diff(sn, seg.sn) < 0 {
          break;
        }
        p := p + 1;
      }
      assert M.RemoveAcked(Wrap32, buf, sn) == buf;
    }

    method ParseUna(una: int)
      modifies `snd
      ensures snd == M.ParseUna(Wrap32, old(snd), una)
    {
      hide Wrap, Signed;
      ghost var s := snd;
      while |snd.buf| != 0
        invariant snd == s.(buf := snd.buf, nbuf := s.nbuf - (|s.buf| - |snd.buf|))
        invariant M.DropBefore(Wrap32, snd.buf, una) == M.DropBefore(Wrap32, s.buf, una)
        decreases |snd.buf|
      {
        if Wrap32.Diff(una, snd.buf[0].sn) > 0 {
          snd := snd.(buf := snd.buf[1..], nbuf := snd.nbuf - 1);
        } else {
          break;
        }
      }
    }

    method ParseFastack(sn: int)
      modifies `snd
      ensures snd == M.ParseFastack(Wrap32, old(snd), sn)
    {
      hide Wrap, Signed, M.BumpBefore;
      if Wrap32.Diff(sn, snd.una) < 0 || Wrap32.Diff(sn, snd.nxt) >= 0 {
        return;
      }
      ghost var s := snd;
      ghost var done: seq<SndSeg>, rest := [], s.buf;
      var p := 0;
      assert done + rest == s.buf;
      while p < |snd.buf|
        invariant p == |done| && snd == s.(buf := done + rest)
        invariant M.BumpBefore(Wrap32, s.buf, sn) == done + M.BumpBefore(Wrap32, rest, sn)
        decreases |rest|
      {
        var seg := snd.buf[p];
        BumpStep(done, rest, sn);
        if Wrap32.Diff(sn, seg.sn) < 0 {
          break;
        }
        if sn != seg.sn {
          seg := seg.(fastack := Wrap(seg.fastack + 1));
        }
        snd := snd.(buf := snd.buf[p := seg]);
        done, rest := done + [seg], rest[1..];
        p := p + 1;
      }
    }

    method UpdateAck(rtt: int)
      requires rtt >= 0
      modifies `ctl
      ensures ctl == old(ctl).(rtt := M.UpdateAck(old(ctl).rtt, ctl.minrto, ctl.interval, rtt))
    {
      var srtt, rttval := ctl.rtt.srtt, ctl.rtt.rttval;
      if srtt == 0 {
        srtt := rtt;
        rttval := rtt / 2;
      } else {
        var delta := rtt - srtt;
        if delta < 0 {
          delta := -delta;
        }
        rttval := M.Quotient(3 * rttval + delta, 4);
        srtt := M.Quotient(7 * srtt + rtt, 8);
        if srtt < 1 {
          srtt := 1;
        }
      }
      var rto := Wrap(srtt + Max(ctl.interval, Wrap(4 * rttval)));
      ctl := ctl.(rtt := M.Rtt(srtt, rttval, Min(Max(ctl.minrto, rto), M.RTO_MAX)));
    }

    // ---------- data ----------

    /** The array behind the list is KcpAcks.AckList. */
    method AckPush(sn: int, ts: u32)
      modifies `rcv
      ensures rcv == old(rcv).(acks := old(rcv).acks + [M.Ack(sn, ts)])
    {
      rcv := rcv.(acks := rcv.acks + [M.Ack(sn, ts)]);
    }

    /** Move available data from rcv_buf to rcv_queue. */
    method MoveAvailable()
      modifies `rcv
      ensures rcv == M.Drain(Wrap32, old(rcv))
    {
      while |rcv.buf| != 0
        invariant M.Drain(Wrap32, rcv) == M.Drain(Wrap32, old(rcv))
        decreases |rcv.buf|
      {
        var seg := rcv.buf[0];
        if seg.sn == rcv.nxt && rcv.nque < rcv.wnd {
          rcv := rcv.(buf := rcv.buf[1..], nbuf := rcv.nbuf - 1);
          rcv := rcv.(queue := rcv.queue + [M.Frag(seg.frg, seg.data)], nque := rcv.nque + 1);
          rcv := rcv.(nxt := Wrap(rcv.nxt + 1));
        } else {
          break;
        }
      }
    }

    method ParseData(newseg: RcvSeg)
      modifies `rcv
      ensures rcv == M.ParseData(Wrap32, old(rcv), newseg)
    {
      hide Signed;
      var sn := newseg.sn;
      if Wrap32.Diff(sn, Wrap(rcv.nxt + rcv.wnd)) >= 0 || Wrap32.Diff(sn, rcv.nxt) < 0 {
        return;
      }
      var p, repeat := |rcv.buf|, false;
      while p > 0
        invariant 0 <= p <= |rcv.buf| && !repeat && rcv == old(rcv)
        invariant M.Slot(Wrap32, rcv.buf, p, sn) == M.Slot(Wrap32, rcv.buf, |rcv.buf|, sn)
      {
        var seg := rcv.buf[p - 1];
        if seg.sn == sn {
          repeat := true;
          break;
        }
        if Wrap32.Diff(sn, seg.sn) > 0 {
          break;
        }
        p := p - 1;
      }
      if !repeat {
        rcv := rcv.(buf := rcv.buf[..p] + [newseg] + rcv.buf[p..], nbuf := rcv.nbuf + 1);
      }
      assert rcv == M.Insert(Wrap32, old(rcv), newseg);
      MoveAvailable();
    }

    // ---------- ikcp_input ----------

    /** An acknowledgement, once una has been dealt with. */
    method InputAck(p: Pkt, flag: bool, maxack: int) returns (flag': bool, maxack': int)
      modifies `snd, `ctl
      ensures M.Scan(Model(), flag', maxack') == M.AckPkt(Wrap32, M.Scan(old(Model()), flag, maxack), p)
    {
      hide Wrap, Signed, M.RemoveAcked, M.UpdateAck;
      flag', maxack' := flag, maxack;
      if Itimediff(ctl.current, p.ts) >= 0 {
        UpdateAck(Itimediff(ctl.current, p.ts));
      }
      ParseAck(p.sn);
      ShrinkBuf();
      if !flag {
        flag', maxack' := true, p.sn;
      } else if Wrap32.Diff(p.sn, maxack) > 0 {
        maxack' := p.sn;
      }
    }

    method InputPush(p: Pkt)
      modifies `rcv
      ensures rcv == M.PushPkt(Wrap32, old(rcv), p)
    {
      hide Signed, M.Drain, M.Insert;
      if Wrap32.Diff(p.sn, Wrap(rcv.nxt + rcv.wnd)) < 0 {
        AckPush(p.sn, p.ts);
        if Wrap32.Diff(p.sn, rcv.nxt) >= 0 {
          ParseData(M.RcvSeg(p.sn, p.frg, p.data));
        }
      }
    }

    /** One segment of a datagram, after its header has been read. */
    method InputSegment(p: Pkt, flag: bool, maxack: int) returns (flag': bool, maxack': int)
      requires 0 <= p.wnd < WORD
      modifies `snd, `rcv, `ctl
      ensures M.Scan(Model(), flag', maxack') == M.Apply(Wrap32, M.Scan(old(Model()), flag, maxack), p)
    {
      hide Signed, M.ParseUna, M.ShrinkBuf, M.PushPkt, M.AckPkt;
      flag', maxack' := flag, maxack;
      ctl := ctl.(rmtWnd := p.wnd);
      ParseUna(p.una);
      ShrinkBuf();
      if p.cmd == CMD_ACK {
        flag', maxack' := InputAck(p, flag, maxack);
      } else if p.cmd == CMD_PUSH {
        InputPush(p);
      } else if p.cmd == CMD_WASK {
        ctl := ctl.(askTell := true);
      }
    }

    method Input(data: seq<byte>) returns (rc: int)
      requires Valid()
      modifies `snd, `rcv, `ctl
      ensures Valid()
      ensures rc == Parse(conv, data).rc
      ensures Model() == M.Input(Wrap32, old(Model()), Parse(conv, data))
    {
      hide Wrap, Signed, M.Apply, M.GrowCwnd, M.ParseFastack, SndRun, RcvRun, Sized;
      ghost var all := Parse(conv, data);
      ghost var k := Model();
      InputKeeps'(k, data);
      var prevUna, maxack, flag := snd.una, 0, false;
      if Signed(Wrap(|data|)) < OVERHEAD {
        return -1;
      }
      var rest := data;
      while |rest| >= OVERHEAD
        invariant M.ApplyAll(Wrap32, M.Scan(k, false, 0), all.pkts) ==
                  M.ApplyAll(Wrap32, M.Scan(Model(), flag, maxack), ParseAll(conv, rest).pkts)
        invariant all.rc == ParseAll(conv, rest).rc
        decreases |rest|
      {
        if Dec32(rest, 0) != conv {
          return -1;
        }
        var len := Dec32(rest, 20);
        if |rest| - OVERHEAD < len || Signed(len) < 0 {
          return -2;
        }
        if !KnownCmd(rest[4]) {
          return -3;
        }
        var p := DecodePkt(rest, len);
        ghost var tail := ParseAll(conv, rest[OVERHEAD + len..]).pkts;
        assert ([p] + tail)[1..] == tail;
        flag, maxack := InputSegment(p, flag, maxack);
        rest := rest[OVERHEAD + len..];
      }
      if flag {
        ParseFastack(maxack);
      }
      if Wrap32.Diff(snd.una, prevUna) > 0 {
        GrowCwnd();
      }
      rc := 0;
    }

    lemma InputKeeps'(k: M.Kcb, data: seq<byte>)
      requires KcbOk(Wrap32, k) && Sized(k)
      ensures var k' := M.Input(Wrap32, k, Parse(k.conv, data));
              KcbOk(Wrap32, k') && Sized(k') && k'.mtu == k.mtu
    {
      hide M.Apply, M.GrowCwnd, M.ParseFastack, SndRun, RcvRun, Sized, Parse;
      AnyDatagramKeeps(k, data);
      InputSized(Wrap32, k, Parse(k.conv, data));
      M.ApplyAllKeepsMtu(Wrap32, M.Scan(k, false, 0), Parse(k.conv, data).pkts);
    }

    method GrowCwnd()
      requires 0 < mtu - OVERHEAD < WORD
      modifies `ctl
      ensures ctl == old(ctl).(cong := M.GrowCwnd(old(ctl).cong, ctl.rmtWnd, mtu - OVERHEAD))
    {
      hide Wrap, M.Times32, M.AvoidanceStep;
      var cwnd, incr, mss := ctl.cong.cwnd, ctl.cong.incr, mtu - OVERHEAD;
      if cwnd < ctl.rmtWnd {
        if cwnd < ctl.cong.ssthresh {
          cwnd := Wrap(cwnd + 1);
          incr := Wrap(incr + mss);
        } else {
          if incr < mss {
            incr := mss;
          }
          incr := M.AvoidanceStep(incr, mss);
          if M.Times32(Wrap(cwnd + 1), mss) <= incr {
            cwnd := Wrap(cwnd + 1);
          }
        }
        if cwnd > ctl.rmtWnd {
          cwnd := ctl.rmtWnd;
          incr := M.Times32(ctl.rmtWnd, mss);
        }
      }
      ctl := ctl.(cong := ctl.cong.(cwnd := cwnd, incr := incr));
    }

    // ---------- ikcp_send ----------

    method Send(buf: seq<byte>, len: int) returns (rc: int)
      requires Valid() && len <= |buf|
      modifies `snd
      ensures Valid()
      ensures len < 0 ==> rc == -1 && snd == old(snd)
      ensures len >= 0 ==> (Model(), rc) == M.Send(old(Model()), buf[..len])
    {
      hide SndRun, RcvRun, M.FragCount, M.Fragment, Sized;
      if len < 0 {
        return -1;
      }
      ghost var k, msg := Model(), buf[..len];
      SendKeeps(Wrap32, k, msg);
      SendSized(k, msg);
      var mss := mtu - OVERHEAD;
      var count := M.FragCount(len, mss);
      if count >= M.WND_RCV {
        return -2;
      }
      M.CountPositive(len, mss);
      ghost var all := M.Fragment(msg, mss, count);
      ghost var done: seq<Frag> := [];
      var rest := buf[..len];
      var i := 0;
      while i < count
        invariant 0 <= i <= count && |done| == i
        invariant all == done + M.Fragment(rest, mss, count - i)
        invariant snd == k.snd.(queue := k.snd.queue + done, nque := k.snd.nque + i)
      {
        var size := if |rest| > mss then mss else |rest|;
        var seg := M.Frag(count - i - 1, rest[..size]);
        FragmentStep(rest, mss, count - i);
        JoinThree(done, [seg], M.Fragment(rest[size..], mss, count - i - 1));
        JoinThree(k.snd.queue, done, [seg]);
        snd := snd.(queue := snd.queue + [seg], nque := snd.nque + 1);
        done := done + [seg];
        rest := rest[size..];
        i := i + 1;
      }
      assert all == done;
      rc := 0;
    }

    // ---------- ikcp_recv ----------

    method Peeksize() returns (size: int)
      ensures size == M.Peeksize(rcv)
    {
      if |rcv.queue| == 0 {
        return -1;
      }
      if rcv.queue[0].frg == 0 {
        return |rcv.queue[0].data|;
      }
      if rcv.nque < rcv.queue[0].frg + 1 {
        return -1;
      }
      ghost var q := rcv.queue;
      var p, length := 0, 0;
      assert q[0..] == q && q[..0] == [];
      while p < |rcv.queue|
        invariant 0 <= p <= |q| && length == |M.Joined(q[..p])|
        invariant M.HeadCount(q) == p + M.HeadCount(q[p..])
      {
        var seg := rcv.queue[p];
        HeadStep(q, p);
        length := length + |seg.data|;
        if seg.frg == 0 {
          return length;
        }
        p := p + 1;
      }
      assert q[..p] == q;
      size := length;
    }

    /** Merge the fragments of the head message, removing them unless this is a peek. */
    method MergeHead(peek: bool) returns (out: seq<byte>)
      modifies `rcv
      ensures var q := old(rcv.queue);
              var n := M.HeadCount(q);
              && out == M.Joined(q[..n])
              && rcv == if peek then old(rcv) else old(rcv).(queue := q[n..], nque := old(rcv).nque - n)
    {
      ghost var r, q := rcv, rcv.queue;
      var p, more := 0, true;
      ghost var n := 0;
      out := [];
      assert q[0..] == q && q[..0] == [];
      while more && p < |rcv.queue|
        invariant 0 <= n <= |q| && out == M.Joined(q[..n])
        invariant if peek then p == n && rcv == r else p == 0 && rcv == r.(queue := q[n..], nque := r.nque - n)
        invariant M.HeadCount(q) == if more then n + M.HeadCount(q[n..]) else n
        decreases more, |q| - n
      {
        var seg := rcv.queue[p];
        HeadStep(q, n);
        out := out + seg.data;
        n := n + 1;
        if peek {
          p := p + 1;
        } else {
          rcv := rcv.(queue := rcv.queue[1..], nque := rcv.nque - 1);
        }
        if seg.frg == 0 {
          more := false;
        }
      }
    }

    /** ikcp_recv: the return code, and the bytes copied to the caller's buffer. */
    method Recv(len: int) returns (rc: int, out: seq<byte>)
      requires Valid()
      modifies `rcv, `ctl
      ensures Valid()
      ensures (Model(), rc, out) == M.Recv(Wrap32, old(Model()), len)
    {
      hide SndRun, RcvRun, Sized, M.Drain, M.HeadCount, M.Joined, M.Peeksize;
      ghost var k := Model();
      RecvKeeps(Wrap32, k, len);
      if |rcv.queue| == 0 {
        return -1, [];
      }
      var size := if len < 0 then -len else len;
      var peeksize := Peeksize();
      if peeksize < 0 {
        return -2, [];
      }
      if peeksize > size {
        return -3, [];
      }
      var recover := rcv.nque >= rcv.wnd;
      out := MergeHead(len < 0);
      LengthIsPeeksize(k.rcv, M.HeadCount(k.rcv.queue), out);
      assert |out| == peeksize;
      MoveAvailable();
      assert k.ctl == k.ctl.(askTell := k.ctl.askTell);
      if rcv.nque < rcv.wnd && recover {
        ctl := ctl.(askTell := true);
      }
      rc := |out|;
      assert (Model(), rc, out) == M.Recv(Wrap32, k, len);
      SizedSnd(k, Model());
    }

    lemma SizedSnd(k: M.Kcb, k': M.Kcb)
      requires Sized(k) && k'.snd == k.snd && k'.mtu == k.mtu
      ensures Sized(k')
    {
    }

    // ---------- ikcp_flush ----------

    /** The buffer holds the segments being packed, and the full datagrams have been handed over. */
    ghost predicate Filled(base: seq<seq<byte>>, pk: M.Packing, ptr: nat)
      reads `mtu, `buffer, `outbox, buffer
    {
      && ptr == TotalSize(pk.cur) <= mtu && buffer.Length == (mtu + OVERHEAD) * 3
      && buffer[..ptr] == EncodeAll(conv, pk.cur)
      && outbox == base + M.Datagrams(conv, pk.done)
    }

    method Output(size: nat)
      requires size <= buffer.Length
      modifies `outbox
      ensures outbox == old(outbox) + if size == 0 then [] else [buffer[..size]]
    {
      if size == 0 {
        return;
      }
      outbox := outbox + [buffer[..size]];
    }

    /** Write one segment, sending what has been written first when there is no room for it. */
    method Put(seg: Pkt, ptr: nat, ghost base: seq<seq<byte>>, ghost pk: M.Packing) returns (q: nat)
      requires Filled(base, pk, ptr) && 50 <= mtu && seg.Size() <= mtu
      modifies buffer, `outbox
      ensures Filled(base, M.PackOne(mtu, pk, seg), q)
    {
      hide EncodePkt;
      q := ptr;
      if q + seg.Size() > mtu {
        Output(q);
        q := 0;
        EncodeOne(conv, seg);
      } else {
        EncodeSnoc(conv, pk.cur, seg);
      }
      q := EncodeSeg(buffer, q, conv, seg);
    }

    method FlushAcks(wnd: int, ghost base: seq<seq<byte>>) returns (q: nat, last: M.Ack)
      requires wnd == M.WndUnused(rcv) && 50 <= mtu && Filled(base, M.Packing([], []), 0)
      modifies buffer, `outbox
      ensures Filled(base, M.Pack(mtu, M.AckPkts(rcv)), q) && last == Leftover(rcv.acks)
    {
      hide EncodeAll;
      q, last := 0, M.Ack(0, 0);
      var i := 0;
      ghost var all := M.AckPkts(rcv);
      assert all[..0] == [];
      while i < |rcv.acks|
        invariant 0 <= i <= |all| == |rcv.acks| && all == M.AckPkts(rcv)
        invariant Filled(base, M.Pack(mtu, all[..i]), q) && last == Leftover(rcv.acks[..i])
      {
        last := rcv.acks[i];
        var seg := Pkt(CMD_ACK, 0, wnd, last.ts, last.sn, rcv.nxt, []);
        PackSnoc(mtu, all, i);
        q := Put(seg, q, base, M.Pack(mtu, all[..i]));
        i := i + 1;
      }
      assert all[..i] == all && rcv.acks[..i] == rcv.acks;
    }

    method ProbeTimer()
      modifies `ctl
      ensures ctl == M.ProbeTimer(old(ctl))
    {
      hide Signed, Itimediff;
      if ctl.rmtWnd == 0 {
        if ctl.probeWait == 0 {
          ctl := ctl.(probeWait := M.PROBE_INIT);
          ctl := ctl.(tsProbe := Wrap(ctl.current + ctl.probeWait));
        } else if Itimediff(ctl.current, ctl.tsProbe) >= 0 {
          var wait := ctl.probeWait;
          if wait < M.PROBE_INIT {
            wait := M.PROBE_INIT;
          }
          wait := Wrap(wait + wait / 2);
          if wait > M.PROBE_LIMIT {
            wait := M.PROBE_LIMIT;
          }
          ctl := ctl.(probeWait := wait, tsProbe := Wrap(ctl.current + wait), askSend := true);
        }
      } else {
        ctl := ctl.(tsProbe := 0, probeWait := 0);
      }
    }

    /** The probes reuse the segment the acknowledgement loop has left, so they carry its last sn and ts. */
    method FlushProbes(ptr: nat, wnd: int, last: M.Ack, ghost base: seq<seq<byte>>, ghost r: M.Rcv) returns (q: nat)
      requires wnd == M.WndUnused(r) && rcv.nxt == r.nxt && last == Leftover(r.acks)
      requires 50 <= mtu && Filled(base, M.Pack(mtu, M.AckPkts(r)), ptr)
      modifies buffer, `outbox
      ensures Filled(base, M.Pack(mtu, M.AckPkts(r) + M.ProbePkts(r, ctl.askSend, ctl.askTell)), q)
    {
      hide EncodeAll, M.Pack, M.PackOne, M.AckPkts;
      q := ptr;
      ghost var sent := M.AckPkts(r);
      if ctl.askSend {
        var seg := Pkt(CMD_WASK, 0, wnd, last.ts, last.sn, rcv.nxt, []);
        PackMore(mtu, sent, seg);
        q := Put(seg, q, base, M.Pack(mtu, sent));
        sent := sent + [seg];
      }
      if ctl.askTell {
        var seg := Pkt(CMD_WINS, 0, wnd, last.ts, last.sn, rcv.nxt, []);
        PackMore(mtu, sent, seg);
        q := Put(seg, q, base, M.Pack(mtu, sent));
        sent := sent + [seg];
      }
      assert sent == M.AckPkts(r) + M.ProbePkts(r, ctl.askSend, ctl.askTell);
    }

    /** Move data from snd_queue to snd_buf while the window has room. */
    method AdmitQueued(cwnd: int, ghost t: M.Stamp)
      requires t == M.StampOf(rcv, ctl)
      modifies `snd
      ensures snd == M.Admit(Wrap32, old(snd), cwnd, t)
    {
      hide Signed;
      while Wrap32.Diff(snd.nxt, Wrap(snd.una + cwnd)) < 0
        invariant M.Admit(Wrap32, snd, cwnd, t) == M.Admit(Wrap32, old(snd), cwnd, t)
        decreases |snd.queue|
      {
        if |snd.queue| == 0 {
          break;
        }
        var frag := snd.queue[0];
        var newseg := M.SndSeg(snd.nxt, rcv.nxt, frag.frg, M.WndUnused(rcv), ctl.current, ctl.current,
                               ctl.rtt.rto, 0, 0, frag.data);
        snd := snd.(queue := snd.queue[1..], nque := snd.nque - 1, buf := snd.buf + [newseg], nbuf := snd.nbuf + 1,
                    nxt := Wrap(snd.nxt + 1));
      }
    }

    /** Decide whether a segment is due, and stamp it if so. */
    method Restamp(seg: SndSeg, t: M.Stamp) returns (out: SndSeg, cause: M.Cause)
      ensures out == M.Stamped(t, seg) && cause == M.Due(t, seg)
    {
      hide Wrap, Signed, Itimediff;
      cause := M.NotDue;
      out := seg;
      if seg.xmit == 0 {
        cause := M.First;
        out := out.(xmit := Wrap(out.xmit + 1), rto := t.rto);
        out := out.(resendts := Wrap(t.current + out.rto + t.rtomin));
      } else if Itimediff(t.current, seg.resendts) >= 0 {
        cause := M.Timeout;
        out := out.(xmit := Wrap(out.xmit + 1));
        if t.nodelay {
          out := out.(rto := Wrap(out.rto + t.rto / 2));
        } else {
          out := out.(rto := Wrap(out.rto + t.rto));
        }
        out := out.(resendts := Wrap(t.current + out.rto));
      } else if seg.fastack >= t.resent {
        if Signed(seg.xmit) <= t.fastlimit || t.fastlimit <= 0 {
          cause := M.Fast;
          out := out.(xmit := Wrap(out.xmit + 1), fastack := 0, resendts := Wrap(t.current + out.rto));
        }
      }
      if cause != M.NotDue {
        out := out.(ts := t.current, wnd := t.wnd, una := t.una);
      }
    }

    /** Resend one segment if it is due. */
    method FlushSegment(p: nat, ptr: nat, t: M.Stamp, ghost base: seq<seq<byte>>, ghost pk: M.Packing)
      returns (q: nat, cause: M.Cause)
      requires 50 <= mtu && Filled(base, pk, ptr)
      requires p < |snd.buf| && |snd.buf[p].data| <= mtu - OVERHEAD
      modifies buffer, `outbox, `snd, `ctl
      ensures var seg := old(snd.buf[p]);
              var out := M.Stamped(t, seg);
              && cause == M.Due(t, seg)
              && snd == old(snd).(buf := old(snd.buf)[p := out])
              && ctl == AfterSegment(old(ctl), t, cause, out)
              && Filled(base, if cause == M.NotDue then pk else M.PackOne(mtu, pk, M.PktOf(out)), q)
    {
      hide *;
      q := ptr;
      var seg;
      seg, cause := Restamp(snd.buf[p], t);
      StampedData(t, snd.buf[p]);
      snd := snd.(buf := snd.buf[p := seg]);
      CountSegment(ctl, t, cause, seg);
      if cause == M.Timeout {
        ctl := ctl.(xmit := Wrap(ctl.xmit + 1));
      }
      if cause != M.NotDue {
        q := Put(M.PktOf(seg), q, base, pk);
        if seg.xmit >= t.deadLink {
          ctl := ctl.(dead := true);
        }
      }
    }

    /** Flush data segments: resend what is due, and count why. */
    method FlushData(ptr: nat, t: M.Stamp, ghost base: seq<seq<byte>>, ghost before: seq<Pkt>)
      returns (q: nat, lost: bool, change: bool)
      requires 50 <= mtu && Filled(base, M.Pack(mtu, before), ptr)
      requires forall seg :: seg in snd.buf ==> |seg.data| <= mtu - OVERHEAD
      modifies buffer, `outbox, `snd, `ctl
      ensures var w := M.Transmit(t, old(snd).buf);
              && snd == old(snd).(buf := w.buf)
              && ctl == AfterWalk(old(ctl), w)
              && lost == (w.timeouts > 0) && change == (w.fasts > 0)
              && Filled(base, M.Pack(mtu, before + w.pkts), q)
    {
      hide *;
      ghost var buf, c := snd.buf, ctl;
      q, lost, change := ptr, false, false;
      var p := 0;
      ghost var w := M.Transmit(t, []);
      WalkNone(t, c);
      assert before + [] == before && buf[..0] == [] && buf[0..] == buf;
      while p < |snd.buf|
        invariant 0 <= p <= |snd.buf| == |buf| && snd == old(snd).(buf := w.buf + buf[p..])
        invariant w == M.Transmit(t, buf[..p]) && |w.buf| == p
        invariant ctl == AfterWalk(c, w)
        invariant lost == (w.timeouts > 0) && change == (w.fasts > 0)
        invariant Filled(base, M.Pack(mtu, before + w.pkts), q)
      {
        var cause;
        assert snd.buf[p] == buf[p];
        label step:
        q, cause := FlushSegment(p, q, t, base, M.Pack(mtu, before + w.pkts));
        ReplaceAt(w.buf, buf, p, M.Stamped(t, buf[p]));
        if cause == M.Timeout {
          lost := true;
        } else if cause == M.Fast {
          change := true;
        }
        ghost var out := M.Stamped(t, buf[p]);
        TransmitStep(t, buf, p);
        AfterWalkStep(c, t, w, M.Transmit(t, buf[..p + 1]), cause, out);
        PackMore(mtu, before + w.pkts, M.PktOf(out));
        assert before + w.pkts + [M.PktOf(out)] == before + (w.pkts + [M.PktOf(out)]);
        w := M.Transmit(t, buf[..p + 1]);
        p := p + 1;
      }
      assert buf[..p] == buf;
    }

    /** Update ssthresh, and with it the congestion window. */
    method UpdateSsthresh(t: M.Stamp, cwnd: u32, lost: bool, change: bool, ghost w: M.Walk)
      requires 0 < mtu - OVERHEAD < WORD && lost == (w.timeouts > 0) && change == (w.fasts > 0)
      modifies `ctl
      ensures ctl == old(ctl).(cong := M.AfterFlush(old(ctl).cong, w, Wrap(snd.nxt - snd.una), cwnd, t.resent,
                                                    mtu - OVERHEAD))
    {
      hide Wrap, M.Times32;
      var g, mss := ctl.cong, mtu - OVERHEAD;
      if change {
        var inflight := Wrap(snd.nxt - snd.una);
        g := g.(ssthresh := Max(inflight / 2, M.THRESH_MIN));
        g := g.(cwnd := Wrap(g.ssthresh + t.resent));
        g := g.(incr := M.Times32(g.cwnd, mss));
      }
      if lost {
        g := M.Cong(1, mss, Max(cwnd / 2, M.THRESH_MIN));
      }
      if g.cwnd < 1 {
        g := g.(cwnd := 1, incr := mss);
      }
      ctl := ctl.(cong := g);
    }

    /** ikcp_flush: the datagrams handed over are those of the grouped segments, in order. */
    method Flush()
      requires Valid()
      modifies buffer, `outbox, `snd, `rcv, `ctl
      ensures Valid()
      ensures Model() == M.Flush(Wrap32, old(Model())).0
      ensures outbox == old(outbox) + M.Datagrams(conv, M.Grouped(mtu, M.Flush(Wrap32, old(Model())).1))
    {
      hide SndRun, RcvRun, Sized, EncodeAll, M.Pack, M.Transmit, M.Admit, M.ProbeTimer, M.AckPkts, M.ProbePkts,
           M.AfterFlush, M.StampOf, Wrap, Filled, AfterWalk, Leftover, M.SendWindow, M.WndUnused, M.Datagrams, Signed;
      ghost var k, base := Model(), outbox;
      FlushKeeps(Wrap32, k);
      FlushSized(Wrap32, k);
      if !ctl.updated {
        assert outbox == outbox + M.Datagrams(conv, M.Grouped(mtu, [])) by { PackNone(conv, mtu); }
        return;
      }
      hide M.Flush;
      var wnd := M.WndUnused(rcv);
      StartFilled(base);
      var ptr, last := FlushAcks(wnd, base);
      rcv := rcv.(acks := []);
      ProbeTimer();
      ghost var c := ctl;
      ptr := FlushProbes(ptr, wnd, last, base, k.rcv);
      ctl := ctl.(askSend := false, askTell := false);
      WindowIsWord(k.snd, ctl);
      var cwnd := M.SendWindow(snd, ctl);
      var t := M.StampOf(rcv, ctl);
      StampSame(k.rcv, rcv, k.snd, c, ctl);
      AdmitQueued(cwnd, t);
      ghost var s := snd;
      AdmitSized(Wrap32, k, cwnd, t);
      assert forall seg :: seg in snd.buf ==> |seg.data| <= mtu - OVERHEAD by {
        SizedData(k.(snd := s));
      }
      var lost, change;
      ghost var before := M.AckPkts(k.rcv) + M.ProbePkts(k.rcv, c.askSend, c.askTell);
      ptr, lost, change := FlushData(ptr, t, base, before);
      ghost var w := M.Transmit(t, s.buf);
      Finish(ptr, base, before + w.pkts);
      UpdateSsthresh(t, cwnd, lost, change, w);
      FlushMade(k, c, t, cwnd, s, w, Model());
    }

    /** Flash remain segments. */
    method Finish(ptr: nat, ghost base: seq<seq<byte>>, ghost pkts: seq<Pkt>)
      requires Filled(base, M.Pack(mtu, pkts), ptr)
      modifies `outbox
      ensures outbox == base + M.Datagrams(conv, M.Grouped(mtu, pkts))
    {
      hide EncodeAll, M.Pack;
      Output(ptr);
    }

    lemma StartFilled(base: seq<seq<byte>>)
      requires 50 <= mtu && outbox == base && buffer.Length == (mtu + OVERHEAD) * 3
      ensures Filled(base, M.Packing([], []), 0)
    {
      assert buffer[..0] == [];
    }

    // ---------- ikcp_update and ikcp_check ----------

    /** Advance the flush timer, and say whether a flush is due. */
    method Tick(current: u32) returns (due: bool)
      requires CtlOk(ctl)
      modifies `ctl
      ensures (ctl, due) == M.Tick(old(ctl), current) && CtlOk(ctl)
    {
      hide Wrap, Signed, Itimediff;
      var tsFlush := if ctl.updated then ctl.tsFlush else current;
      var slap := Itimediff(current, tsFlush);
      if slap >= 10000 || slap < -10000 {
        tsFlush := current;
        slap := 0;
      }
      due := slap >= 0;
      if due {
        tsFlush := Wrap(tsFlush + ctl.interval);
        if Itimediff(current, tsFlush) >= 0 {
          tsFlush := Wrap(current + ctl.interval);
        }
      }
      ctl := ctl.(current := current, updated := true, tsFlush := tsFlush);
    }

    method Update(current: u32)
      requires Valid()
      modifies buffer, `outbox, `snd, `rcv, `ctl
      ensures Valid()
      ensures Model() == M.Update(Wrap32, old(Model()), current).0
      ensures outbox == old(outbox) + M.Datagrams(conv, M.Grouped(mtu, M.Update(Wrap32, old(Model()), current).1))
    {
      hide SndRun, RcvRun, Sized, M.Flush, M.Pack, M.Datagrams, M.Tick, CtlOk;
      ghost var k := Model();
      var due := Tick(current);
      SameQueues(k, Model());
      if due {
        Flush();
      } else {
        PackNone(conv, mtu);
        assert outbox + [] == outbox;
      }
    }

    method Check(current: u32) returns (next: u32)
      requires Valid()
      ensures next == M.Check(Model(), current)
    {
      hide SndRun, RcvRun, Sized, Wrap, Signed;
      var tsFlush := ctl.tsFlush;
      if !ctl.updated {
        return current;
      }
      if Itimediff(current, tsFlush) >= 10000 || Itimediff(current, tsFlush) < -10000 {
        tsFlush := current;
      }
      SameTime(current);
      if Itimediff(current, tsFlush) >= 0 {
        return current;
      }
      var tmFlush, tmPacket := Itimediff(tsFlush, current), 0x7fff_ffff;
      var p := 0;
      assert snd.buf[0..] == snd.buf;
      while p < |snd.buf|
        invariant 0 <= p <= |snd.buf|
        invariant M.NextResend(snd.buf, current, 0x7fff_ffff) == M.NextResend(snd.buf[p..], current, tmPacket)
      {
        assert snd.buf[p..][1..] == snd.buf[p + 1..];
        var diff := Itimediff(snd.buf[p].resendts, current);
        if diff <= 0 {
          AtOnce(Model(), current);
          return current;
        }
        if diff < tmPacket {
          tmPacket := diff;
        }
        p := p + 1;
      }
      assert M.NextResend(snd.buf, current, 0x7fff_ffff) == tmPacket;
      var minimal := if tmPacket < tmFlush then tmPacket else tmFlush;
      if minimal >= ctl.interval {
        minimal := ctl.interval;
      }
      next := Wrap(current + minimal);
    }

    // ---------- options ----------

    /** The new buffer replaces the old; what is queued must still fit the new size for the state to stay valid. */
    method SetMtu(mtu: int) returns (rc: int)
      requires Valid() && mtu < HALF
      modifies `mtu, `buffer
      ensures (Model(), rc) == M.SetMtu(old(Model()), mtu)
      ensures Valid() <==> Sized(Model())
    {
      hide SndRun, RcvRun, Sized;
      if mtu < 50 || mtu < OVERHEAD {
        return -1;
      }
      buffer := new byte[(mtu + OVERHEAD) * 3];
      this.mtu := mtu;
      rc := 0;
    }

    method WndSize(sndwnd: int, rcvwnd: int)
      modifies `snd, `rcv
      ensures Model() == M.WndSize(old(Model()), sndwnd, rcvwnd)
    {
      if sndwnd > 0 {
        snd := snd.(wnd := sndwnd);
      }
      if rcvwnd > 0 {
        rcv := rcv.(wnd := Max(rcvwnd, M.WND_RCV));
      }
    }

    method Interval(interval: int)
      requires Valid()
      modifies `ctl
      ensures Valid() && Model() == old(Model()).(ctl := ctl) && ctl == old(ctl).(interval := M.BoundedInterval(interval))
    {
      hide SndRun, RcvRun, Sized;
      ghost var k := Model();
      ctl := ctl.(interval := M.BoundedInterval(interval));
      SameQueues(k, Model());
    }

    method NoDelay(nodelay: int, interval: int, resend: int, nc: int)
      requires Valid()
      modifies `ctl
      ensures Valid() && Model() == old(Model()).(ctl := M.NoDelay(old(ctl), nodelay, interval, resend, nc))
    {
      hide SndRun, RcvRun, Sized;
      ghost var k := Model();
      var fast, minrto, period, skips, nocwnd := ctl.nodelay, ctl.minrto, ctl.interval, ctl.fastresend, ctl.nocwnd;
      if nodelay >= 0 {
        fast := nodelay != 0;
        if fast {
          minrto := M.RTO_NDL;
        } else {
          minrto := M.RTO_MIN;
        }
      }
      if interval >= 0 {
        period := M.BoundedInterval(interval);
      }
      if resend >= 0 {
        skips := resend;
      }
      if nc >= 0 {
        nocwnd := nc != 0;
      }
      ctl := ctl.(nodelay := fast, minrto := minrto, interval := period, fastresend := skips, nocwnd := nocwnd);
      SameQueues(k, Model());
    }

    /** The number of segments waiting: those in flight and those not yet admitted. */
    method Waitsnd() returns (n: int)
      requires Valid()
      ensures n == |snd.buf| + |snd.queue|
    {
      hide RcvRun, Sized;
      n := snd.nbuf + snd.nque;
    }
  }

  lemma SizedData(k: M.Kcb)
    requires Sized(k)
    ensures forall seg :: seg in k.snd.buf ==> |seg.data| <= k.Mss()
  {
  }

  lemma WindowIsWord(s: M.Snd, c: M.Ctl)
    requires SndRun(Wrap32, s)
    ensures 0 <= M.SendWindow(s, c) < WORD
  {
  }

  lemma PackNone(conv: u32, mtu: int)
    ensures M.Datagrams(conv, M.Grouped(mtu, [])) == []
  {
  }

  /** Clearing the acknowledgements and the probe flags does not change how segments are stamped. */
  lemma StampSame(r: M.Rcv, r': M.Rcv, s: M.Snd, c: M.Ctl, c': M.Ctl)
    requires r' == r.(acks := []) && c' == c.(askSend := false, askTell := false)
    ensures M.StampOf(r', c') == M.StampOf(r, c) && M.SendWindow(s, c') == M.SendWindow(s, c)
  {
    hide Wrap;
  }

  lemma SameQueues(k: M.Kcb, k': M.Kcb)
    requires k' == k.(ctl := k'.ctl) && KcbOk(Wrap32, k) && Sized(k) && CtlOk(k'.ctl)
    ensures KcbOk(Wrap32, k') && Sized(k')
  {
    hide SndRun, RcvRun;
  }

  lemma SameTime(now: u32)
    ensures Itimediff(now, now) == 0
  {
  }

  lemma AtOnce(k: M.Kcb, now: u32)
    requires M.NextResend(k.snd.buf, now, 0x7fff_ffff) == 0
    requires k.ctl.updated && CtlOk(k.ctl) && -10000 <= Itimediff(now, k.ctl.tsFlush) < 0
    ensures M.Check(k, now) == now
  {
    hide Itimediff, M.NextResend, SndRun, RcvRun;
    KcpSchedule.Opposite(now, k.ctl.tsFlush);
    assert Min(Min(0, Itimediff(k.ctl.tsFlush, now)), k.ctl.interval) == 0;
    assert Wrap(now) == now;
  }

  lemma FlushMade(k: M.Kcb, c: M.Ctl, t: M.Stamp, cwnd: u32, s: M.Snd, w: M.Walk, k': M.Kcb)
    requires KcbOk(Wrap32, k) && k.ctl.updated && c == M.ProbeTimer(k.ctl) && t == M.StampOf(k.rcv, c)
    requires cwnd == M.SendWindow(k.snd, c) && s == M.Admit(Wrap32, k.snd, cwnd, t) && w == M.Transmit(t, s.buf)
    requires k' == k.(snd := s.(buf := w.buf), rcv := k.rcv.(acks := []), ctl := k'.ctl)
    requires var c' := AfterWalk(c.(askSend := false, askTell := false), w);
             k'.ctl == c'.(cong := M.AfterFlush(c'.cong, w, Wrap(s.nxt - s.una), cwnd, t.resent, k.Mss()))
    ensures k' == M.Flush(Wrap32, k).0
    ensures M.Flush(Wrap32, k).1 == M.AckPkts(k.rcv) + M.ProbePkts(k.rcv, c.askSend, c.askTell) + w.pkts
  {
    hide M.Admit, M.Transmit, M.ProbeTimer, M.StampOf, M.AfterFlush, M.AckPkts, M.ProbePkts, Wrap, SndRun, RcvRun;
  }

  /** What transmitting one segment does to the counters. */
  ghost function AfterSegment(c: M.Ctl, t: M.Stamp, cause: M.Cause, out: SndSeg): M.Ctl {
    c.(xmit := if cause == M.Timeout then Wrap(c.xmit + 1) else c.xmit,
       dead := c.dead || (cause != M.NotDue && out.xmit >= t.deadLink))
  }

  lemma CountSegment(c: M.Ctl, t: M.Stamp, cause: M.Cause, out: SndSeg)
    ensures var c' := if cause == M.Timeout then c.(xmit := Wrap(c.xmit + 1)) else c;
            AfterSegment(c, t, cause, out) ==
              if cause != M.NotDue && out.xmit >= t.deadLink then c'.(dead := true) else c'
  {
    hide Wrap;
  }

  ghost function AfterWalk(c: M.Ctl, w: M.Walk): M.Ctl {
    c.(xmit := Wrap(c.xmit + w.timeouts), dead := c.dead || w.dead)
  }

  lemma ReplaceAt<T>(done: seq<T>, s: seq<T>, p: nat, x: T)
    requires |done| == p < |s|
    ensures (done + s[p..])[p := x] == done + [x] + s[p + 1..]
    ensures (done + s[p..])[p] == s[p]
  {
  }

  lemma WalkNone(t: M.Stamp, c: M.Ctl)
    ensures var w := M.Transmit(t, []);
            AfterWalk(c, w) == c && w.buf == [] && w.pkts == [] && w.timeouts == 0 && w.fasts == 0
  {
  }

  lemma AfterWalkStep(c: M.Ctl, t: M.Stamp, w: M.Walk, w': M.Walk, cause: M.Cause, out: SndSeg)
    requires w'.timeouts == w.timeouts + (if cause == M.Timeout then 1 else 0)
    requires w'.dead == (w.dead || (cause != M.NotDue && out.xmit >= t.deadLink))
    ensures AfterSegment(AfterWalk(c, w), t, cause, out) == AfterWalk(c, w')
  {
    hide Wrap;
    WrapOfWrap(c.xmit + w.timeouts, 1);
  }
}
