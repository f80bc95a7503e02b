/**
 The theorems about whole runs.
 */
module KcpTheorems {
  import opened Serial
  import opened KcpWire
  import opened KcpModel
  import opened KcpInvariant
  import opened KcpRefine
  import opened KcpPack
  import opened KcpStream
  import opened KcpProtocol
  import opened KcpSystem
  import opened KcpSafety

  // ---------- runs ----------

  lemma ActKeepsPair(me: Endpoint, ot: Endpoint, out: set<Datagram>, inbox: set<Datagram>, ev: Event)
    requires Pair(me, ot, out, inbox) && Enabled(me, inbox, ev)
    ensures Pair(Act(me, ev).0, ot, out + AsSet(Act(me, ev).1), inbox)
  {
    hide Pair, Enabled, Send, Recv, Flush, Update, Input;
    match ev
    case SendMsg(msg) =>
      SendKeepsPair(me, ot, out, inbox, msg);
      assert out + AsSet([]) == out;
    case RecvMsg(len) =>
      RecvKeepsPair(me, ot, out, inbox, len);
      assert out + AsSet([]) == out;
    case UpdateAt(now) =>
      UpdateKeepsPair(me, ot, out, inbox, now);
    case FlushNow =>
      FlushKeepsPair(me, ot, out, inbox);
    case Arrive(d) =>
      ArriveKeepsPair(me, ot, out, inbox, d);
      assert out + AsSet([]) == out;
  }

  lemma PairSymmetric(me: Endpoint, ot: Endpoint, out: set<Datagram>, inbox: set<Datagram>)
    requires Pair(me, ot, out, inbox)
    ensures Pair(ot, me, inbox, out)
  {
    hide Linked, Flow, NetTrue;
  }

  lemma NextKeeps(s: Sys, st: Step)
    requires Inv(s) && StepEnabled(s, st)
    ensures Inv(Next(s, st))
  {
    hide Pair, Act, Enabled;
    if st.atA {
      ActKeepsPair(s.a, s.b, s.ab, s.ba, st.ev);
    } else {
      PairSymmetric(s.a, s.b, s.ab, s.ba);
      ActKeepsPair(s.b, s.a, s.ba, s.ab, st.ev);
      PairSymmetric(Act(s.b, st.ev).0, s.a, s.ba + AsSet(Act(s.b, st.ev).1), s.ab);
    }
  }

  /** Every step of the run is possible when its turn comes. */
  ghost predicate Runs(s: Sys, steps: seq<Step>)
    decreases |steps|
  {
    steps != [] ==> StepEnabled(s, steps[0]) && Runs(Next(s, steps[0]), steps[1..])
  }

  ghost function After(s: Sys, steps: seq<Step>): Sys
    decreases |steps|
  {
    if steps == [] then s else After(Next(s, steps[0]), steps[1..])
  }

  lemma {:induction false} RunKeeps(s: Sys, steps: seq<Step>)
    requires Inv(s) && Runs(s, steps)
    ensures Inv(After(s, steps))
    decreases |steps|
  {
    if steps != [] {
      NextKeeps(s, steps[0]);
      hide Next, Inv;
      RunKeeps(Next(s, steps[0]), steps[1..]);
    }
  }

  // ---------- end-to-end safety ----------

  /**
   In every run, whatever the network loses, repeats or reorders, what ikcp_recv
   has returned on one side is a prefix of what ikcp_send has accepted on the
   other: no message is lost, invented, repeated, reordered, split or merged.
   */
  lemma EndToEnd(s: Sys, steps: seq<Step>)
    requires Init(s) && Runs(s, steps)
    ensures After(s, steps).b.delivered <= After(s, steps).a.accepted
    ensures After(s, steps).a.delivered <= After(s, steps).b.accepted
  {
    InitInv(s);
    RunKeeps(s, steps);
    hide After, Direction, NetTrue;
  }

  /**
   In every run the 32-bit program is in exactly the state of the protocol over
   unbounded numbers, reduced modulo 2^32.
   */
  lemma ProgramSimulatesUnbounded(s: Sys, steps: seq<Step>)
    requires Init(s) && Runs(s, steps)
    ensures After(s, steps).a.k == WrapKcb(After(s, steps).a.u)
    ensures After(s, steps).b.k == WrapKcb(After(s, steps).b.u)
  {
    InitInv(s);
    RunKeeps(s, steps);
    hide After, Flow, NetTrue;
  }

  /**
   In every run no acknowledged data is lost: every segment ever numbered is still
   in the sender's snd_buf, or held by the receiver.
   */
  lemma NoAcknowledgedDataLost(s: Sys, steps: seq<Step>)
    requires Init(s) && Runs(s, steps)
    ensures NothingLost(After(s, steps).a.u.snd, After(s, steps).b.u.rcv)
    ensures NothingLost(After(s, steps).b.u.snd, After(s, steps).a.u.rcv)
  {
    InitInv(s);
    RunKeeps(s, steps);
    hide After, NetTrue, SenderTrue, ReceiverTrue, NothingLost, Linked;
  }

  /** The receive queue cannot wedge: once it holds a full window, its head message is complete. */
  lemma NeverWedged(s: Sys, steps: seq<Step>)
    requires Init(s) && Runs(s, steps)
    ensures var y := After(s, steps).b; y.k.rcv.nque >= WND_RCV ==> Peeksize(y.k.rcv) >= 0
    ensures var y := After(s, steps).a; y.k.rcv.nque >= WND_RCV ==> Peeksize(y.k.rcv) >= 0
  {
    InitInv(s);
    RunKeeps(s, steps);
    FullQueueHasMessage(After(s, steps).a, After(s, steps).b);
    FullQueueHasMessage(After(s, steps).b, After(s, steps).a);
    hide After, NetTrue, Flow, Peeksize;
  }

  lemma FullQueueHasMessage(x: Endpoint, y: Endpoint)
    requires x.u.Mss() > 0 && Linked(y) && Flow(x, y)
    ensures y.k.rcv.nque >= WND_RCV ==> Peeksize(y.k.rcv) >= 0
    ensures y.k.rcv.queue != [] ==> |y.delivered| < |x.accepted|
    ensures Peeksize(y.k.rcv) >= 0 ==> Peeksize(y.k.rcv) == |x.accepted[|y.delivered|]|
  {
    hide Peeksize, AllFrags, FragsOf, SndRun, RcvRun, SenderTrue, NothingLost, AcksTrue;
    SamePeek(y.u.rcv);
    QueueCounted(y.u.rcv);
    assert y.delivered == x.accepted[..|y.delivered|];
    HeadOfQueue(x.accepted, |y.delivered|, x.u.Mss(), x.u.snd.nxt, y.u.rcv);
  }

  lemma QueueCounted(r: Rcv)
    requires RcvRun(Unbounded, r)
    ensures r.nque == |r.queue|
  {
  }

  lemma HeadOfQueue(msgs: seq<Msg>, m: nat, mss: int, sent: int, r: Rcv)
    requires mss > 0 && m <= |msgs| && r.nque == |r.queue|
    requires ReceiverTrue(AllFrags(msgs, mss), sent, r, |AllFrags(msgs[..m], mss)|)
    requires forall i :: 0 <= i < |msgs| ==> FragCount(|msgs[i]|, mss) < WND_RCV
    ensures r.queue != [] ==> m < |msgs|
    ensures Peeksize(r) >= 0 ==> m < |msgs| && Peeksize(r) == |msgs[m]|
    ensures r.nque >= WND_RCV ==> Peeksize(r) >= 0
  {
    hide FragCount, HeadCount, Joined;
    if r.queue != [] {
      assert msgs[..|msgs|] == msgs;
      StreamSplits(msgs, m, mss);
      var stream, taken, f := AllFrags(msgs, mss), |AllFrags(msgs[..m], mss)|, FragsOf(msgs[m], mss);
      assert stream[taken..] == f + stream[taken + |f|..];
      assert r.queue == stream[taken..][..r.nxt - taken];
      PeekMessage(r, msgs[m], mss, stream[taken + |f|..]);
    }
  }

  lemma SamePeek(r: Rcv)
    ensures Peeksize(WrapRcv(r)) == Peeksize(r) && WrapRcv(r).nque == r.nque && WrapRcv(r).queue == r.queue
  {
  }

  // ---------- the network assumption ----------

  /** Fewer than 2^31 - 2^16 segments have been numbered on either side. */
  ghost predicate Young(s: Sys) {
    s.a.u.snd.nxt <= HALF - 0x1_0000 && s.b.u.snd.nxt <= HALF - 0x1_0000
  }

  /** A datagram may arrive whenever it was sent. */
  ghost predicate WasSent(s: Sys, st: Step) {
    st.ev.Arrive? ==> st.ev.d in (if st.atA then s.ba else s.ab)
  }

  /**
   Until the numbers have used half the number space, the network assumption holds
   by itself: every datagram ever sent may still arrive.
   */
  lemma YoungEnabled(s: Sys, st: Step)
    requires Inv(s) && Young(s) && WasSent(s, st)
    ensures StepEnabled(s, st)
  {
    if st.ev.Arrive? {
      if st.atA {
        YoungArrives(s.a, s.b, s.ab, s.ba, st.ev.d);
      } else {
        PairSymmetric(s.a, s.b, s.ab, s.ba);
        YoungArrives(s.b, s.a, s.ba, s.ab, st.ev.d);
      }
    }
  }

  lemma YoungArrives(me: Endpoint, ot: Endpoint, out: set<Datagram>, inbox: set<Datagram>, d: Datagram)
    requires Pair(me, ot, out, inbox) && d in inbox
    requires me.u.snd.nxt <= HALF - 0x1_0000 && ot.u.snd.nxt <= HALF - 0x1_0000
    ensures RecentAll(Scan(me.u, false, 0), d.pkts)
  {
    hide Direction, SndRun, RcvRun, TrueFrom, AllFrags;
    PairHalves(me, ot, out, inbox);
    assert DatagramTrue(ot.u.conv, StreamOf(ot), ot.u.snd.nxt, ot.u.rcv, d);
    YoungRecent(StreamOf(me), StreamOf(ot), Scan(me.u, false, 0), ot.u, TakenBy(me, ot), TakenBy(ot, me), d.pkts);
  }

  lemma {:induction false} YoungRecent(mine: seq<Frag>, theirs: seq<Frag>, sc: Scan, ot: Kcb, takenMe: int,
                                       takenOt: int, pkts: seq<Pkt>)
    requires Halves(mine, theirs, sc.k, ot, takenMe, takenOt)
    requires forall p :: p in pkts ==> TrueFrom(theirs, ot.snd.nxt, ot.rcv, p) && 0 <= p.wnd < 0x1_0000
    requires sc.k.snd.nxt <= HALF - 0x1_0000 && ot.snd.nxt <= HALF - 0x1_0000
    ensures RecentAll(sc, pkts)
    decreases |pkts|
  {
    hide Apply, Halves, TrueFrom, FreshPkt, RecentPkt;
    if pkts != [] {
      YoungRecentPkt(mine, theirs, sc.k, ot, takenMe, takenOt, pkts[0]);
      TrueRecentIsFresh(mine, theirs, sc.k, ot, takenMe, takenOt, pkts[0]);
      ApplyTrue(mine, theirs, sc, ot, takenMe, takenOt, pkts[0]);
      YoungRecent(mine, theirs, Apply(Unbounded, sc, pkts[0]), ot, takenMe, takenOt, pkts[1..]);
    }
  }

  lemma YoungRecentPkt(mine: seq<Frag>, theirs: seq<Frag>, k: Kcb, ot: Kcb, takenMe: int, takenOt: int, p: Pkt)
    requires Halves(mine, theirs, k, ot, takenMe, takenOt) && TrueFrom(theirs, ot.snd.nxt, ot.rcv, p)
    requires k.snd.nxt <= HALF - 0x1_0000 && ot.snd.nxt <= HALF - 0x1_0000
    ensures RecentPkt(k, p)
  {
  }

  /**
   When the assumption is needed: the program accepts a segment exactly when some
   number congruent to the segment's lies in the receive window, so it agrees with
   the unbounded protocol exactly when no other congruent number does.
   */
  lemma AcceptanceExact(r: Rcv, sn: int)
    requires 0 <= r.wnd < HALF
    ensures Acceptable(Wrap32, WrapRcv(r), Wrap(sn)) <==> Wrap(sn - r.nxt) < r.wnd
    ensures (Acceptable(Wrap32, WrapRcv(r), Wrap(sn)) <==> Acceptable(Unbounded, r, sn)) <==>
            !(Wrap(sn - r.nxt) < r.wnd && Wrap(sn - r.nxt) != sn - r.nxt)
  {
    AcceptableWindow(Wrap32, WrapRcv(r), Wrap(sn));
    AcceptableWindow(Unbounded, r, sn);
    WrapOfWrap(sn, r.nxt);
    hide Acceptable;
  }

  /** The first segment of a connection, arriving again 2^32 segments later, is taken for a new one. */
  lemma StaleSegmentAccepted()
    ensures var r := Rcv(WORD, WND_RCV, [], 0, [], 0, []);
            && RcvOk(Unbounded, r)
            && !Acceptable(Unbounded, r, 0)
            && Acceptable(Wrap32, WrapRcv(r), Wrap(0))
  {
    AcceptanceExact(Rcv(WORD, WND_RCV, [], 0, [], 0, []), 0);
  }
}
