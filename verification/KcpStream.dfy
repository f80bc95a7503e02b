/**
 Messages as streams of fragments: what fragmentation does to a list of messages,
 and that reassembly undoes it.
 */
module KcpStream {
  import opened Serial
  import opened KcpWire
  import opened KcpModel

  type Msg = seq<byte>

  ghost function FragsOf(msg: Msg, mss: int): (q: seq<Frag>)
    requires mss > 0
    ensures |q| == FragCount(|msg|, mss) >= 1
  {
    CountPositive(|msg|, mss);
    Fragment(msg, mss, FragCount(|msg|, mss))
  }

  /** The fragments of all messages accepted so far, in order: element n is the segment numbered n. */
  ghost function AllFrags(msgs: seq<Msg>, mss: int): (q: seq<Frag>)
    requires mss > 0
  {
    if msgs == [] then [] else AllFrags(msgs[..|msgs| - 1], mss) + FragsOf(msgs[|msgs| - 1], mss)
  }

  lemma AllFragsSnoc(msgs: seq<Msg>, msg: Msg, mss: int)
    requires mss > 0
    ensures AllFrags(msgs + [msg], mss) == AllFrags(msgs, mss) + FragsOf(msg, mss)
  {
    assert (msgs + [msg])[..|msgs|] == msgs;
  }

  /** The fragments of the first m messages, then those of message m, begin the stream. */
  lemma {:induction false} StreamSplits(msgs: seq<Msg>, m: nat, mss: int)
    requires mss > 0 && m < |msgs|
    ensures AllFrags(msgs[..m + 1], mss) == AllFrags(msgs[..m], mss) + FragsOf(msgs[m], mss)
    ensures AllFrags(msgs[..m + 1], mss) <= AllFrags(msgs, mss)
  {
    assert msgs[..m + 1] == msgs[..m] + [msgs[m]];
    AllFragsSnoc(msgs[..m], msgs[m], mss);
    if m + 1 < |msgs| {
      var init := msgs[..|msgs| - 1];
      StreamSplits(init, m, mss);
      assert init[..m + 1] == msgs[..m + 1];
      assert init[..m] == msgs[..m];
    } else {
      assert msgs[..m + 1] == msgs;
    }
  }

  /** Each fragment says how many follow it, and is no larger than the maximum segment size. */
  ghost predicate CountsDown(q: seq<Frag>, mss: int) {
    forall i :: 0 <= i < |q| ==> q[i].frg == |q| - 1 - i && |q[i].data| <= mss
  }

  lemma {:induction false} FragmentShape(msg: Msg, mss: int, count: nat)
    requires mss > 0
    ensures CountsDown(Fragment(msg, mss, count), mss)
  {
    if count > 0 {
      FragmentShape(msg[Min(|msg|, mss)..], mss, count - 1);
    }
  }

  /** Joining the pieces gives the message, as long as there are enough of them. */
  lemma {:induction false} JoinFragment(msg: Msg, mss: int, count: nat)
    requires mss > 0 && |msg| <= count * mss
    ensures Joined(Fragment(msg, mss, count)) == msg
  {
    if count > 0 {
      var size := Min(|msg|, mss);
      assert count * mss == (count - 1) * mss + mss;
      JoinFragment(msg[size..], mss, count - 1);
    }
  }

  lemma {:induction false} HeadCountAt(q: seq<Frag>, n: nat)
    requires 0 < n <= |q| && q[n - 1].frg == 0 && forall i :: 0 <= i < n - 1 ==> q[i].frg != 0
    ensures HeadCount(q) == n
  {
    if n > 1 {
      HeadCountAt(q[1..], n - 1);
    }
  }

  /** Reassembly takes exactly the fragments of one message, and gives back its bytes. */
  lemma HeadIsMessage(msg: Msg, mss: int, rest: seq<Frag>)
    requires mss > 0
    ensures var q := FragsOf(msg, mss) + rest;
            && HeadCount(q) == |FragsOf(msg, mss)|
            && Joined(q[..HeadCount(q)]) == msg
            && q[0].frg == |FragsOf(msg, mss)| - 1
  {
    var f := FragsOf(msg, mss);
    FragmentShape(msg, mss, |f|);
    HeadCountAt(f + rest, |f|);
    JoinFragment(msg, mss, |f|);
    assert (f + rest)[..|f|] == f;
  }

  /** What ikcp_peeksize and ikcp_recv do with the fragments of a message at the head of the queue. */
  lemma PeekMessage(r: Rcv, msg: Msg, mss: int, stream: seq<Frag>)
    requires mss > 0 && r.nque == |r.queue| > 0
    requires r.queue <= FragsOf(msg, mss) + stream
    ensures Peeksize(r) == if |r.queue| >= |FragsOf(msg, mss)| then |msg| else -1
    ensures |r.queue| >= |FragsOf(msg, mss)| ==>
              HeadCount(r.queue) == |FragsOf(msg, mss)| && Joined(r.queue[..HeadCount(r.queue)]) == msg
  {
    var f := FragsOf(msg, mss);
    FragmentShape(msg, mss, |f|);
    assert r.queue[0] == f[0];
    if |r.queue| >= |f| {
      var rest := r.queue[|f|..];
      assert r.queue == f + rest;
      HeadIsMessage(msg, mss, rest);
      if |f| == 1 {
        assert r.queue[..1] == [r.queue[0]];
        assert Joined([r.queue[0]]) == r.queue[0].data + Joined([]);
      }
    }
  }

  ghost predicate AllSmall(q: seq<Frag>, mss: int) {
    forall i :: 0 <= i < |q| ==> 0 <= q[i].frg < WND_RCV - 1 && |q[i].data| <= mss
  }

  lemma {:induction false} StreamFragsOk(msgs: seq<Msg>, mss: int)
    requires mss > 0 && forall i :: 0 <= i < |msgs| ==> FragCount(|msgs[i]|, mss) < WND_RCV
    ensures AllSmall(AllFrags(msgs, mss), mss)
  {
    if msgs != [] {
      var init, last := msgs[..|msgs| - 1], msgs[|msgs| - 1];
      StreamFragsOk(init, mss);
      FragmentShape(last, mss, |FragsOf(last, mss)|);
    }
  }
}
