/**
 Messages over TCP: a packet is a little-endian length and type, four bytes each,
 and a body. The reader is fed the byte stream in pieces of any size; the sender
 keeps its packets in a queue and submits a few at a time.
 */
module Framing {
  import opened Serial
  import W = KcpWire

  const HEAD: nat := 8
  const SIZE_T: int := 0x1_0000_0000_0000_0000
  const MAX_SEND_PACKET: nat := 10
  const MAX_SEND_BYTE: nat := 1024

  datatype Msg = Msg(kind: u32, body: seq<byte>)

  /** The packet sendMsg builds. */
  function Encode(m: Msg): (s: seq<byte>)
    ensures |s| == HEAD + |m.body|
  {
    W.Enc32(|m.body|) + W.Enc32(m.kind) + m.body
  }

  function EncodeAll(ms: seq<Msg>): seq<byte> {
    if ms == [] then [] else Encode(ms[0]) + EncodeAll(ms[1..])
  }

  // ---------- what a stream contains ----------

  /** A packet is complete with its body; one without a body only when another byte has come. */
  predicate Complete(s: seq<byte>) {
    |s| >= HEAD && |s| >= HEAD + Max(W.Dec32(s, 0), 1)
  }

  function First(s: seq<byte>): Msg
    requires Complete(s)
  {
    Msg(W.Dec32(s, 4), s[HEAD..HEAD + W.Dec32(s, 0)])
  }

  function After(s: seq<byte>): (r: seq<byte>)
    requires Complete(s)
    ensures |r| < |s|
  {
    s[HEAD + W.Dec32(s, 0)..]
  }

  function Frames(s: seq<byte>): seq<Msg>
    decreases |s|
  {
    if Complete(s) then [First(s)] + Frames(After(s)) else []
  }

  function Rest(s: seq<byte>): (r: seq<byte>)
    ensures !Complete(r)
    decreases |s|
  {
    if Complete(s) then Rest(After(s)) else s
  }

  /** Every length announced, once a byte has come after its head, is less than 2^31. */
  ghost predicate Reasonable(s: seq<byte>)
    decreases |s|
  {
    (|s| > HEAD ==> W.Dec32(s, 0) < HALF) && (Complete(s) ==> Reasonable(After(s)))
  }

  // ---------- one turn of the reading loop ----------

  /** The packet being read, the bytes not yet consumed, and the messages delivered. */
  datatype Turn = Turn(packet: seq<byte>, rest: seq<byte>, out: seq<Msg>)

  /** The bytes still missing: computed in size_t, kept in an int32. */
  function NeedSize(markLen: int, wpos: nat): int {
    Signed(Wrap(markLen + HEAD - wpos))
  }

  /** The size of the whole packet, in size_t. */
  function FullSize(markLen: int): int {
    (markLen + HEAD) % SIZE_T
  }

  lemma Sizes(len: u32, wpos: nat)
    requires HEAD <= wpos && if len < HALF then wpos <= HEAD + len else wpos == HEAD
    ensures len < HALF ==> Signed(len) == len && NeedSize(len, wpos) == len + HEAD - wpos && FullSize(len) == len + HEAD
    ensures len >= HALF ==> NeedSize(Signed(len), wpos) < 0 && FullSize(Signed(len)) != wpos
  {
    SignedSmall(Signed(len) + HEAD - wpos);
  }

  /** What one turn of the loop does. */
  function TurnOf(packet: seq<byte>, rest: seq<byte>): Turn
    requires rest != []
  {
    if |packet| < HEAD then
      var n := Min(HEAD - |packet|, |rest|);
      Turn(packet + rest[..n], rest[n..], [])
    else
      var markLen := Signed(W.Dec32(packet, 0));
      var needsize := NeedSize(markLen, |packet|);
      var n := if needsize > 0 then Min(needsize, |rest|) else 0;
      var packet' := packet + rest[..n];
      if |packet'| == FullSize(markLen) then
        Turn([], rest[n..], [Msg(W.Dec32(packet', 4), packet'[HEAD..])])
      else Turn(packet', rest[n..], [])
  }

  /**
   The reader can get stuck: a turn that changes nothing would repeat for ever.
   That is so exactly when the head read announces 2^31 bytes or more.
   */
  lemma StuckExactly(packet: seq<byte>, rest: seq<byte>)
    requires rest != [] && !Complete(packet) && Reasonable(packet)
    ensures TurnOf(packet, rest) == Turn(packet, rest, []) <==> |packet| >= HEAD && W.Dec32(packet, 0) >= HALF
  {
    hide W.Dec32, Signed, NeedSize, FullSize;
    if |packet| >= HEAD {
      Sizes(W.Dec32(packet, 0), |packet|);
    }
  }

  /** A turn past a head of reasonable length takes what the packet lacks, or what there is. */
  lemma TurnPastHead(packet: seq<byte>, rest: seq<byte>)
    requires rest != [] && |packet| >= HEAD && !Complete(packet) && W.Dec32(packet, 0) < HALF
    ensures var len := W.Dec32(packet, 0);
            var n := Min(len + HEAD - |packet|, |rest|);
            var packet' := packet + rest[..n];
            TurnOf(packet, rest) ==
              if |packet'| == len + HEAD then Turn([], rest[n..], [Msg(W.Dec32(packet', 4), packet'[HEAD..])])
              else Turn(packet', rest[n..], [])
  {
    hide W.Dec32, Signed, NeedSize, FullSize, Wrap;
    Sizes(W.Dec32(packet, 0), |packet|);
  }

  /**
   Otherwise a turn reads on in the same stream. Stuck or not, it leaves alone
   whether the stream has a head that will stop the reader.
   */
  lemma TurnReads(packet: seq<byte>, rest: seq<byte>)
    requires rest != [] && !Complete(packet) && Reasonable(packet)
    ensures var t := TurnOf(packet, rest);
            && !Complete(t.packet) && Reasonable(t.packet)
            && (Reasonable(t.packet + t.rest) <==> Reasonable(packet + rest))
            && (t == Turn(packet, rest, []) ==> !Reasonable(packet + rest))
            && (t != Turn(packet, rest, []) ==>
                  && Frames(packet + rest) == t.out + Frames(t.packet + t.rest)
                  && Rest(packet + rest) == Rest(t.packet + t.rest)
                  && |t.rest| <= |rest| && (|t.rest| == |rest| ==> |t.packet| < |packet|))
  {
    hide W.Dec32, Frames, Rest, Reasonable, Complete;
    var t := TurnOf(packet, rest);
    if |packet| < HEAD {
      ShortReads(packet, rest);
    } else {
      StuckExactly(packet, rest);
      SameHead(packet, rest);
      ReasonableHead(packet + rest);
      hide TurnOf;
      if W.Dec32(packet, 0) < HALF {
        if |packet| + |rest| < HEAD + W.Dec32(packet, 0) {
          GoesOn(packet, rest);
        } else {
          Completes(packet, rest);
          assert [] + t.rest == t.rest;
        }
      }
    }
  }

  lemma ShortReads(packet: seq<byte>, rest: seq<byte>)
    requires rest != [] && |packet| < HEAD
    ensures var t := TurnOf(packet, rest);
            && t.packet + t.rest == packet + rest && t.out == [] && |t.rest| < |rest|
            && !Complete(t.packet) && Reasonable(t.packet)
  {
    ReasonableHead(TurnOf(packet, rest).packet);
    hide W.Dec32, Reasonable;
  }

  /** The buffer has less than the packet lacks. */
  lemma GoesOn(packet: seq<byte>, rest: seq<byte>)
    requires rest != [] && |packet| >= HEAD && !Complete(packet) && W.Dec32(packet, 0) < HALF
    requires |packet| + |rest| < HEAD + W.Dec32(packet, 0)
    ensures TurnOf(packet, rest) == Turn(packet + rest, [], []) && packet + rest + [] == packet + rest
    ensures !Complete(packet + rest) && Reasonable(packet + rest)
  {
    hide W.Dec32, Reasonable, TurnOf;
    TurnPastHead(packet, rest);
    SameHead(packet, rest);
    ReasonableHead(packet + rest);
    assert rest[..|rest|] == rest;
  }

  /** The buffer has all that the packet lacks. */
  lemma Completes(packet: seq<byte>, rest: seq<byte>)
    requires rest != [] && |packet| >= HEAD && !Complete(packet) && W.Dec32(packet, 0) < HALF
    requires |packet| + |rest| >= HEAD + W.Dec32(packet, 0)
    ensures var t, b := TurnOf(packet, rest), packet + rest;
            && t.packet == [] && |t.rest| <= |rest| && !Complete([]) && Reasonable([])
            && Frames(b) == t.out + Frames(t.rest) && Rest(b) == Rest(t.rest)
            && (Reasonable(b) <==> Reasonable(t.rest))
  {
    hide W.Dec32, Frames, Rest, Reasonable, TurnOf;
    TurnPastHead(packet, rest);
    var n := W.Dec32(packet, 0) + HEAD - |packet|;
    var packet', tail := packet + rest[..n], rest[n..];
    assert packet' + tail == packet + rest;
    SameHead(packet, rest[..n]);
    SameHead(packet, rest);
    WholePacket(packet', tail);
    FramesStep(packet + rest);
    ReasonableHead([]);
  }

  lemma WholePacket(packet: seq<byte>, tail: seq<byte>)
    requires |packet| >= HEAD && |packet| == HEAD + W.Dec32(packet, 0)
    requires |packet| + |tail| > HEAD
    ensures Complete(packet + tail) && After(packet + tail) == tail
    ensures First(packet + tail) == Msg(W.Dec32(packet, 4), packet[HEAD..])
  {
    hide W.Dec32;
    SameHead(packet, tail);
  }

  lemma ReasonableHead(s: seq<byte>)
    ensures Reasonable(s) && |s| > HEAD ==> W.Dec32(s, 0) < HALF
    ensures !Complete(s) && (|s| > HEAD ==> W.Dec32(s, 0) < HALF) ==> Reasonable(s)
  {
  }

  lemma FramesStep(s: seq<byte>)
    requires Complete(s)
    ensures Frames(s) == [First(s)] + Frames(After(s)) && Rest(s) == Rest(After(s))
    ensures Reasonable(s) <==> W.Dec32(s, 0) < HALF && Reasonable(After(s))
  {
  }

  /** The head of a stream does not change as the stream grows. */
  lemma SameHead(s: seq<byte>, t: seq<byte>)
    ensures |s| >= 4 ==> W.Dec32(s + t, 0) == W.Dec32(s, 0)
    ensures |s| >= HEAD ==> W.Dec32(s + t, 4) == W.Dec32(s, 4)
  {
  }

  /** How a stream breaks into messages does not depend on where it is cut. */
  lemma {:induction false} FramesAppend(s: seq<byte>, t: seq<byte>)
    ensures Frames(s + t) == Frames(s) + Frames(Rest(s) + t)
    ensures Rest(s + t) == Rest(Rest(s) + t)
    ensures Reasonable(s) ==> (Reasonable(s + t) <==> Reasonable(Rest(s) + t))
    decreases |s|
  {
    hide W.Dec32;
    if Complete(s) {
      SameHead(s, t);
      assert First(s + t) == First(s) && After(s + t) == After(s) + t;
      FramesAppend(After(s), t);
    }
  }

  class NetConnect {
    var reading: bool
    /** What has been written to mReadPacket: its head and then its body. */
    var packet: seq<byte>
    /** The messages handed to onMsg. */
    var delivered: seq<Msg>
    /** All bytes received. */
    ghost var stream: seq<byte>

    ghost predicate Valid()
      reads this
    {
      && delivered == Frames(stream) && packet == Rest(stream)
      && (!reading ==> packet == [])
    }

    constructor ()
      ensures Valid() && stream == []
    {
      reading, packet, delivered, stream := false, [], [], [];
    }

    /** NetPacket::readHead. */
    method ReadHead(data: array<byte>, at: nat, size: nat) returns (rlen: nat)
      requires at + size <= data.Length
      modifies `packet
      ensures rlen == Min(Max(HEAD - |old(packet)|, 0), size)
      ensures packet == old(packet) + data[at..at + rlen]
    {
      var rsize := HEAD - |packet|;
      if rsize <= 0 {
        assert data[at..at] == [];
        return 0;
      }
      rsize := if size >= rsize then rsize else size;
      packet := packet + data[at..at + rsize];
      rlen := rsize;
    }

    /** One turn of the loop of on_msgbuffer, from position r of the buffer. */
    method ReadTurn(data: array<byte>, r: nat, wpos: nat) returns (r': nat)
      requires r < wpos <= data.Length && (!reading ==> packet == [])
      modifies `reading, `packet, `delivered
      ensures r <= r' <= wpos && (!reading ==> packet == [])
      ensures var t := TurnOf(old(packet), data[r..wpos]);
              packet == t.packet && data[r'..wpos] == t.rest && delivered == old(delivered) + t.out
    {
      hide W.Dec32, NeedSize, FullSize, Signed;
      ghost var rest := data[r..wpos];
      if !reading {
        reading, packet := true, [];
      }
      r' := r;
      if |packet| < HEAD {
        var rlen := ReadHead(data, r, wpos - r);
        assert rest[..rlen] == data[r..r + rlen] && rest[rlen..] == data[r + rlen..wpos];
        r' := r + rlen;
        return;
      }
      var markLen := Signed(W.Dec32(packet, 0));
      var needsize := NeedSize(markLen, |packet|);
      if needsize > 0 {
        var wsize := if wpos - r >= needsize then needsize else wpos - r;
        assert rest[..wsize] == data[r..r + wsize] && rest[wsize..] == data[r + wsize..wpos];
        packet := packet + data[r..r + wsize];
        r' := r + wsize;
      } else {
        assert packet + rest[..0] == packet && rest[0..] == rest;
      }
      if |packet| == FullSize(markLen) {
        delivered := delivered + [Msg(W.Dec32(packet, 4), packet[HEAD..])];
        reading, packet := false, [];
      }
    }

    /** on_msgbuffer: one read of the socket, of any size. */
    method OnMsgBuffer(data: array<byte>, wpos: nat)
      requires Valid() && wpos <= data.Length && Reasonable(stream + data[..wpos])
      modifies this
      ensures Valid() && stream == old(stream) + data[..wpos]
    {
      hide Frames, Rest, Reasonable, TurnOf;
      ghost var s, all := stream, data[..wpos];
      PrefixReasonable(s, all);
      FramesAppend(s, all);
      PrefixReasonable(packet, all);
      var r := 0;
      assert data[0..wpos] == all;
      while r < wpos
        invariant 0 <= r <= wpos && (!reading ==> packet == [])
        invariant !Complete(packet) && Reasonable(packet) && Reasonable(packet + data[r..wpos])
        invariant Frames(s + all) == delivered + Frames(packet + data[r..wpos])
        invariant Rest(s + all) == Rest(packet + data[r..wpos])
        decreases wpos - r, |packet|
      {
        ghost var p, rest := packet, data[r..wpos];
        TurnReads(p, rest);
        r := ReadTurn(data, r, wpos);
        assert |data[r..wpos]| == wpos - r && |rest| >= wpos - r;
      }
      assert packet + data[r..wpos] == packet;
      Unread(packet);
      stream := s + all;
    }
  }

  lemma Unread(s: seq<byte>)
    requires !Complete(s)
    ensures Frames(s) == [] && Rest(s) == s
  {
  }

  // ---------- reading on and getting stuck ----------

  /** The loop of on_msgbuffer, if it has not ended, goes through one more turn. */
  function NextTurn(t: Turn): Turn {
    if t.rest == [] then t
    else
      var u := TurnOf(t.packet, t.rest);
      u.(out := t.out + u.out)
  }

  function Turns(t: Turn, n: nat): Turn
    decreases n
  {
    if n == 0 then t else Turns(NextTurn(t), n - 1)
  }

  /**
   Any bytes whatever: the loop ends with all of them read and every message
   delivered, or comes to a turn that changes nothing, with bytes still unread.
   */
  lemma {:induction false} ReadsOrSticks(t: Turn) returns (n: nat)
    requires !Complete(t.packet) && Reasonable(t.packet)
    ensures var t' := Turns(t, n);
            if Reasonable(t.packet + t.rest) then
              t' == Turn(Rest(t.packet + t.rest), [], t.out + Frames(t.packet + t.rest))
            else t'.rest != [] && NextTurn(t') == t'
    decreases |t.rest|, |t.packet|
  {
    hide Frames, Rest, Reasonable, TurnOf;
    if t.rest == [] {
      n := 0;
      Unread(t.packet);
      assert t.packet + t.rest == t.packet && t.out + [] == t.out;
    } else {
      TurnReads(t.packet, t.rest);
      var u := NextTurn(t);
      if TurnOf(t.packet, t.rest) == Turn(t.packet, t.rest, []) {
        n := 0;
        assert t.out + [] == t.out;
      } else {
        var m := ReadsOrSticks(u);
        n := m + 1;
        assert t.out + TurnOf(t.packet, t.rest).out + Frames(u.packet + u.rest) ==
               t.out + (TurnOf(t.packet, t.rest).out + Frames(u.packet + u.rest));
      }
    }
  }

  /** A turn that changes nothing is repeated for ever. */
  lemma {:induction false} FixedTurns(t: Turn, m: nat, n: nat)
    requires m <= n && NextTurn(Turns(t, m)) == Turns(t, m)
    ensures Turns(t, n) == Turns(t, m)
    decreases n
  {
    hide NextTurn;
    if m > 0 {
      FixedTurns(NextTurn(t), m - 1, n - 1);
    } else if n > 0 {
      FixedTurns(t, 0, n - 1);
    }
  }

  /** One read of the socket, whatever was read before, comes to an end exactly when no head in the stream announces 2^31 bytes or more. */
  lemma EndsExactly(c: NetConnect, data: seq<byte>)
    requires c.Valid() && Reasonable(c.stream)
    ensures (exists n: nat :: Turns(Turn(c.packet, data, []), n).rest == []) <==> Reasonable(c.stream + data)
  {
    hide Reasonable, Turns, Frames, TurnOf;
    FramesAppend(c.stream, data);
    FramesAppend(c.stream, []);
    assert c.stream + [] == c.stream && c.packet + [] == c.packet;
    var t := Turn(c.packet, data, []);
    var m := ReadsOrSticks(t);
    if n: nat :| Turns(t, n).rest == [] && !Reasonable(c.packet + data) {
      if m <= n {
        FixedTurns(t, m, n);
      } else {
        FixedTurns(t, n, m);
      }
    }
  }

  /** The least input that does it: a head announcing 2^31 bytes, and one byte more, which no turn reads. */
  lemma HugeHead(kind: u32, ch: byte)
    ensures var head := W.Enc32(HALF) + W.Enc32(kind);
            var stuck := Turn(head, [ch], []);
            !Reasonable(head + [ch]) && NextTurn(Turn([], head + [ch], [])) == stuck && NextTurn(stuck) == stuck
  {
    hide W.Dec32, W.Enc32;
    var head := W.Enc32(HALF) + W.Enc32(kind);
    var s := head + [ch];
    W.DecEnc32(HALF);
    WrapWord(HALF);
    assert s[..4] == head[..4] == W.Enc32(HALF);
    DecSlice(s);
    DecSlice(head);
    ReasonableHead(s);
    ReasonableHead(head);
    assert [] + s[..HEAD] == head && s[HEAD..] == [ch];
    StuckExactly(head, [ch]);
  }

  // ---------- end to end ----------

  ghost predicate Sendable(ms: seq<Msg>) {
    forall i :: 0 <= i < |ms| ==> |ms[i].body| < HALF
  }

  lemma EncodeReads(m: Msg, t: seq<byte>)
    requires |m.body| < HALF
    ensures var s := Encode(m) + t;
            && W.Dec32(s, 0) == |m.body| && (Complete(s) <==> |m.body| > 0 || t != [])
            && (Complete(s) ==> First(s) == m && After(s) == t)
            && |s| > |t|
  {
    hide W.Enc32, W.Dec32, Wrap;
    W.DecEnc32(|m.body|);
    W.DecEnc32(m.kind);
    WrapWord(|m.body|);
    WrapWord(m.kind);
    var s := Encode(m) + t;
    assert s[..4] == W.Enc32(|m.body|) && s[4..8] == W.Enc32(m.kind);
    DecSlice(s);
  }

  lemma WrapWord(x: u32)
    ensures Wrap(x) == x
  {
  }

  lemma DecSlice(s: seq<byte>)
    requires |s| >= HEAD
    ensures W.Dec32(s, 0) == W.Dec32(s[..4], 0) && W.Dec32(s, 4) == W.Dec32(s[4..8], 0)
  {
  }

  /** Everything the peer sent, once all of it has come, except that a last packet without a body still waits. */
  lemma {:induction false} AllDelivered(ms: seq<Msg>)
    requires Sendable(ms)
    ensures Reasonable(EncodeAll(ms))
    ensures Frames(EncodeAll(ms)) == if ms != [] && ms[|ms| - 1].body == [] then ms[..|ms| - 1] else ms
  {
    hide W.Dec32, Complete, First, After, Encode;
    if ms != [] {
      var tail := ms[1..];
      EncodeReads(ms[0], EncodeAll(tail));
      AllDelivered(tail);
      if tail != [] {
        assert EncodeAll(tail) != [];
        assert tail[|tail| - 1] == ms[|ms| - 1];
        assert [ms[0]] + tail[..|tail| - 1] == ms[..|ms| - 1];
        assert [ms[0]] + tail == ms;
      } else {
        assert ms == [ms[0]] && ms[..0] == [];
        Unread([]);
      }
    }
  }

  /** Cutting a stream short only takes messages from the end. */
  lemma PrefixFrames(s: seq<byte>, t: seq<byte>)
    requires Reasonable(s + t)
    ensures Frames(s) <= Frames(s + t) && Reasonable(s)
  {
    FramesAppend(s, t);
    PrefixReasonable(s, t);
  }

  lemma {:induction false} PrefixReasonable(s: seq<byte>, t: seq<byte>)
    requires Reasonable(s + t)
    ensures Reasonable(s)
    decreases |s|
  {
    if |s| > HEAD {
      assert W.Dec32(s + t, 0) == W.Dec32(s, 0);
    }
    if Complete(s) {
      assert After(s + t) == After(s) + t;
      PrefixReasonable(After(s), t);
    }
  }

  // ---------- the send queue ----------

  /**
   TcpSocket's queue of packets. `submitted` records the buffers of each write
   handed to the system; `written` everything ever put in the queue.
   */
  class SendQueue {
    var packets: seq<seq<byte>>
    var sending: seq<seq<byte>>
    var submitted: seq<seq<seq<byte>>>
    ghost var written: seq<seq<byte>>

    /** What has been put in the queue and not been submitted. */
    ghost function Behind(): seq<seq<byte>>
      requires sending <= packets
      reads this
    {
      if Bytes(sending) > 0 then packets[|sending|..] else packets
    }

    /**
     What is marked as being sent is the front of the queue; what has been submitted
     and what has not is what was written, in order; nothing waits while nothing is
     being sent; and a write with bytes is under way unless the queue is stuck.
     */
    ghost predicate Valid()
      reads this
    {
      && sending <= packets && |sending| <= MAX_SEND_PACKET
      && Flat(submitted) + Behind() == written
      && (sending == [] ==> packets == [])
      && (Bytes(sending) > 0 ==> submitted != [] && submitted[|submitted| - 1] == sending)
    }

    /** Packets are marked as being sent, but no write is under way that would end: the queue has stopped for good. */
    ghost predicate Stuck()
      reads this
    {
      sending != [] && Bytes(sending) == 0
    }

    constructor ()
      ensures Valid() && !Stuck() && written == [] && submitted == []
    {
      packets, sending, submitted, written := [], [], [], [];
    }

    /** TcpSocket::write. The queue gets stuck by an empty packet in an empty queue, and in no other way. */
    method Write(packet: seq<byte>)
      requires Valid()
      modifies this
      ensures Valid() && written == old(written) + [packet] && packets == old(packets) + [packet]
      ensures Stuck() == (old(Stuck()) || (old(sending) == [] && packet == []))
      ensures submitted == old(submitted) + if old(sending) == [] && packet != [] then [[packet]] else []
    {
      hide Flat, Bytes;
      ghost var p, w := packets, written;
      packets := packets + [packet];
      written := written + [packet];
      assert packets[|sending|..] == p[|sending|..] + [packet];
      assert Flat(submitted) + (p[|sending|..] + [packet]) == Flat(submitted) + p[|sending|..] + [packet];
      assert Flat(submitted) + (p + [packet]) == Flat(submitted) + p + [packet];
      BytesNone();
      if !(sending != []) {
        BatchOne(packet);
        assert packets == [packet] && packets[0..] == packets;
        SendTopMsg();
      } else {
        assert submitted + [] == submitted;
      }
    }

    /** on_writecomplete, called when the write under way ends. */
    method OnWriteComplete()
      requires Valid() && sending != [] && !Stuck()
      modifies `packets, `sending, `submitted
      ensures Valid() && packets == old(packets[|sending|..]) && old(submitted) <= submitted
      ensures Stuck() <==> packets != [] && forall i :: 0 <= i < |packets| && i < MAX_SEND_PACKET ==> packets[i] == []
    {
      hide Flat, Bytes, Batch;
      var size := |sending|;
      ghost var all := packets;
      var i := 0;
      while i < size
        invariant 0 <= i <= size <= |all| && packets == all[i..]
        invariant sending == old(sending) && submitted == old(submitted)
      {
        packets := packets[1..];
        i := i + 1;
      }
      sending := [];
      SendTopMsg();
      SilentBatch(packets, 0);
    }

    /** send_top_msg: take packets from the front until ten, or 1024 bytes, are reached. */
    method SendTopMsg()
      requires sending == [] && Flat(submitted) + packets == written
      modifies `sending, `submitted
      ensures Valid() && sending == Batch(packets, 0, 0)
      ensures submitted == old(submitted) + if Bytes(sending) == 0 then [] else [sending]
    {
      hide Flat, Bytes, Batch;
      var sumsize := 0;
      var i := 0;
      assert packets[0..] == packets && packets[..0] == [];
      BytesNone();
      while i < |packets|
        invariant 0 <= i <= |packets| && sending == packets[..i] && i <= MAX_SEND_PACKET && submitted == old(submitted)
        invariant sumsize == Bytes(sending)
        invariant Batch(packets, 0, 0) == sending + Batch(packets[i..], sumsize, i)
      {
        if sumsize >= MAX_SEND_BYTE {
          break;
        }
        if |sending| >= MAX_SEND_PACKET {
          break;
        }
        BatchStep(packets, i, sumsize);
        BytesMore(sending, packets[i]);
        assert packets[..i + 1] == packets[..i] + [packets[i]];
        sending := sending + [packets[i]];
        sumsize := sumsize + |packets[i]|;
        i := i + 1;
      }
      BatchStops(packets[i..], sumsize, i);
      assert packets == packets[..i] + packets[i..];
      FlatMore(submitted, sending);
      ghost var before := submitted;
      if sumsize > 0 {
        submitted := submitted + [sending];
        assert Flat(before) + packets == Flat(before) + packets[..i] + packets[i..];
      } else {
        assert before + [] == before;
      }
    }
  }

  lemma BytesNone()
    ensures Bytes([]) == 0
  {
  }

  lemma BatchStep(packets: seq<seq<byte>>, i: nat, sum: nat)
    requires i < |packets| && sum < MAX_SEND_BYTE && i < MAX_SEND_PACKET
    ensures Batch(packets[i..], sum, i) == [packets[i]] + Batch(packets[i + 1..], sum + |packets[i]|, i + 1)
  {
    assert packets[i..][1..] == packets[i + 1..];
  }

  lemma BatchStops(packets: seq<seq<byte>>, sum: nat, n: nat)
    requires packets == [] || sum >= MAX_SEND_BYTE || n >= MAX_SEND_PACKET
    ensures Batch(packets, sum, n) == []
  {
  }

  lemma BatchOne(p: seq<byte>)
    ensures Batch([p], 0, 0) == [p] && Bytes([p]) == |p|
  {
    assert [p][1..] == [] && [p][..0] == [];
  }

  /** The packets taken from the front of a queue, with `sum` bytes and `n` packets taken before. */
  ghost function Batch(packets: seq<seq<byte>>, sum: nat, n: nat): (r: seq<seq<byte>>) {
    if packets == [] || sum >= MAX_SEND_BYTE || n >= MAX_SEND_PACKET then []
    else [packets[0]] + Batch(packets[1..], sum + |packets[0]|, n + 1)
  }

  ghost function Bytes(ps: seq<seq<byte>>): (n: nat) {
    if ps == [] then 0 else Bytes(ps[..|ps| - 1]) + |ps[|ps| - 1]|
  }

  lemma BytesMore(ps: seq<seq<byte>>, p: seq<byte>)
    ensures Bytes(ps + [p]) == Bytes(ps) + |p|
  {
    assert (ps + [p])[..|ps|] == ps;
  }

  ghost function Flat(groups: seq<seq<seq<byte>>>): seq<seq<byte>> {
    if groups == [] then [] else Flat(groups[..|groups| - 1]) + groups[|groups| - 1]
  }

  lemma FlatMore(groups: seq<seq<seq<byte>>>, g: seq<seq<byte>>)
    ensures Flat(groups + [g]) == Flat(groups) + g
  {
    assert (groups + [g])[..|groups|] == groups;
  }

  /**
   With packets of no bytes the queue would stop for good: send_top_msg would mark
   packets as being sent and submit nothing, exactly when the packets it takes,
   the first ten, are all empty.
   */
  lemma {:induction false} SilentBatch(packets: seq<seq<byte>>, n: nat)
    ensures Bytes(Batch(packets, 0, n)) == 0 <==>
            forall i :: 0 <= i < |packets| && n + i < MAX_SEND_PACKET ==> packets[i] == []
    decreases |packets|
  {
    var b := Batch(packets, 0, n);
    if packets == [] || n >= MAX_SEND_PACKET {
    } else if packets[0] == [] {
      SilentBatch(packets[1..], n + 1);
      BytesFirst(packets[0], Batch(packets[1..], 0, n + 1));
      assert forall i :: 0 < i < |packets| ==> packets[i] == packets[1..][i - 1];
      assert forall i :: 0 <= i < |packets| - 1 ==> packets[1..][i] == packets[i + 1];
    } else {
      BytesFirst(packets[0], Batch(packets[1..], |packets[0]|, n + 1));
    }
  }

  lemma {:induction false} BytesFirst(p: seq<byte>, ps: seq<seq<byte>>)
    ensures Bytes([p] + ps) == |p| + Bytes(ps)
    decreases |ps|
  {
    var all := [p] + ps;
    if ps == [] {
      assert all[..0] == [];
    } else {
      assert all[..|all| - 1] == [p] + ps[..|ps| - 1];
      BytesFirst(p, ps[..|ps| - 1]);
    }
  }

  // ---------- from sendMsg to onMsg ----------

  /** The bytes of packets one after another: what the peer's socket reads, or the start of it. */
  ghost function Joined(ps: seq<seq<byte>>): seq<byte> {
    if ps == [] then [] else ps[0] + Joined(ps[1..])
  }

  ghost function Packets(ms: seq<Msg>): (ps: seq<seq<byte>>)
    ensures |ps| == |ms|
  {
    seq(|ms|, i requires 0 <= i < |ms| => Encode(ms[i]))
  }

  lemma {:induction false} JoinedPackets(ms: seq<Msg>)
    ensures Joined(Packets(ms)) == EncodeAll(ms)
  {
    if ms != [] {
      JoinedPackets(ms[1..]);
      assert Packets(ms)[1..] == Packets(ms[1..]);
    }
  }

  lemma {:induction false} JoinedAppend(ps: seq<seq<byte>>, qs: seq<seq<byte>>)
    ensures Joined(ps + qs) == Joined(ps) + Joined(qs)
    decreases |ps|
  {
    if ps == [] {
      assert [] + qs == qs && Joined([]) + Joined(qs) == Joined(qs);
    } else {
      var tail := ps[1..];
      JoinedAppend(tail, qs);
      assert (ps + qs)[1..] == tail + qs && (ps + qs)[0] == ps[0];
      assert ps[0] + (Joined(tail) + Joined(qs)) == ps[0] + Joined(tail) + Joined(qs);
    }
  }

  /**
   Whatever the sender's queue has submitted, and however much of it has come, in
   reads of whatever sizes, the receiver has been given a prefix of the messages
   sent: same types, same bodies, same order; and it never gets stuck.
   */
  lemma EndToEnd(q: SendQueue, c: NetConnect, ms: seq<Msg>)
    requires q.Valid() && q.written == Packets(ms) && Sendable(ms)
    requires c.Valid() && c.stream <= Joined(Flat(q.submitted))
    ensures c.delivered <= ms && Reasonable(c.stream)
    ensures q.sending == [] && c.stream == Joined(Flat(q.submitted)) ==>
              c.delivered == if ms != [] && ms[|ms| - 1].body == [] then ms[..|ms| - 1] else ms
  {
    hide Frames, Rest, Reasonable, Joined, Flat, EncodeAll, Packets, Bytes;
    var sent, behind := Joined(Flat(q.submitted)), q.Behind();
    JoinedAppend(Flat(q.submitted), behind);
    JoinedPackets(ms);
    AllDelivered(ms);
    var s, all := c.stream, EncodeAll(ms);
    assert all == sent + Joined(behind);
    var rest := all[|s|..];
    assert all == s + rest;
    PrefixFrames(s, rest);
    if q.sending == [] && s == sent {
      BytesNone();
      assert behind == [];
      JoinedNone();
      assert all == s;
    }
  }

  lemma JoinedNone()
    ensures Joined([]) == []
  {
  }
}
