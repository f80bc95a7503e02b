/**
 The KCP wire format: a datagram is a run of segments, each a 24-byte
 little-endian header followed by its data.
 */
module KcpWire {
  import opened Serial

  const OVERHEAD: int := 24
  const CMD_PUSH: int := 81
  const CMD_ACK: int := 82
  const CMD_WASK: int := 83
  const CMD_WINS: int := 84

  /** A segment as it travels; `sn` and `una` are written modulo 2^32. */
  datatype Pkt = Pkt(cmd: int, frg: int, wnd: int, ts: u32, sn: int, una: int, data: seq<byte>) {
    function Size(): int {
      OVERHEAD + |data|
    }
  }

  /** The segments read from a datagram, and the code with which reading ended. */
  datatype Parsed = Parsed(pkts: seq<Pkt>, rc: int)

  predicate KnownCmd(cmd: int) {
    cmd == CMD_PUSH || cmd == CMD_ACK || cmd == CMD_WASK || cmd == CMD_WINS
  }

  // ---------- integers ----------

  function Enc16(w: int): (s: seq<byte>)
    ensures |s| == 2
  {
    [w % 256, w / 256 % 256]
  }

  function Enc32(w: int): (s: seq<byte>)
    ensures |s| == 4
  {
    [w % 256, w / 0x100 % 256, w / 0x1_0000 % 256, w / 0x100_0000 % 256]
  }

  function Dec16(d: seq<byte>, at: nat): (w: int)
    requires at + 2 <= |d|
    ensures 0 <= w < 0x1_0000
  {
    d[at] as int + 0x100 * d[at + 1] as int
  }

  function Dec32(d: seq<byte>, at: nat): (w: u32)
    requires at + 4 <= |d|
  {
    d[at] as int + 0x100 * d[at + 1] as int + 0x1_0000 * d[at + 2] as int + 0x100_0000 * d[at + 3] as int
  }

  lemma DecEnc32(w: int)
    ensures Dec32(Enc32(w), 0) == Wrap(w)
  {
    Base256(w);
    var q := w / 0x100_0000 / 256;
    assert w == Dec32(Enc32(w), 0) + q * WORD;
    WholeTurns(Dec32(Enc32(w), 0), q);
  }

  lemma Base256(w: int)
    ensures w == w % 256 + 0x100 * (w / 0x100 % 256) + 0x1_0000 * (w / 0x1_0000 % 256)
                 + 0x100_0000 * (w / 0x100_0000 % 256) + 0x1_0000_0000 * (w / 0x100_0000 / 256)
  {
    var a, b, c := w / 0x100, w / 0x1_0000, w / 0x100_0000;
    assert b == a / 256;
    assert c == b / 256;
  }

  // ---------- segments ----------

  function EncodeHeader(conv: u32, p: Pkt): (s: seq<byte>)
    ensures |s| == OVERHEAD
  {
    Enc32(conv) + [p.cmd % 256, p.frg % 256] + Enc16(p.wnd) + Enc32(p.ts)
    + Enc32(p.sn) + Enc32(p.una) + Enc32(|p.data|)
  }

  function EncodePkt(conv: u32, p: Pkt): (s: seq<byte>)
    ensures |s| == p.Size()
  {
    EncodeHeader(conv, p) + p.data
  }

  function EncodeAll(conv: u32, pkts: seq<Pkt>): (s: seq<byte>) {
    if pkts == [] then [] else EncodeAll(conv, pkts[..|pkts| - 1]) + EncodePkt(conv, pkts[|pkts| - 1])
  }

  function TotalSize(pkts: seq<Pkt>): (n: nat) {
    if pkts == [] then 0 else TotalSize(pkts[..|pkts| - 1]) + pkts[|pkts| - 1].Size()
  }

  /** The header at the start of a datagram, with the first `len` bytes after it as data. */
  function DecodePkt(d: seq<byte>, len: nat): (p: Pkt)
    requires OVERHEAD + len <= |d|
  {
    Pkt(d[4], d[5], Dec16(d, 6), Dec32(d, 8), Dec32(d, 12), Dec32(d, 16), d[OVERHEAD..OVERHEAD + len])
  }

  /** The segment loop of ikcp_input: stop at the first header that cannot be accepted. */
  function ParseAll(conv: u32, d: seq<byte>): (r: Parsed)
    decreases |d|
  {
    if |d| < OVERHEAD then
      Parsed([], 0)
    else if Dec32(d, 0) != conv then
      Parsed([], -1)
    else
      var len := Dec32(d, 20);
      if |d| - OVERHEAD < len || Signed(len) < 0 then
        Parsed([], -2)
      else if !KnownCmd(d[4]) then
        Parsed([], -3)
      else
        var rest := ParseAll(conv, d[OVERHEAD + len..]);
        Parsed([DecodePkt(d, len)] + rest.pkts, rest.rc)
  }

  /** ikcp_input on a datagram: too short (as a C int) is an error of its own. */
  function Parse(conv: u32, d: seq<byte>): (r: Parsed) {
    if Signed(Wrap(|d|)) < OVERHEAD then Parsed([], -1) else ParseAll(conv, d)
  }

  // ---------- round trip ----------

  /** What the header fields can hold: the receiver sees the segment as it was sent. */
  predicate Wireable(p: Pkt) {
    && KnownCmd(p.cmd)
    && 0 <= p.frg < 0x100
    && 0 <= p.wnd < 0x1_0000
    && |p.data| < HALF
  }

  function WrapPkt(p: Pkt): Pkt {
    p.(sn := Wrap(p.sn), una := Wrap(p.una))
  }

  function WrapPkts(pkts: seq<Pkt>): (r: seq<Pkt>)
    ensures |r| == |pkts|
    ensures forall i :: 0 <= i < |pkts| ==> r[i] == WrapPkt(pkts[i])
  {
    seq(|pkts|, i requires 0 <= i < |pkts| => WrapPkt(pkts[i]))
  }

  lemma DecodeEncoded(conv: u32, p: Pkt, rest: seq<byte>)
    requires Wireable(p)
    ensures var d := EncodePkt(conv, p) + rest;
            && Dec32(d, 0) == conv
            && Dec32(d, 20) == |p.data|
            && DecodePkt(d, |p.data|) == WrapPkt(p)
  {
    var d := EncodePkt(conv, p) + rest;
    HeaderLayout(Enc32(conv), [p.cmd % 256, p.frg % 256], Enc16(p.wnd), Enc32(p.ts), Enc32(p.sn), Enc32(p.una),
                 Enc32(|p.data|), p.data, rest);
    assert d == Enc32(conv) + [p.cmd % 256, p.frg % 256] + Enc16(p.wnd) + Enc32(p.ts) + Enc32(p.sn) + Enc32(p.una)
                + Enc32(|p.data|) + p.data + rest;
    DecodeLaidOut(conv, p, d);
  }

  lemma DecodeLaidOut(conv: u32, p: Pkt, d: seq<byte>)
    requires Wireable(p) && |d| >= p.Size()
    requires d[0..4] == Enc32(conv) && d[4] == p.cmd % 256 && d[5] == p.frg % 256 && d[6..8] == Enc16(p.wnd)
    requires d[8..12] == Enc32(p.ts) && d[12..16] == Enc32(p.sn) && d[16..20] == Enc32(p.una)
    requires d[20..24] == Enc32(|p.data|) && d[OVERHEAD..OVERHEAD + |p.data|] == p.data
    ensures Dec32(d, 0) == conv
    ensures Dec32(d, 20) == |p.data|
    ensures DecodePkt(d, |p.data|) == WrapPkt(p)
  {
    Word32(d, 0, conv);
    Field16(d, 6, p.wnd);
    Word32(d, 8, p.ts);
    Field32(d, 12, p.sn);
    Field32(d, 16, p.una);
    Word32(d, 20, |p.data|);
  }

  lemma Word32(d: seq<byte>, at: nat, w: u32)
    requires at + 4 <= |d| && d[at..at + 4] == Enc32(w)
    ensures Dec32(d, at) == w
  {
    Field32(d, at, w);
  }

  lemma HeaderLayout(conv: seq<byte>, cf: seq<byte>, wnd: seq<byte>, ts: seq<byte>, sn: seq<byte>, una: seq<byte>,
                     len: seq<byte>, data: seq<byte>, rest: seq<byte>)
    requires |conv| == |ts| == |sn| == |una| == |len| == 4 && |cf| == |wnd| == 2
    ensures var d := conv + cf + wnd + ts + sn + una + len + data + rest;
            && d[0..4] == conv && d[4] == cf[0] && d[5] == cf[1] && d[6..8] == wnd
            && d[8..12] == ts && d[12..16] == sn && d[16..20] == una && d[20..24] == len
            && d[OVERHEAD..OVERHEAD + |data|] == data
  {
  }

  lemma Field16(d: seq<byte>, at: nat, w: int)
    requires at + 2 <= |d| && d[at..at + 2] == Enc16(w)
    ensures Dec16(d, at) == w % 0x1_0000
  {
    var f := d[at..at + 2];
    assert d[at] == f[0] && d[at + 1] == f[1];
  }

  lemma Field32(d: seq<byte>, at: nat, w: int)
    requires at + 4 <= |d| && d[at..at + 4] == Enc32(w)
    ensures Dec32(d, at) == Wrap(w)
  {
    DecEnc32(w);
    var f := d[at..at + 4];
    assert d[at] == f[0] && d[at + 1] == f[1] && d[at + 2] == f[2] && d[at + 3] == f[3];
  }

  lemma EncodeFront(conv: u32, pkts: seq<Pkt>)
    requires pkts != []
    ensures EncodeAll(conv, pkts) == EncodePkt(conv, pkts[0]) + EncodeAll(conv, pkts[1..])
  {
    if |pkts| > 1 {
      var init := pkts[..|pkts| - 1];
      EncodeFront(conv, init);
      assert init[1..] == pkts[1..][..|pkts| - 2];
      assert pkts[1..][|pkts| - 2] == pkts[|pkts| - 1];
    }
  }

  lemma EncodedSize(conv: u32, pkts: seq<Pkt>)
    ensures |EncodeAll(conv, pkts)| == TotalSize(pkts)
  {
    if pkts != [] {
      EncodedSize(conv, pkts[..|pkts| - 1]);
    }
  }

  /** Reading back what was written gives exactly the segments written, whatever they are. */
  lemma {:induction false} ParseEncoded(conv: u32, pkts: seq<Pkt>)
    requires forall i :: 0 <= i < |pkts| ==> Wireable(pkts[i])
    ensures ParseAll(conv, EncodeAll(conv, pkts)) == Parsed(WrapPkts(pkts), 0)
  {
    if pkts != [] {
      var p, rest := pkts[0], EncodeAll(conv, pkts[1..]);
      EncodeFront(conv, pkts);
      DecodeEncoded(conv, p, rest);
      ParseEncoded(conv, pkts[1..]);
      assert [WrapPkt(p)] + WrapPkts(pkts[1..]) == WrapPkts(pkts);
    }
  }

  /** Every segment ever read from a datagram has fields that fit their header fields. */
  lemma {:induction false} ParsedFieldsInRange(conv: u32, d: seq<byte>)
    ensures forall i :: 0 <= i < |ParseAll(conv, d).pkts| ==>
              var p := ParseAll(conv, d).pkts[i];
              Wireable(p) && WrapPkt(p) == p
    decreases |d|
  {
    if |d| >= OVERHEAD && Dec32(d, 0) == conv {
      var len := Dec32(d, 20);
      if |d| - OVERHEAD >= len && Signed(len) >= 0 && KnownCmd(d[4]) {
        ParsedFieldsInRange(conv, d[OVERHEAD + len..]);
      }
    }
  }
}
