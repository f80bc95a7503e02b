/**
 SHA-1: the streaming object, which takes a message in pieces of any size through
 a 64-byte block, against the one-shot digest of RFC 3174.
 */
module Sha1 {
  import opened Serial

  type word = bv32

  const BLOCK: nat := 64
  const LIMIT: int := 0x1_0000_0000_0000_0000

  // ---------- RFC 3174, sections 3 to 5 ----------

  /** A circular left shift, by 1 to 31 places. */
  function Rot(n: nat, x: word): word
    requires 0 < n < 32
  {
    (x << n) | (x >> (32 - n))
  }

  function Choose(b: word, c: word, d: word): word {
    (b & c) | ((!b) & d)
  }

  function Parity(b: word, c: word, d: word): word {
    b ^ c ^ d
  }

  function Majority(b: word, c: word, d: word): word {
    (b & c) | (b & d) | (c & d)
  }

  function F(t: nat, b: word, c: word, d: word): word {
    if t < 20 then Choose(b, c, d)
    else if t < 40 then Parity(b, c, d)
    else if t < 60 then Majority(b, c, d)
    else Parity(b, c, d)
  }

  function K(t: nat): word {
    if t < 20 then 0x5A827999 else if t < 40 then 0x6ED9EBA1 else if t < 60 then 0x8F1BBCDC else 0xCA62C1D6
  }

  datatype Digest = Digest(a: word, b: word, c: word, d: word, e: word)

  const INITIAL := Digest(0x67452301, 0xEFCDAB89, 0x98BADCFE, 0x10325476, 0xC3D2E1F0)

  /** Section 4: a one bit, zeros, and the length in bits as 64 bits, to a whole number of blocks. */
  function Pad(msg: seq<byte>): (s: seq<byte>) {
    msg + [0x80] + Zeros((55 - |msg|) % BLOCK) + Length(8 * |msg|)
  }

  function Zeros(n: nat): (s: seq<byte>)
    ensures |s| == n && forall i :: 0 <= i < n ==> s[i] == 0
  {
    seq(n, _ => 0)
  }

  /** The low byte of a number. */
  function Byte(x: nat): byte {
    x % 256
  }

  function Length32(n: nat): (s: seq<byte>)
    ensures |s| == 4
  {
    [Byte(n / 0x100_0000), Byte(n / 0x1_0000), Byte(n / 0x100), Byte(n)]
  }

  function Length(n: nat): (s: seq<byte>)
    ensures |s| == 8
  {
    Length32(n / WORD) + Length32(n % WORD)
  }

  // ---------- section 6.1: one block ----------

  function Be32(s: seq<byte>, at: nat): word
    requires at + 4 <= |s|
  {
    ((s[at] as word) << 24) | ((s[at + 1] as word) << 16) | ((s[at + 2] as word) << 8) | (s[at + 3] as word)
  }

  /** The first n words of the schedule of a block. */
  function Schedule(block: seq<byte>, n: nat): (w: seq<word>)
    requires |block| == BLOCK
    ensures |w| == n
  {
    if n == 0 then []
    else
      var w := Schedule(block, n - 1);
      w + [if n <= 16 then Be32(block, 4 * (n - 1)) else NextWord(w)]
  }

  /** TEMP of section 6.1. */
  function Temp(a: word, f: word, e: word, w: word, k: word): word {
    Rot(5, a) + f + e + w + k
  }

  function Round(s: Digest, t: nat, w: word): Digest {
    Digest(Temp(s.a, F(t, s.b, s.c, s.d), s.e, w, K(t)), s.a, Rot(30, s.b), s.c, s.d)
  }

  /** The word buffers after t rounds. */
  function Rounds(h: Digest, w: seq<word>, t: nat): Digest
    requires t <= |w|
  {
    if t == 0 then h else Round(Rounds(h, w, t - 1), t - 1, w[t - 1])
  }

  function Plus(h: Digest, r: Digest): Digest {
    Digest(h.a + r.a, h.b + r.b, h.c + r.c, h.d + r.d, h.e + r.e)
  }

  /** The next word of a schedule, after the first 16. */
  function NextWord(w: seq<word>): word
    requires |w| >= 16
  {
    Mix(w[|w| - 3], w[|w| - 8], w[|w| - 14], w[|w| - 16])
  }

  function Mix(a: word, b: word, c: word, d: word): word {
    Rot(1, a ^ b ^ c ^ d)
  }

  function Process(h: Digest, block: seq<byte>): Digest
    requires |block| == BLOCK
  {
    Plus(h, Rounds(h, Schedule(block, 80), 80))
  }

  /** The whole blocks of a sequence, one after another. */
  function Absorb(h: Digest, s: seq<byte>): Digest
    decreases |s|
  {
    if |s| < BLOCK then h else Absorb(Process(h, s[..BLOCK]), s[BLOCK..])
  }

  /** The digest of a message. */
  function Hash(msg: seq<byte>): Digest {
    Absorb(INITIAL, Pad(msg))
  }

  /** The padded message is whole blocks, and no fewer would hold it. */
  lemma PadWhole(msg: seq<byte>)
    ensures |Pad(msg)| % BLOCK == 0 && |msg| + 9 <= |Pad(msg)| < |msg| + 9 + BLOCK
  {
    hide Zeros, Length;
  }

  lemma {:induction false} AbsorbAppend(h: Digest, s: seq<byte>, t: seq<byte>)
    requires |s| % BLOCK == 0
    ensures Absorb(h, s + t) == Absorb(Absorb(h, s), t)
    decreases |s|
  {
    hide Process;
    if s == [] {
      assert s + t == t;
    } else {
      assert (s + t)[..BLOCK] == s[..BLOCK] && (s + t)[BLOCK..] == s[BLOCK..] + t;
      AbsorbAppend(Process(h, s[..BLOCK]), s[BLOCK..], t);
    }
  }

  lemma AbsorbBlock(h: Digest, block: seq<byte>)
    requires |block| == BLOCK
    ensures Absorb(h, block) == Process(h, block)
  {
    hide Process;
    assert block[..BLOCK] == block && block[BLOCK..] == [];
  }

  // ---------- padding can be undone ----------

  lemma Length32Injective(x: nat, y: nat)
    requires x < WORD && y < WORD && Length32(x) == Length32(y)
    ensures x == y
  {
    Bytes32(x);
    Bytes32(y);
  }

  lemma Bytes32(x: nat)
    requires x < WORD
    ensures var s := Length32(x); x == s[0] as int * 0x100_0000 + s[1] as int * 0x1_0000 + s[2] as int * 0x100 + s[3] as int
  {
    var a, b := x / 0x100, x / 0x1_0000;
    assert b == a / 256 && x / 0x100_0000 == b / 256;
  }

  lemma LengthInjective(x: nat, y: nat)
    requires x < LIMIT && y < LIMIT && Length(x) == Length(y)
    ensures x == y
  {
    hide Length32;
    var s, t := Length(x), Length(y);
    assert s[..4] == Length32(x / WORD) && s[4..] == Length32(x % WORD);
    assert t[..4] == Length32(y / WORD) && t[4..] == Length32(y % WORD);
    Length32Injective(x / WORD, y / WORD);
    Length32Injective(x % WORD, y % WORD);
  }

  /** Different messages within the limit have different padded forms. */
  lemma PadInjective(a: seq<byte>, b: seq<byte>)
    requires 8 * |a| < LIMIT && 8 * |b| < LIMIT && Pad(a) == Pad(b)
    ensures a == b
  {
    hide Length;
    var p := Pad(a);
    assert p[|p| - 8..] == Length(8 * |a|) && p[|p| - 8..] == Length(8 * |b|);
    LengthInjective(8 * |a|, 8 * |b|);
    assert a == p[..|a|] && b == p[..|b|];
  }

  // ---------- the object ----------

  class SHA1 {
    var h: Digest
    var lengthLow: nat
    var lengthHigh: nat
    const block: array<byte>
    var index: nat
    var computed: bool
    var corrupted: bool
    /** The message so far. */
    ghost var message: seq<byte>

    ghost predicate Valid()
      reads this, block
    {
      && block.Length == BLOCK && index < BLOCK
      && lengthLow < WORD && lengthHigh < WORD
      && (!corrupted ==>
            && 8 * |message| == lengthHigh * WORD + lengthLow
            && (computed ==> h == Hash(message))
            && (!computed ==> Pending(h, message, block[..index])))
    }

    constructor ()
      ensures Valid() && fresh(block) && message == [] && !computed && !corrupted
    {
      block := new byte[BLOCK];
      h, lengthLow, lengthHigh, index := INITIAL, 0, 0, 0;
      computed, corrupted, message := false, false, [];
      new;
      assert block[..0] == [];
    }

    /**
     Input: the message grows by the data, whatever the size of the piece. The
     object is corrupted exactly by data after the digest has been taken, or by a
     total of 2^64 bits.
     */
    method Input(data: array<byte>, length: nat)
      requires Valid() && length <= data.Length && data != block
      modifies this, block
      ensures Valid() && computed == old(computed)
      ensures corrupted == (old(corrupted) || (length > 0 && (old(computed) || 8 * (|old(message)| + length) >= LIMIT)))
      ensures !corrupted ==> message == old(message) + data[..length]
    {
      assert data[..0] == [] && message + [] == message;
      if length == 0 {
        return;
      }
      if computed || corrupted {
        corrupted := true;
        return;
      }
      var i := 0;
      while i < length && !corrupted
        invariant 0 <= i <= length && Valid() && !computed
        invariant corrupted == (8 * (|old(message)| + i) >= LIMIT)
        invariant !corrupted ==> message == old(message) + data[..i]
      {
        assert data[..i + 1] == data[..i] + [data[i]];
        InputOne(data[i]);
        i := i + 1;
      }
    }

    /** One byte of the message. */
    method InputOne(b: byte)
      requires Valid() && !computed && !corrupted
      modifies this, block
      ensures Valid() && !computed && message == old(message) + [b]
      ensures corrupted == (8 * |message| >= LIMIT)
    {
      hide Absorb, Process, Hash, Pending;
      ghost var held := block[..index];
      PendingMore(h, message, held, b);
      block[index] := b;
      index := index + 1;
      assert block[..index] == held + [b];
      message := message + [b];
      CountBits(old(|message|));
      if index == BLOCK {
        assert block[..index] == block[..];
        ProcessMessageBlock();
        assert block[..0] == [];
      }
    }

    /** Eight more bits; the count in two words overflows at 2^64. */
    method CountBits(ghost n: nat)
      requires 8 * n == lengthHigh * WORD + lengthLow && lengthLow < WORD && lengthHigh < WORD && !corrupted
      modifies `lengthLow, `lengthHigh, `corrupted
      ensures lengthLow < WORD && lengthHigh < WORD
      ensures corrupted == (8 * (n + 1) >= LIMIT)
      ensures !corrupted ==> 8 * (n + 1) == lengthHigh * WORD + lengthLow
    {
      lengthLow := (lengthLow + 8) % WORD;
      if lengthLow == 0 {
        lengthHigh := (lengthHigh + 1) % WORD;
        if lengthHigh == 0 {
          corrupted := true;
        }
      }
    }

    /** The compression of the block; the object's digest becomes that of section 6.1. */
    method ProcessMessageBlock()
      requires block.Length == BLOCK
      modifies `h, `index
      ensures h == Process(old(h), block[..]) && index == 0
    {
      hide Plus, Rounds, Schedule;
      var w := MakeSchedule();
      var r := RunRounds(h, w);
      h := Plus(h, r);
      index := 0;
    }

    /** The array W. */
    method MakeSchedule() returns (w: array<word>)
      requires block.Length == BLOCK
      ensures fresh(w) && w.Length == 80 && w[..] == Schedule(block[..], 80)
    {
      hide Rot, Be32, Be32Bytes, Mix, Schedule;
      w := new word[80];
      ghost var bs := block[..];
      assert w[..0] == [];
      var t := 0;
      while t < 16
        invariant 0 <= t <= 16 && w[..t] == Schedule(bs, t)
      {
        Be32Of(t);
        ScheduleStep(bs, t);
        w[t] := Be32Bytes(block[t * 4], block[t * 4 + 1], block[t * 4 + 2], block[t * 4 + 3]);
        assert w[..t + 1] == w[..t] + [w[t]];
        t := t + 1;
      }
      while t < 80
        invariant 16 <= t <= 80 && w[..t] == Schedule(bs, t)
      {
        ScheduleStep(bs, t);
        ghost var sofar := w[..t];
        assert sofar[t - 3] == w[t - 3] && sofar[t - 8] == w[t - 8] && sofar[t - 14] == w[t - 14] && sofar[t - 16] == w[t - 16];
        w[t] := Mix(w[t - 3], w[t - 8], w[t - 14], w[t - 16]);
        assert w[..t + 1] == sofar + [w[t]];
        t := t + 1;
      }
      assert w[..80] == w[..];
    }

    lemma Be32Of(t: nat)
      requires block.Length == BLOCK && t < 16
      ensures Be32(block[..], 4 * t) ==
              Be32Bytes(block[t * 4], block[t * 4 + 1], block[t * 4 + 2], block[t * 4 + 3])
    {
    }

    /** PadMessage: what is left of the message and its padding make one or two blocks. */
    method PadMessage()
      requires Valid() && !computed && !corrupted
      modifies `h, `index, block
      ensures h == Hash(message) && index == 0
    {
      hide Absorb, Process, Length, Length32;
      ghost var held := block[..index];
      ghost var n := |held|;
      block[index] := 0x80;
      index := index + 1;
      assert block[..index] == held + [0x80];
      if index > 56 {
        Fill(BLOCK);
        ghost var first := held + [0x80] + Zeros(BLOCK - 1 - n);
        assert block[..] == block[..index] == first;
        ghost var h0 := h;
        ProcessMessageBlock();
        assert block[..0] == [];
        Fill(56);
        assert block[..56] == [] + Zeros(56);
        StoreLength();
        PadTwo(h0, message, held, first, block[..]);
        ProcessMessageBlock();
      } else {
        Fill(56);
        assert block[..56] == held + [0x80] + Zeros(55 - n);
        StoreLength();
        PadOne(h, message, held, block[..]);
        ProcessMessageBlock();
      }
    }

    /** Zeros up to a position. */
    method Fill(to: nat)
      requires block.Length == BLOCK && index <= to <= BLOCK
      modifies `index, block
      ensures index == to && block[..to] == old(block[..index]) + Zeros(to - old(index))
    {
      while index < to
        invariant old(index) <= index <= to && block[..index] == old(block[..index]) + Zeros(index - old(index))
      {
        ghost var s := block[..index];
        block[index] := 0;
        assert block[..index + 1] == s + [0];
        assert Zeros(index - old(index)) + [0] == Zeros(index + 1 - old(index));
        index := index + 1;
      }
    }

    method StoreLength()
      requires block.Length == BLOCK && lengthLow < WORD && lengthHigh < WORD
      modifies block
      ensures block[..] == old(block[..56]) + Length(lengthHigh * WORD + lengthLow)
    {
      LengthParts(lengthHigh, lengthLow);
      StoreWord(56, lengthHigh);
      ghost var s := block[..60];
      StoreWord(60, lengthLow);
      assert block[..] == block[..64] && s == block[..60];
    }

    /** The four bytes of a word, the highest first. */
    method StoreWord(at: nat, w: nat)
      requires at + 4 <= block.Length
      modifies block
      ensures block[..at + 4] == old(block[..at]) + Length32(w)
    {
      hide Byte;
      block[at], block[at + 1] := Byte(w / 0x100_0000), Byte(w / 0x1_0000);
      block[at + 2], block[at + 3] := Byte(w / 0x100), Byte(w);
      assert block[..at] == old(block[..at]);
    }

    /** Result: the digest of the message given so far, however it was cut; asking again gives it again. */
    method Result() returns (ok: bool, digest: Digest)
      requires Valid()
      modifies this, block
      ensures Valid() && message == old(message) && corrupted == old(corrupted)
      ensures ok == !corrupted && (ok ==> computed && digest == Hash(message))
    {
      hide Absorb, Hash, Pending;
      digest := h;
      if corrupted {
        return false, digest;
      }
      if !computed {
        PadMessage();
        computed := true;
      }
      digest := h;
      ok := true;
    }
  }

  lemma ScheduleStep(block: seq<byte>, t: nat)
    requires |block| == BLOCK
    ensures Schedule(block, t + 1) ==
            Schedule(block, t) + [if t < 16 then Be32(block, 4 * t) else NextWord(Schedule(block, t))]
  {
    hide Be32, NextWord;
  }

  function Be32Bytes(a: byte, b: byte, c: byte, d: byte): word {
    ((a as word) << 24) | ((b as word) << 16) | ((c as word) << 8) | (d as word)
  }

  /** The rounds, in four loops. */
  method RunRounds(h: Digest, w: array<word>) returns (r: Digest)
    requires w.Length == 80
    ensures r == Rounds(h, w[..], 80)
  {
    hide Rot, Choose, Parity, Majority, Temp;
    var a, b, c, d, e := h.a, h.b, h.c, h.d, h.e;
    var t := 0;
    while t < 20
      invariant 0 <= t <= 20 && Digest(a, b, c, d, e) == Rounds(h, w[..], t)
    {
      var temp := Temp(a, Choose(b, c, d), e, w[t], 0x5A827999);
      e, d, c, b, a := d, c, Rot(30, b), a, temp;
      t := t + 1;
    }
    while t < 40
      invariant 20 <= t <= 40 && Digest(a, b, c, d, e) == Rounds(h, w[..], t)
    {
      var temp := Temp(a, Parity(b, c, d), e, w[t], 0x6ED9EBA1);
      e, d, c, b, a := d, c, Rot(30, b), a, temp;
      t := t + 1;
    }
    while t < 60
      invariant 40 <= t <= 60 && Digest(a, b, c, d, e) == Rounds(h, w[..], t)
    {
      var temp := Temp(a, Majority(b, c, d), e, w[t], 0x8F1BBCDC);
      e, d, c, b, a := d, c, Rot(30, b), a, temp;
      t := t + 1;
    }
    while t < 80
      invariant 60 <= t <= 80 && Digest(a, b, c, d, e) == Rounds(h, w[..], t)
    {
      var temp := Temp(a, Parity(b, c, d), e, w[t], 0xCA62C1D6);
      e, d, c, b, a := d, c, Rot(30, b), a, temp;
      t := t + 1;
    }
    r := Digest(a, b, c, d, e);
  }

  // ---------- the part of the message in the block ----------

  /** The whole blocks of the message have been absorbed, and the block holds the rest. */
  ghost predicate Pending(h: Digest, message: seq<byte>, held: seq<byte>) {
    && |held| == |message| % BLOCK && held == message[|message| - |held|..]
    && h == Absorb(INITIAL, message[..|message| - |held|])
  }

  lemma PendingMore(h: Digest, message: seq<byte>, held: seq<byte>, b: byte)
    requires Pending(h, message, held)
    ensures |held| + 1 < BLOCK ==> Pending(h, message + [b], held + [b])
    ensures |held| + 1 == BLOCK ==> Pending(Process(h, held + [b]), message + [b], [])
  {
    hide Absorb, Process;
    var whole := message[..|message| - |held|];
    var more := message + [b];
    assert more[..|message| - |held|] == whole && more == whole + (held + [b]);
    if |held| + 1 == BLOCK {
      AbsorbAppend(INITIAL, whole, held + [b]);
      AbsorbBlock(h, held + [b]);
      assert more[..|more|] == more && more[|more|..] == [];
    }
  }

  lemma LengthParts(high: nat, low: nat)
    requires low < WORD
    ensures (high * WORD + low) / WORD == high && (high * WORD + low) % WORD == low
    ensures Length(high * WORD + low) == Length32(high) + Length32(low)
  {
    hide Length32;
  }

  /** The padding fits behind the rest of the message. */
  lemma PadOne(h: Digest, message: seq<byte>, held: seq<byte>, last: seq<byte>)
    requires Pending(h, message, held) && |held| <= 55
    requires last == held + [0x80] + Zeros(55 - |held|) + Length(8 * |message|)
    ensures Process(h, last) == Hash(message)
  {
    hide Absorb, Process, Length;
    var whole := message[..|message| - |held|];
    assert (55 - |message|) % BLOCK == 55 - |held|;
    assert Pad(message) == whole + last;
    AbsorbAppend(INITIAL, whole, last);
    AbsorbBlock(h, last);
  }

  /** It does not fit, and takes a block more. */
  lemma PadTwo(h: Digest, message: seq<byte>, held: seq<byte>, first: seq<byte>, last: seq<byte>)
    requires Pending(h, message, held) && 55 < |held| < BLOCK
    requires first == held + [0x80] + Zeros(BLOCK - 1 - |held|) && last == Zeros(56) + Length(8 * |message|)
    ensures Process(Process(h, first), last) == Hash(message)
  {
    hide Absorb, Process, Length;
    var whole := message[..|message| - |held|];
    assert (55 - |message|) % BLOCK == BLOCK + 55 - |held|;
    assert Zeros(BLOCK - 1 - |held|) + Zeros(56) == Zeros(BLOCK + 55 - |held|);
    assert Pad(message) == whole + (first + last);
    AbsorbAppend(INITIAL, whole, first + last);
    AbsorbAppend(h, first, last);
    AbsorbBlock(h, first);
    AbsorbBlock(Process(h, first), last);
  }
}
