/**
 32-bit serial-number arithmetic, as the KCP control block uses it.

 Every function of the protocol model takes an `Arith`. `Wrap32` is what the
 program computes: unsigned 32-bit words compared by the sign of their
 difference. `Unbounded` is the same protocol over the integers. Having both
 from one definition is what makes the wraparound theorem (module KcpRefine) a
 statement about the same code.
 */
module Serial {
  const WORD: int := 0x1_0000_0000
  const HALF: int := 0x8000_0000

  type u32 = x: int | 0 <= x < 0x1_0000_0000
  type byte = x: int | 0 <= x < 256

  function Wrap(x: int): (w: u32) {
    x % WORD
  }

  /** The value of a 32-bit word read as a two's complement integer. */
  function Signed(w: u32): (x: int) {
    if w < HALF then w else w - WORD
  }

  function Itimediff(later: u32, earlier: u32): (d: int) {
    Signed(Wrap(later - earlier))
  }

  datatype Arith = Wrap32 | Unbounded {
    /** The representation of the number x. */
    function Norm(x: int): (y: int) {
      if Wrap32? then Wrap(x) else x
    }

    function Diff(later: int, earlier: int): (d: int) {
      if Wrap32? then Signed(Wrap(later - earlier)) else later - earlier
    }

    /** How far x lies ahead of base. */
    function Off(x: int, base: int): (d: int) {
      Norm(x - base)
    }
  }

  function Min(a: int, b: int): int {
    if a <= b then a else b
  }

  function Max(a: int, b: int): int {
    if a >= b then a else b
  }

  /**
   The comparison of two wrapped numbers is the comparison of the numbers
   exactly when they are less than half the number space apart.
   */
  lemma ItimediffExact(a: int, b: int)
    ensures Itimediff(Wrap(a), Wrap(b)) == a - b <==> -HALF <= a - b < HALF
  {
    var d := Wrap(a) - Wrap(b);
    assert (d - (a - b)) % WORD == 0;
    assert Wrap(d) == Wrap(a - b);
  }

  lemma WrapOfWrap(a: int, b: int)
    ensures Wrap(Wrap(a) + b) == Wrap(a + b)
    ensures Wrap(b - Wrap(a)) == Wrap(b - a)
    ensures Wrap(Wrap(a) - Wrap(b)) == Wrap(a - b)
  {
    WholeTurns(a + b, -(a / WORD));
    WholeTurns(b - a, a / WORD);
    WholeTurns(a - b, b / WORD - a / WORD);
  }

  lemma SignedSmall(x: int)
    requires -HALF <= x < HALF
    ensures Signed(Wrap(x)) == x
  {
  }

  lemma WholeTurns(x: int, turns: int)
    ensures Wrap(x + turns * WORD) == Wrap(x)
  {
    assert x + turns * WORD == (x / WORD + turns) * WORD + x % WORD;
  }

  /** Numbers at most half the number space apart that wrap to the same word are equal. */
  lemma WrapInjective(a: int, b: int)
    requires -WORD < a - b < WORD
    ensures Wrap(a) == Wrap(b) <==> a == b
  {
  }

  /** The comparison of two numbers ahead of a common base is the comparison of their offsets. */
  lemma DiffByOffsets(ar: Arith, a: int, b: int, base: int)
    requires -HALF <= ar.Off(a, base) - ar.Off(b, base) < HALF
    ensures ar.Diff(a, b) == ar.Off(a, base) - ar.Off(b, base)
  {
    if ar.Wrap32? {
      WrapOfWrap(a - base, b - base);
      assert Wrap(a - b) == Wrap(ar.Off(a, base) - ar.Off(b, base));
    }
  }

  /** Moving the base forward shortens every offset that reaches past it. */
  lemma Rebase(ar: Arith, x: int, base: int, base': int)
    requires 0 <= ar.Off(base', base) <= ar.Off(x, base)
    ensures ar.Off(x, base') == ar.Off(x, base) - ar.Off(base', base)
  {
    if ar.Wrap32? {
      WrapOfWrap(x - base, base' - base);
    }
  }

  lemma Increment(ar: Arith, x: int, base: int)
    requires 0 <= ar.Off(x, base) < WORD - 1
    ensures ar.Off(ar.Norm(x + 1), base) == ar.Off(x, base) + 1
  {
    if ar.Wrap32? {
      WrapOfWrap(x + 1, -base);
      WrapOfWrap(x - base, 1);
    }
  }
}
