/** CRC-16/XMODEM, the reference the save-block checksum is compared against: the CRC with the
    ITU-T V.41 generator x^16 + x^12 + x^5 + 1, initial value 0, bits taken most significant
    first, no reflection and no final XOR. A register value below 2^16 is a residue modulo the
    generator, and XOR is addition of residues. */
module Crc16 {
  import opened Base
  import opened Bits

  /** The generator polynomial without its x^16 term. */
  const GENERATOR: nat := 0x1021

  /** A 16-bit CRC register. */
  type Residue = a: nat | a < 0x10000

  /** Multiplies a residue by x modulo the generator: shift left, and when bit 15 falls off
      the top, add (XOR) the generator. This is the step of the table-less CRC loop. */
  function MulX(a: Residue): (r: Residue)
    ensures a < 0x8000 ==> r == 2 * a
    ensures r % 2 == (if a < 0x8000 then 0 else 1)
  {
    if a < 0x8000 then 2 * a
    else
      Pow2Values();
      XorBound(2 * (a - 0x8000), GENERATOR, 16);
      XorStep(2 * (a - 0x8000), GENERATOR, a - 0x8000, GENERATOR / 2, 0, 1);
      Xor(2 * (a - 0x8000), GENERATOR)
  }

  /** Multiplies a residue by x^n modulo the generator. */
  function MulXPow(n: nat, a: Residue): (r: Residue)
  {
    if n == 0 then a else MulX(MulXPow(n - 1, a))
  }

  /** The CRC register after one more message byte: XOR the byte into the high half of the
      register, then eight shift-and-reduce steps. */
  function XmodemByte(crc: Residue, c: byte): (r: Residue)
  {
    Pow2Values();
    XorBound(crc, 256 * (c as nat), 16);
    MulXPow(8, Xor(crc, 256 * (c as nat)))
  }

  /** CRC-16/XMODEM of a byte string. */
  function Xmodem(s: seq<byte>): (r: Residue)
  {
    if s == [] then 0 else XmodemByte(Xmodem(s[..|s| - 1]), s[|s| - 1])
  }

  /** XOR of two residues is a residue. */
  lemma XorResidue(a: Residue, b: Residue)
    ensures Xor(a, b) < 0x10000
  {
    Pow2Values();
    XorBound(a, b, 16);
  }

  /** Multiplication by x is injective: only 0 maps to 0, since the generator has a constant
      term. */
  lemma MulXZero(a: Residue)
    ensures MulX(a) == 0 <==> a == 0
  {
  }

  /** Multiplication by x is linear over GF(2). */
  lemma MulXLinear(a: Residue, b: Residue)
    ensures Xor(a, b) < 0x10000
    ensures MulX(Xor(a, b)) == Xor(MulX(a), MulX(b))
  {
    Pow2Values();
    XorResidue(a, b);
    var ab := Xor(a, b);
    if a < 0x8000 && b < 0x8000 {
      XorBound(a, b, 15);
      XorDouble(a, b);
    } else if a >= 0x8000 && b < 0x8000 {
      var a' := a - 0x8000;
      XorKeepTop(a', b, 15);
      XorDouble(a', b);
      XorSwap(2 * a', GENERATOR, 2 * b);
    } else if a < 0x8000 {
      var b' := b - 0x8000;
      XorComm(a, b);
      XorKeepTop(b', a, 15);
      XorComm(b', a);
      XorDouble(a, b');
      XorAssoc(2 * a, 2 * b', GENERATOR);
    } else {
      var a', b' := a - 0x8000, b - 0x8000;
      XorCancelTop(a', b', 15);
      XorBound(a', b', 15);
      XorDouble(a', b');
      XorPairCancel(2 * a', 2 * b', GENERATOR);
    }
  }

  /** So is multiplication by x^n. */
  lemma {:induction false} MulXPowLinear(n: nat, a: Residue, b: Residue)
    ensures Xor(a, b) < 0x10000
    ensures MulXPow(n, Xor(a, b)) == Xor(MulXPow(n, a), MulXPow(n, b))
  {
    XorResidue(a, b);
    if n > 0 {
      MulXPowLinear(n - 1, a, b);
      MulXLinear(MulXPow(n - 1, a), MulXPow(n - 1, b));
    }
  }

  /** x^m * (x^n * a) == x^(m+n) * a. */
  lemma {:induction false} MulXPowAdd(m: nat, n: nat, a: Residue)
    ensures MulXPow(m, MulXPow(n, a)) == MulXPow(m + n, a)
  {
    if m > 0 {
      MulXPowAdd(m - 1, n, a);
    }
  }

  /** x^n * a is 0 only when a is. */
  lemma {:induction false} MulXPowZero(n: nat, a: Residue)
    ensures MulXPow(n, a) == 0 <==> a == 0
  {
    if n > 0 {
      MulXPowZero(n - 1, a);
      MulXZero(MulXPow(n - 1, a));
    }
  }

  /** x^8 times a byte is the byte moved to the high half of the register: below degree 15
      nothing is reduced. */
  lemma MulXPowOfByte(c: byte)
    ensures MulXPow(8, c) == 256 * (c as nat)
  {
    assert MulXPow(1, c) == 2 * c;
    assert MulXPow(2, c) == 4 * c;
    assert MulXPow(3, c) == 8 * c;
    assert MulXPow(4, c) == 16 * c;
    assert MulXPow(5, c) == 32 * c;
    assert MulXPow(6, c) == 64 * c;
    assert MulXPow(7, c) == 128 * c;
  }

  /** Multiplication by x^n is injective, so it never maps two register values together. */
  lemma {:induction false} MulXPowInjective(n: nat, a: Residue, b: Residue)
    ensures MulXPow(n, a) == MulXPow(n, b) <==> a == b
  {
    XorResidue(a, b);
    MulXPowLinear(n, a, b);
    MulXPowZero(n, Xor(a, b));
    XorSelf(MulXPow(n, a));
    XorCancel(MulXPow(n, a), MulXPow(n, b), MulXPow(n, b));
    XorSelf(b);
    XorCancel(a, b, b);
  }
}
