/** The save-block checksum (`Save.check`): a bit-serial long division of the checked bytes by
    the polynomial 0x11021, with the register starting at 0 and the two stored checksum bytes
    zeroed before they are fed. It equals CRC-16/XMODEM of the bytes in front of the stored
    checksum. */
module Checksum {
  import opened Base
  import opened Layout
  import opened Bits
  import opened Crc16

  /** The divisor x^16 + x^12 + x^5 + 1, which pyCTR builds as `65536 | 4129`. */
  const POLY: nat := 0x11021
  /** The register bit whose appearance triggers a subtraction of the divisor. */
  const CARRY: nat := 0x10000

  /** Bit `i` of byte `c`, as pyCTR extracts it with `(c >> d) & 1`. */
  function Bit(c: byte, i: nat): (g: nat)
    ensures g == Shr(c, i) % 2
  {
    AndOne(Shr(c, i));
    And(Shr(c, i), 1)
  }

  /** One pass of the inner loop: shift the register left, bring bit `g` in at the bottom,
      and subtract (XOR) the divisor once bit 16 has appeared. */
  function BitStep(a: Residue, g: nat): (r: Residue)
    requires g <= 1
  {
    var s := 2 * a + g;
    if s < CARRY then s
    else
      Pow2Values();
      XorCancelTop(s - CARRY, POLY - CARRY, 16);
      XorBound(s - CARRY, POLY - CARRY, 16);
      Xor(s, POLY)
  }

  /** The register after the top `k` bits of `c` have been fed, bit 7 first. */
  function FeedBits(a: Residue, c: byte, k: nat): (r: Residue)
    requires k <= 8
  {
    if k == 0 then a else BitStep(FeedBits(a, c, k - 1), Bit(c, 8 - k))
  }

  /** The register after a whole byte: all eight bits, most significant first. */
  function ByteStep(a: Residue, c: byte): (r: Residue)
  {
    FeedBits(a, c, 8)
  }

  /** The register after feeding every byte of `s` in order, starting from 0. */
  function Register(s: seq<byte>): (r: Residue)
  {
    if s == [] then 0 else ByteStep(Register(s[..|s| - 1]), s[|s| - 1])
  }

  /** The bytes the register is fed: the 5760 bytes from offset 384 of the block, in which the
      last two, the stored checksum, read as 0 because pyCTR zeroes them first. */
  function Payload(data: seq<byte>): (p: seq<byte>)
    requires |data| >= SAVE_LEN
    ensures |p| == CHECKED_LEN
    ensures forall i | 0 <= i < |p| ::
      p[i] == if CHECKED_START + i < CHECKSUM_OFFSET then data[CHECKED_START + i] else 0
  {
    data[CHECKED_START..CHECKSUM_OFFSET] + [0, 0]
  }

  /** A 16-bit value as two bytes, high byte first. */
  function BigEndian(a: Residue): (r: seq<byte>)
    ensures |r| == 2 && 256 * (r[0] as nat) + r[1] == a
  {
    [a / 256, a % 256]
  }

  /** The checksum of a save block, as the two bytes pyCTR returns. */
  function Check(data: seq<byte>): (r: seq<byte>)
    requires |data| >= SAVE_LEN
    ensures |r| == 2
  {
    BigEndian(Register(Payload(data)))
  }

  /** One division step is a multiplication by x followed by adding the incoming bit. */
  lemma BitStepIsMulX(a: Residue, g: nat)
    requires g <= 1
    ensures BitStep(a, g) == Xor(MulX(a), g)
  {
    Pow2Values();
    if a < 0x8000 {
      XorLowBit(a, g);
    } else {
      var a' := a - 0x8000;
      var low := 2 * a' + g;
      XorCancelTop(low, GENERATOR, 16);
      XorLowBit(a', g);
      XorSwap(2 * a', GENERATOR, g);
    }
  }

  /** Feeding bit 8 - k of `c` to a register that holds x^(k-1) * a plus the top k - 1 bits
      of `c` leaves x^k * a plus the top k bits. */
  lemma FeedOneBit(a: Residue, c: byte, k: nat)
    requires 1 <= k <= 8
    requires FeedBits(a, c, k - 1) == Xor(MulXPow(k - 1, a), Shr(c, 9 - k))
    ensures FeedBits(a, c, k) == Xor(MulXPow(k, a), Shr(c, 8 - k))
  {
    var t, u := Shr(c, 9 - k), Shr(c, 8 - k);
    var g := Bit(c, 8 - k);
    var m := MulXPow(k - 1, a);
    assert FeedBits(a, c, k) == BitStep(Xor(m, t), g);
    assert 2 * t + g == u;
    assert MulXPow(k, a) == MulX(m);
    assert t < 128 by {
      Pow2Values();
      ShrBound(c, 9 - k, k - 1);
      if k - 1 < 7 { Pow2Mono(k - 1, 7); }
    }
    assert MulX(t) == 2 * t;
    hide *;
    calc {
      BitStep(Xor(m, t), g);
      { BitStepIsMulX(Xor(m, t), g); }
      Xor(MulX(Xor(m, t)), g);
      { MulXLinear(m, t); }
      Xor(Xor(MulX(m), 2 * t), g);
      { XorAssoc(MulX(m), 2 * t, g); XorLowBit(t, g); }
      Xor(MulX(m), u);
    }
  }

  /** After k bits the register holds x^k times its start plus the top k bits of the byte. */
  lemma {:induction false} FeedBitsIsMulXPow(a: Residue, c: byte, k: nat)
    requires k <= 8
    ensures FeedBits(a, c, k) == Xor(MulXPow(k, a), Shr(c, 8 - k))
  {
    if k == 0 {
      Pow2Values();
      ShrBound(c, 8, 0);
      XorZero(a);
    } else {
      FeedBitsIsMulXPow(a, c, k - 1);
      FeedOneBit(a, c, k);
    }
  }

  /** A whole byte multiplies the register by x^8 and adds the byte. */
  lemma ByteStepIsMulXPow(a: Residue, c: byte)
    ensures ByteStep(a, c) == Xor(MulXPow(8, a), c)
  {
    FeedBitsIsMulXPow(a, c, 8);
  }

  /** A byte step distributes over a sum of registers: the shifted part moves eight more
      places and the byte joins the other part. */
  lemma ByteStepSplit(rs: Residue, rt: Residue, n: nat, c: byte)
    ensures Xor(MulXPow(n, rs), rt) < 0x10000
    ensures ByteStep(Xor(MulXPow(n, rs), rt), c) == Xor(MulXPow(n + 8, rs), ByteStep(rt, c))
  {
    var m := MulXPow(n, rs);
    XorResidue(m, rt);
    hide *;
    calc {
      ByteStep(Xor(m, rt), c);
      { ByteStepIsMulXPow(Xor(m, rt), c); }
      Xor(MulXPow(8, Xor(m, rt)), c);
      { MulXPowLinear(8, m, rt); }
      Xor(Xor(MulXPow(8, m), MulXPow(8, rt)), c);
      { XorAssoc(MulXPow(8, m), MulXPow(8, rt), c); }
      Xor(MulXPow(8, m), Xor(MulXPow(8, rt), c));
      { ByteStepIsMulXPow(rt, c); MulXPowAdd(8, n, rs); }
      Xor(MulXPow(n + 8, rs), ByteStep(rt, c));
    }
  }

  /** One more byte keeps the register linear in the message: if the register of `s + t`
      splits as that of `s` shifted past `t` plus that of `t`, so does the register of
      `s + t + [c]`. */
  lemma RegisterAppendByte(s: seq<byte>, t: seq<byte>, c: byte)
    requires Register(s + t) == Xor(MulXPow(8 * |t|, Register(s)), Register(t))
    ensures Register(s + t + [c]) == Xor(MulXPow(8 * |t + [c]|, Register(s)), Register(t + [c]))
  {
    assert (s + t + [c])[..|s + t + [c]| - 1] == s + t;
    assert (t + [c])[..|t + [c]| - 1] == t;
    ByteStepSplit(Register(s), Register(t), 8 * |t|, c);
  }

  /** Appending `t` multiplies the register by x^(8|t|) and adds the register of `t` alone:
      the register is linear in the message. */
  lemma {:induction false} RegisterAppend(s: seq<byte>, t: seq<byte>)
    ensures Register(s + t) == Xor(MulXPow(8 * |t|, Register(s)), Register(t))
  {
    if t == [] {
      assert s + t == s;
      XorZero(Register(s));
    } else {
      var t', c := t[..|t| - 1], t[|t| - 1];
      assert t == t' + [c];
      RegisterAppend(s, t');
      RegisterAppendByte(s, t', c);
      assert s + t == s + t' + [c];
    }
  }

  /** Running the register sixteen bits past the end of a message yields its CRC-16/XMODEM:
      the bit-serial division computes the remainder of the message times x^16. */
  lemma {:induction false} RegisterIsXmodem(m: seq<byte>)
    ensures MulXPow(16, Register(m)) == Xmodem(m)
  {
    if m == [] {
      MulXPowZero(16, 0);
    } else {
      var m', c := m[..|m| - 1], m[|m| - 1];
      RegisterIsXmodem(m');
      var r' := Register(m');
      assert Register(m) == ByteStep(r', c);
      assert Xmodem(m) == XmodemByte(Xmodem(m'), c);
      Pow2Values();
      XorBound(MulXPow(16, r'), 256 * (c as nat), 16);
      assert XmodemByte(Xmodem(m'), c) == MulXPow(8, Xor(MulXPow(16, r'), 256 * (c as nat)));
      hide *;
      calc {
        MulXPow(16, ByteStep(r', c));
        { ByteStepIsMulXPow(r', c); }
        MulXPow(16, Xor(MulXPow(8, r'), c));
        { MulXPowLinear(16, MulXPow(8, r'), c); MulXPowAdd(16, 8, r'); }
        Xor(MulXPow(24, r'), MulXPow(16, c));
        { MulXPowAdd(8, 16, r'); MulXPowAdd(8, 8, c); }
        Xor(MulXPow(8, MulXPow(16, r')), MulXPow(8, MulXPow(8, c)));
        { MulXPowLinear(8, MulXPow(16, r'), MulXPow(8, c)); MulXPowOfByte(c); }
        MulXPow(8, Xor(MulXPow(16, r'), 256 * (c as nat)));
      }
    }
  }

  /** Two zero bytes after a message shift the register sixteen places. */
  lemma RegisterOfTwoZeros(m: seq<byte>)
    ensures Register(m + [0, 0]) == MulXPow(16, Register(m))
  {
    RegisterAppend(m, [0, 0]);
    assert Register([0]) == 0 by {
      ByteStepIsMulXPow(0, 0);
      MulXPowZero(8, 0);
      XorZero(0);
    }
    assert Register([0, 0]) == ByteStep(Register([0]), 0);
    ByteStepIsMulXPow(0, 0);
    MulXPowZero(8, 0);
    XorZero(0);
    XorZero(MulXPow(16, Register(m)));
  }

  /** The checksum of a save block is CRC-16/XMODEM of bytes 384 to 6141, the bytes in front
      of the stored checksum, written high byte first. */
  lemma CheckIsXmodem(data: seq<byte>)
    requires |data| >= SAVE_LEN
    ensures Check(data) == BigEndian(Xmodem(data[CHECKED_START..CHECKSUM_OFFSET]))
  {
    RegisterOfTwoZeros(data[CHECKED_START..CHECKSUM_OFFSET]);
    RegisterIsXmodem(data[CHECKED_START..CHECKSUM_OFFSET]);
  }

  /** The register tells apart any two messages that differ in a single byte. */
  lemma RegisterDetectsByteChange(a: seq<byte>, x: byte, y: byte, b: seq<byte>)
    requires x != y
    ensures Register(a + [x] + b) != Register(a + [y] + b)
  {
    var ra := Register(a);
    var m := MulXPow(8, ra);
    assert (a + [x])[..|a|] == a && (a + [y])[..|a|] == a;
    assert Register(a + [x]) == ByteStep(ra, x) && Register(a + [y]) == ByteStep(ra, y);
    ByteStepIsMulXPow(ra, x);
    ByteStepIsMulXPow(ra, y);
    var u, v := Register(a + [x]), Register(a + [y]);
    RegisterAppend(a + [x], b);
    RegisterAppend(a + [y], b);
    hide *;
    var n := 8 * |b|;
    XorCancel(MulXPow(n, u), MulXPow(n, v), Register(b));
    MulXPowInjective(n, u, v);
    XorComm(m, x);
    XorComm(m, y);
    XorCancel(x, y, m);
  }

  /** Changing any one byte in front of the stored checksum changes the checksum. */
  lemma CheckDetectsByteChange(d1: seq<byte>, d2: seq<byte>, p: nat)
    requires |d1| == |d2| >= SAVE_LEN
    requires CHECKED_START <= p < CHECKSUM_OFFSET && d1[p] != d2[p]
    requires forall i | 0 <= i < |d1| && i != p :: d1[i] == d2[i]
    ensures Check(d1) != Check(d2)
  {
    var a := d1[CHECKED_START..p];
    var b := d1[p + 1..CHECKSUM_OFFSET] + [0, 0];
    assert Payload(d1) == a + [d1[p]] + b;
    assert Payload(d2) == a + [d2[p]] + b;
    RegisterDetectsByteChange(a, d1[p], d2[p], b);
  }

  /** The checksum reads only bytes 384 to 6141 of the block. */
  lemma CheckReadsCheckedBytes(d1: seq<byte>, d2: seq<byte>)
    requires |d1| >= SAVE_LEN && |d2| >= SAVE_LEN
    requires d1[CHECKED_START..CHECKSUM_OFFSET] == d2[CHECKED_START..CHECKSUM_OFFSET]
    ensures Check(d1) == Check(d2)
  {
    assert Payload(d1) == Payload(d2);
  }

  /** The divisor pyCTR builds as `65536 | 4129`. */
  lemma PolyIsOr()
    ensures Or(CARRY, 4129) == POLY
  {
    Pow2Values();
    OrAddTop(4129, 16);
  }

  /** One pass of pyCTR's inner loop, written with its own operators, is BitStep. */
  lemma PassIsBitStep(a: Residue, g: nat)
    requires g <= 1
    ensures var s := Or(2 * a, g);
      (if And(s, CARRY) != 0 then Xor(s, POLY) else s) == BitStep(a, g)
  {
    var s := 2 * a + g;
    assert BitStep(a, g) == if s < CARRY then s else Xor(s, POLY) by {
      hide Xor, Pow2, And, Or, Shr;
    }
    Pow2Values();
    OrLowBit(a, g);
    AndTopBit(s, 16);
    hide *;
  }

  /** FeedBits takes one bit at a time. */
  lemma FeedBitsNext(a: Residue, c: byte, k: nat)
    requires k < 8
    ensures FeedBits(a, c, k + 1) == BitStep(FeedBits(a, c, k), Bit(c, 7 - k))
  {
  }

  /** pyCTR's bit counter: `(d + 65535) & 65535` counts 7 down to 0 and then wraps to
      65535, which ends the inner loop. */
  lemma CounterStep(d: nat)
    requires d <= 7
    ensures And(d + 65535, 65535) == if d == 0 then 65535 else d - 1
  {
    Pow2Values();
    AndMaskOf(d + 65535, 16, 65535);
    if d == 0 {
      DivUnique(d + 65535, 65536, 0, 65535);
    } else {
      DivUnique(d + 65535, 65536, 1, d - 1);
    }
  }

  /** The two output bytes `a >> 8` and `a & 255` of a 16-bit register are its big-endian
      bytes. */
  lemma OutputBytes(a: Residue)
    ensures [Shr(a, 8), And(a, 255)] == BigEndian(a)
  {
    Pow2Values();
    ShrIsDiv(a, 8);
    AndMaskOf(a, 8, 255);
  }

  /** The inner `while d < 65535` loop of `Save.check`, statement by statement: the counter
      `d` runs 7, 6, …, 0 and then wraps to 65535, so the byte is fed as eight bits, most
      significant first. */
  method FeedByte(a: Residue, c: byte, e: nat, f: nat) returns (r: nat)
    requires e == CARRY && f == POLY
    ensures r < 0x10000 && r == ByteStep(a, c)
  {
    r := a;
    var d: nat := 7;
    ghost var k := 0;
    while d < 65535
      invariant 0 <= k <= 8
      invariant d == if k < 8 then 7 - k else 65535
      invariant r < 0x10000 && r == FeedBits(a, c, k)
      decreases 8 - k
    {
      ghost var before: Residue := r;
      assert Bit(c, d) == And(Shr(c, d), 1) <= 1;
      PassIsBitStep(before, And(Shr(c, d), 1));
      FeedBitsNext(a, c, k);
      CounterStep(d);
      hide *;
      r := 2 * r;
      var g := Shr(c, d);
      g := And(g, 1);
      r := Or(r, g);
      g := And(r, e);
      if g != 0 {
        r := Xor(r, f);
      }
      d := And(d + 65535, 65535);
      k := k + 1;
    }
  }

  /** The register of one more byte of `s`. */
  lemma RegisterNext(s: seq<byte>, b: nat)
    requires b < |s|
    ensures Register(s[..b + 1]) == ByteStep(Register(s[..b]), s[b])
  {
    assert s[..b + 1][..b] == s[..b];
  }

  /** `Save.check` statement by statement: a private copy of the block, the checksum bytes
      zeroed on every outer pass, every byte fed to the register by the inner loop, and the
      result read back from bytes 6142–6143 of the copy after the register is written there.
      On a buffer shorter than a block Python raises IndexError, here an error result. */
  method CheckLoop(saveData: seq<byte>) returns (r: Result<seq<byte>>)
    ensures r.Err? <==> |saveData| < SAVE_LEN
    ensures r.Err? ==> r.error == IndexOutOfRange
    ensures r.Ok? ==> r.value == Check(saveData)
  {
    if |saveData| < SAVE_LEN {
      return Err(IndexOutOfRange);
    }
    var buf := saveData;
    var a: nat := 0;
    ghost var payload := Payload(saveData);
    for b := 0 to CHECKED_LEN
      invariant |buf| == |saveData|
      invariant forall i | 0 <= i < CHECKSUM_OFFSET :: buf[i] == saveData[i]
      invariant b > 0 ==> buf[CHECKSUM_OFFSET] == 0 && buf[CHECKSUM_OFFSET + 1] == 0
      invariant a < 0x10000 && a == Register(payload[..b])
    {
      var c := buf[b + CHECKED_START];
      assert c == payload[b];
      RegisterNext(payload, b);
      var e := 65536;
      var f := e;
      f := Or(f, 4129);
      PolyIsOr();
      buf := buf[CHECKSUM_OFFSET := 0][CHECKSUM_OFFSET + 1 := 0];
      a := FeedByte(a, c, e, f);
    }
    assert payload[..CHECKED_LEN] == payload;
    OutputBytes(a);
    buf := buf[CHECKSUM_OFFSET := Shr(a, 8)][CHECKSUM_OFFSET + 1 := And(a, 255)];
    return Ok(buf[CHECKSUM_OFFSET..CHECKSUM_OFFSET + 2]);
  }
}
