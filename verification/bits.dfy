/** Python's bitwise operators on non-negative integers, defined one bit at a time, and the
    algebra of XOR that the checksum proofs rely on. */
module Bits {

  function Pow2(n: nat): (r: nat)
    ensures r >= 1
  {
    if n == 0 then 1 else 2 * Pow2(n - 1)
  }

  /** `x >> n`. */
  function Shr(x: nat, n: nat): (r: nat)
    ensures r <= x
  {
    if n == 0 then x else Shr(x, n - 1) / 2
  }

  /** `x & y`. */
  function And(x: nat, y: nat): (r: nat)
    decreases x + y
  {
    if x == 0 || y == 0 then 0
    else 2 * And(x / 2, y / 2) + (if x % 2 == 1 && y % 2 == 1 then 1 else 0)
  }

  /** `x | y`. */
  function Or(x: nat, y: nat): (r: nat)
    decreases x + y
  {
    if x == 0 then y
    else if y == 0 then x
    else 2 * Or(x / 2, y / 2) + (if x % 2 == 1 || y % 2 == 1 then 1 else 0)
  }

  /** `x ^ y`. */
  function Xor(x: nat, y: nat): (r: nat)
    decreases x + y
  {
    if x == 0 && y == 0 then 0
    else 2 * Xor(x / 2, y / 2) + (if x % 2 == y % 2 then 0 else 1)
  }

  lemma Pow2Values()
    ensures Pow2(8) == 0x100 && Pow2(15) == 0x8000 && Pow2(16) == 0x10000
  {
    assert Pow2(4) == 16;
    assert Pow2(8) == 0x100;
    assert Pow2(12) == 0x1000;
  }

  /** `x & 1` is the lowest bit. */
  lemma AndOne(x: nat)
    ensures And(x, 1) == x % 2
  {
  }

  /** Setting bit 0 of an even number adds it. */
  lemma OrLowBit(x: nat, g: nat)
    requires g <= 1
    ensures Or(2 * x, g) == 2 * x + g
  {
    if x != 0 && g != 0 {
      assert Or(2 * x, g) == 2 * Or(x, 0) + 1;
    }
  }

  /** The recursive step of And, with the halves and low bits named by the caller. */
  lemma AndStep(x: nat, y: nat, hx: nat, hy: nat, lx: nat, ly: nat)
    requires hx == x / 2 && hy == y / 2 && lx == x % 2 && ly == y % 2
    ensures And(x, y) == 2 * And(hx, hy) + (if lx == 1 && ly == 1 then 1 else 0)
  {
  }

  /** The recursive step of Or on two non-zero operands, with the halves and low bits named by
      the caller. */
  lemma OrStep(x: nat, y: nat, hx: nat, hy: nat, lx: nat, ly: nat)
    requires x != 0 && y != 0
    requires hx == x / 2 && hy == y / 2 && lx == x % 2 && ly == y % 2
    ensures Or(x, y) == 2 * Or(hx, hy) + (if lx == 1 || ly == 1 then 1 else 0)
  {
  }

  /** The recursive step of Xor, with the halves and low bits named by the caller. */
  lemma XorStep(x: nat, y: nat, hx: nat, hy: nat, lx: nat, ly: nat)
    requires hx == x / 2 && hy == y / 2 && lx == x % 2 && ly == y % 2
    ensures Xor(x, y) == 2 * Xor(hx, hy) + (if lx == ly then 0 else 1)
  {
  }

  /** Below 2^(n+1), masking with 2^n keeps exactly the top bit. */
  lemma {:induction false} AndTopBit(s: nat, n: nat)
    requires s < 2 * Pow2(n)
    ensures And(s, Pow2(n)) == if s >= Pow2(n) then Pow2(n) else 0
  {
    if n == 0 {
      AndOne(s);
    } else {
      var p := Pow2(n - 1);
      AndTopBit(s / 2, n - 1);
      hide And;
      AndStep(s, 2 * p, s / 2, p, s % 2, 0);
    }
  }

  /** XOR of two numbers below 2^n stays below 2^n. */
  lemma {:induction false} XorBound(x: nat, y: nat, n: nat)
    requires x < Pow2(n) && y < Pow2(n)
    ensures Xor(x, y) < Pow2(n)
  {
    if n != 0 {
      XorBound(x / 2, y / 2, n - 1);
      hide Xor;
      XorStep(x, y, x / 2, y / 2, x % 2, y % 2);
    }
  }

  lemma {:induction false} XorZero(x: nat)
    ensures Xor(x, 0) == x
  {
    if x != 0 {
      XorZero(x / 2);
      hide Xor;
      XorStep(x, 0, x / 2, 0, x % 2, 0);
    }
  }

  lemma {:induction false} XorSelf(x: nat)
    ensures Xor(x, x) == 0
  {
    if x != 0 {
      XorSelf(x / 2);
      hide Xor;
      XorStep(x, x, x / 2, x / 2, x % 2, x % 2);
    }
  }

  lemma {:induction false} XorComm(x: nat, y: nat)
    ensures Xor(x, y) == Xor(y, x)
    decreases x + y
  {
    if x != 0 || y != 0 {
      XorComm(x / 2, y / 2);
      hide Xor;
      XorStep(x, y, x / 2, y / 2, x % 2, y % 2);
      XorStep(y, x, y / 2, x / 2, y % 2, x % 2);
    }
  }

  lemma {:induction false} XorAssoc(x: nat, y: nat, z: nat)
    ensures Xor(Xor(x, y), z) == Xor(x, Xor(y, z))
    decreases x + y + z
  {
    if x != 0 || y != 0 || z != 0 {
      var xy, yz := Xor(x, y), Xor(y, z);
      XorAssoc(x / 2, y / 2, z / 2);
      hide Xor;
      XorStep(x, y, x / 2, y / 2, x % 2, y % 2);
      XorStep(y, z, y / 2, z / 2, y % 2, z % 2);
      var hxy, hyz := Xor(x / 2, y / 2), Xor(y / 2, z / 2);
      XorStep(xy, z, hxy, z / 2, xy % 2, z % 2);
      XorStep(x, yz, x / 2, hyz, x % 2, yz % 2);
    }
  }

  /** Doubling distributes over XOR. */
  lemma XorDouble(x: nat, y: nat)
    ensures Xor(2 * x, 2 * y) == 2 * Xor(x, y)
  {
    hide Xor;
    XorStep(2 * x, 2 * y, x, y, 0, 0);
  }

  /** XOR with a single low bit into an even number sets that bit. */
  lemma XorLowBit(x: nat, g: nat)
    requires g <= 1
    ensures Xor(2 * x, g) == 2 * x + g
  {
    XorZero(x);
    hide Xor;
    XorStep(2 * x, g, x, 0, 0, g);
  }

  /** XOR with a power of two above the other operand adds it. */
  lemma {:induction false} XorAddTop(x: nat, n: nat)
    requires x < Pow2(n)
    ensures Xor(Pow2(n), x) == Pow2(n) + x
  {
    if n == 0 {
      assert Xor(1, 0) == 2 * Xor(0, 0) + 1;
    } else {
      var p := Pow2(n - 1);
      XorAddTop(x / 2, n - 1);
      hide *;
      XorStep(2 * p, x, p, x / 2, 0, x % 2);
    }
  }

  /** A top bit set in only the first operand survives. */
  lemma XorKeepTop(x: nat, y: nat, n: nat)
    requires x < Pow2(n) && y < Pow2(n)
    ensures Xor(Pow2(n) + x, y) == Pow2(n) + Xor(x, y)
  {
    XorAddTop(x, n);
    XorBound(x, y, n);
    XorAddTop(Xor(x, y), n);
    hide *;
    XorAssoc(Pow2(n), x, y);
  }

  /** A top bit set in both operands cancels. */
  lemma XorCancelTop(x: nat, y: nat, n: nat)
    requires x < Pow2(n) && y < Pow2(n)
    ensures Xor(Pow2(n) + x, Pow2(n) + y) == Xor(x, y)
  {
    var p := Pow2(n);
    XorAddTop(x, n);
    XorAddTop(y, n);
    hide *;
    calc {
      Xor(Xor(p, x), Xor(p, y));
      { XorAssoc(p, x, Xor(p, y)); }
      Xor(p, Xor(x, Xor(p, y)));
      { XorAssoc(x, p, y); XorComm(x, p); XorAssoc(p, x, y); }
      Xor(p, Xor(p, Xor(x, y)));
      { XorAssoc(p, p, Xor(x, y)); XorSelf(p); }
      Xor(0, Xor(x, y));
      { XorComm(0, Xor(x, y)); XorZero(Xor(x, y)); }
      Xor(x, y);
    }
  }

  /** The last two operands of a chain of XORs may be exchanged. */
  lemma XorSwap(x: nat, y: nat, z: nat)
    ensures Xor(Xor(x, y), z) == Xor(Xor(x, z), y)
  {
    hide *;
    XorAssoc(x, y, z);
    XorComm(y, z);
    XorAssoc(x, z, y);
  }

  /** A common term XORed into both operands cancels. */
  lemma XorPairCancel(x: nat, y: nat, p: nat)
    ensures Xor(Xor(x, p), Xor(y, p)) == Xor(x, y)
  {
    hide *;
    calc {
      Xor(Xor(x, p), Xor(y, p));
      { XorAssoc(x, p, Xor(y, p)); }
      Xor(x, Xor(p, Xor(y, p)));
      { XorComm(y, p); XorAssoc(p, p, y); XorSelf(p); XorComm(0, y); XorZero(y); }
      Xor(x, y);
    }
  }

  /** Shifting right by j divides the bound by 2^j. */
  lemma {:induction false} ShrBound(x: nat, j: nat, m: nat)
    requires x < Pow2(m + j)
    ensures Shr(x, j) < Pow2(m)
  {
    if j > 0 {
      ShrBound(x, j - 1, m + 1);
    }
  }

  /** OR with a power of two above the other operand adds it. */
  lemma {:induction false} OrAddTop(x: nat, n: nat)
    requires x < Pow2(n)
    ensures Or(Pow2(n), x) == Pow2(n) + x
  {
    if n > 0 && x != 0 {
      OrAddTop(x / 2, n - 1);
      hide *;
      OrStep(Pow2(n), x, Pow2(n - 1), x / 2, 0, x % 2);
    }
  }

  lemma {:induction false} Pow2Mono(m: nat, n: nat)
    requires m <= n
    ensures Pow2(m) <= Pow2(n)
  {
    if m < n {
      Pow2Mono(m, n - 1);
    }
  }

  /** A positive multiple of d is at least d. */
  lemma MulGe(k: int, d: int)
    requires k >= 1 && d > 0
    ensures k * d >= d
  {
    var j := k - 1;
    assert k * d == j * d + d;
  }

  /** Quotient and remainder are determined by x == q * d + r with 0 <= r < d. */
  lemma DivUnique(x: int, d: int, q: int, r: int)
    requires d > 0 && 0 <= r < d && x == q * d + r
    ensures x / d == q && x % d == r
  {
    var q0, r0 := x / d, x % d;
    assert x == q0 * d + r0;
    var k := q - q0;
    assert k * d == r0 - r;
    if k >= 1 {
      MulGe(k, d);
    } else if k <= -1 {
      assert (-k) * d == -(k * d);
      MulGe(-k, d);
    }
  }

  /** Halving after dividing by p divides by 2 * p. */
  lemma DivDiv(x: nat, p: nat)
    requires p >= 1
    ensures x / p / 2 == x / (2 * p)
  {
    var q, r := x / p, x % p;
    var q2, r2 := q / 2, q % 2;
    assert x == q * p + r;
    assert q * p == q2 * (2 * p) + r2 * p;
    assert r2 * p + r < 2 * p;
    DivUnique(x, 2 * p, q2, r2 * p + r);
  }

  /** The remainder modulo 2 * p is twice the remainder of x / 2 modulo p plus the lowest bit. */
  lemma ModDouble(x: nat, p: nat, p2: nat)
    requires p >= 1 && p2 == 2 * p
    ensures x % p2 == 2 * ((x / 2) % p) + x % 2
  {
    var h := x / 2;
    var q, r := h / p, h % p;
    assert h == q * p + r;
    assert x == q * p2 + (2 * r + x % 2);
    DivUnique(x, p2, q, 2 * r + x % 2);
  }

  /** `x >> n` is `x // 2**n`. */
  lemma {:induction false} ShrIsDiv(x: nat, n: nat)
    ensures Shr(x, n) == x / Pow2(n)
  {
    if n > 0 {
      ShrIsDiv(x, n - 1);
      DivDiv(x, Pow2(n - 1));
    }
  }

  /** `x & (2**n - 1)` is `x % 2**n`. */
  lemma {:induction false} AndMask(x: nat, n: nat)
    ensures And(x, Pow2(n) - 1) == x % Pow2(n)
  {
    if n > 0 && x != 0 {
      var p := Pow2(n - 1);
      assert Pow2(n) == 2 * p;
      AndMask(x / 2, n - 1);
      ModDouble(x, p, Pow2(n));
      hide *;
      AndStep(x, Pow2(n) - 1, x / 2, p - 1, x % 2, 1);
    }
  }

  /** `x & m` is `x % (m + 1)` when m + 1 is a power of two. */
  lemma AndMaskOf(x: nat, n: nat, m: nat)
    requires m == Pow2(n) - 1
    ensures And(x, m) == x % (m + 1)
  {
    AndMask(x, n);
  }

  /** XOR by the same value is injective: `x ^ z == y ^ z` only when `x == y`. */
  lemma XorCancel(x: nat, y: nat, z: nat)
    ensures Xor(x, z) == Xor(y, z) <==> x == y
  {
    hide *;
    XorAssoc(x, z, z);
    XorAssoc(y, z, z);
    XorSelf(z);
    XorZero(x);
    XorZero(y);
  }
}
