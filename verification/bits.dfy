/** Python's integer bit operations on unbounded (two's-complement) ints.
    With a positive divisor Dafny's `/` and `%` are floor division and a
    non-negative remainder, which is exactly Python's `>>` and `& (2^k - 1)`. */
module Bits {

  function Pow2(n: nat): (r: nat)
    ensures r >= 1
  {
    if n == 0 then 1 else 2 * Pow2(n - 1)
  }

  lemma Pow2Nibble(n: nat)
    ensures Pow2(4 * (n + 1)) == 16 * Pow2(4 * n)
  {
    assert Pow2(4 * n + 4) == 2 * Pow2(4 * n + 3);
    assert Pow2(4 * n + 3) == 2 * Pow2(4 * n + 2);
    assert Pow2(4 * n + 2) == 2 * Pow2(4 * n + 1);
  }

  lemma Pow2Bytes()
    ensures Pow2(7) == 0x80 && Pow2(8) == 0x100
    ensures Pow2(15) == 0x8000 && Pow2(16) == 0x1_0000
  {
    assert Pow2(4) == 16 by { Pow2Nibble(0); }
    Pow2Nibble(1);
    Pow2Nibble(2);
    Pow2Nibble(3);
    assert Pow2(8) == 2 * Pow2(7);
    assert Pow2(16) == 2 * Pow2(15);
  }

  /** Python's `(x >> k) & 1 == 1`. */
  function TestBit(x: int, k: nat): bool
    decreases k
  {
    if k == 0 then x % 2 == 1 else TestBit(x / 2, k - 1)
  }

  /** Python's `x | (1 << k)` when `on`, and `x & ~(1 << k)` otherwise. */
  function SetBit(x: int, k: nat, on: bool): (r: int)
    ensures TestBit(r, k) == on
    ensures forall j: nat :: j != k ==> TestBit(r, j) == TestBit(x, j)
  {
    SetBitSame(x, k, on);
    SetBitOthers(x, k, on);
    if on then (if TestBit(x, k) then x else x + Pow2(k))
    else (if TestBit(x, k) then x - Pow2(k) else x)
  }

  lemma {:induction false} AddBitSame(x: int, k: nat)
    requires !TestBit(x, k)
    ensures TestBit(x + Pow2(k), k)
    decreases k
  {
    if k > 0 {
      assert (x + Pow2(k)) / 2 == x / 2 + Pow2(k - 1);
      AddBitSame(x / 2, k - 1);
    }
  }

  lemma {:induction false} AddBitOther(x: int, k: nat, j: nat)
    requires !TestBit(x, k) && j != k
    ensures TestBit(x + Pow2(k), j) == TestBit(x, j)
    decreases k
  {
    if k == 0 {
      assert (x + 1) / 2 == x / 2;
    } else {
      assert (x + Pow2(k)) / 2 == x / 2 + Pow2(k - 1);
      if j > 0 {
        AddBitOther(x / 2, k - 1, j - 1);
      }
    }
  }

  lemma {:induction false} SubBitSame(x: int, k: nat)
    requires TestBit(x, k)
    ensures !TestBit(x - Pow2(k), k)
    decreases k
  {
    if k > 0 {
      assert (x - Pow2(k)) / 2 == x / 2 - Pow2(k - 1);
      SubBitSame(x / 2, k - 1);
    }
  }

  lemma {:induction false} SubBitOther(x: int, k: nat, j: nat)
    requires TestBit(x, k) && j != k
    ensures TestBit(x - Pow2(k), j) == TestBit(x, j)
    decreases k
  {
    if k == 0 {
      assert (x - 1) / 2 == x / 2;
    } else {
      assert (x - Pow2(k)) / 2 == x / 2 - Pow2(k - 1);
      if j > 0 {
        SubBitOther(x / 2, k - 1, j - 1);
      }
    }
  }

  lemma SetBitSame(x: int, k: nat, on: bool)
    ensures on && !TestBit(x, k) ==> TestBit(x + Pow2(k), k)
    ensures !on && TestBit(x, k) ==> !TestBit(x - Pow2(k), k)
  {
    if on && !TestBit(x, k) { AddBitSame(x, k); }
    if !on && TestBit(x, k) { SubBitSame(x, k); }
  }

  lemma SetBitOthers(x: int, k: nat, on: bool)
    ensures on && !TestBit(x, k) ==>
      forall j: nat :: j != k ==> TestBit(x + Pow2(k), j) == TestBit(x, j)
    ensures !on && TestBit(x, k) ==>
      forall j: nat :: j != k ==> TestBit(x - Pow2(k), j) == TestBit(x, j)
  {
    if on && !TestBit(x, k) {
      forall j: nat | j != k ensures TestBit(x + Pow2(k), j) == TestBit(x, j) {
        AddBitOther(x, k, j);
      }
    }
    if !on && TestBit(x, k) {
      forall j: nat | j != k ensures TestBit(x - Pow2(k), j) == TestBit(x, j) {
        SubBitOther(x, k, j);
      }
    }
  }

  /** The bitwise connectives the instructions apply. */
  datatype Connective = AndBits | OrBits | XorBits | AndNotBits

  predicate Combine(c: Connective, a: bool, b: bool)
  {
    match c
    case AndBits => a && b
    case OrBits => a || b
    case XorBits => a != b
    case AndNotBits => a && !b
  }

  /** Python's `(x & y)`, `(x | y)`, `(x ^ y)` or `(x & ~y)` on unbounded
      two's-complement ints, kept to its low `n` bits by `& (2^n - 1)`. */
  function Bitwise(c: Connective, x: int, y: int, n: nat): (r: nat)
    ensures r < Pow2(n)
    decreases n
  {
    if n == 0 then 0
    else 2 * Bitwise(c, x / 2, y / 2, n - 1) + (if Combine(c, x % 2 == 1, y % 2 == 1) then 1 else 0)
  }

  lemma {:induction false} ZeroBits(k: nat)
    ensures !TestBit(0, k)
    decreases k
  {
    if k > 0 { ZeroBits(k - 1); }
  }

  /** Bit `k` of the result is the connective applied to bit `k` of each
      operand, below `n`, and clear from `n` up. */
  lemma {:induction false} BitwiseBit(c: Connective, x: int, y: int, n: nat, k: nat)
    ensures TestBit(Bitwise(c, x, y, n), k) == (k < n && Combine(c, TestBit(x, k), TestBit(y, k)))
    decreases n
  {
    var r := Bitwise(c, x, y, n);
    if n == 0 {
      ZeroBits(k);
    } else if k > 0 {
      var r' := Bitwise(c, x / 2, y / 2, n - 1);
      assert r / 2 == r';
      BitwiseBit(c, x / 2, y / 2, n - 1, k - 1);
    }
  }

  /** Bit `k` is set exactly when `x` lies in the upper half of its residue
      class modulo `2^(k+1)`. */
  lemma {:induction false} TestBitResidue(x: int, k: nat)
    ensures TestBit(x, k) <==> x % Pow2(k + 1) >= Pow2(k)
    decreases k
  {
    if k > 0 {
      TestBitResidue(x / 2, k - 1);
      HalveResidue(x, Pow2(k));
    }
  }

  lemma HalveResidue(x: int, p: nat)
    requires p >= 1
    ensures x % (2 * p) == 2 * ((x / 2) % p) + x % 2
  {
    var q, r := x / 2, x % 2;
    var a, b := q / p, q % p;
    assert x == (2 * p) * a + (2 * b + r);
    DivModUnique(x, 2 * p, a, 2 * b + r);
  }

  /** Division with remainder has one answer. */
  lemma DivModUnique(x: int, m: int, a: int, c: int)
    requires m > 0 && 0 <= c < m && x == m * a + c
    ensures x / m == a && x % m == c
  {
    var q, r := x / m, x % m;
    assert m * (q - a) == c - r;
    if q > a {
      MulAtLeast(m, q - a);
    } else if q < a {
      MulAtLeast(m, a - q);
    }
  }

  lemma MulAtLeast(m: int, k: int)
    requires m > 0 && k >= 1
    ensures m * k >= m
  {
  }

  /** Python's `x & (2^k - 1)` for a power of two at most 16 bits wide. */
  lemma LowBitsBound(x: int, k: nat)
    ensures 0 <= x % Pow2(k) < Pow2(k)
  {
  }

  /** The residue modulo `2h` is the residue modulo `h`, plus `h` in the
      upper half; and it differs from `x` by a multiple of `2h`. */
  lemma ResidueSplit(x: int, h: int)
    requires h >= 1
    ensures x % (2 * h) == x % h + (if x % (2 * h) >= h then h else 0)
    ensures (x % (2 * h) - x) % (2 * h) == 0
  {
    var q, r := x / (2 * h), x % (2 * h);
    if r < h {
      DivModUnique(x, h, 2 * q, r);
    } else {
      DivModUnique(x, h, 2 * q + 1, r - h);
    }
    DivModUnique(r - x, 2 * h, -q, 0);
  }

  /** A multiple of `p` strictly between `-p` and `p` is zero. */
  lemma SmallMultiple(d: int, p: int)
    requires p > 0 && d % p == 0 && -p < d < p
    ensures d == 0
  {
    var q := d / p;
    assert d == p * q;
    if q >= 1 { MulAtLeast(p, q); } else if q <= -1 { MulAtLeast(p, -q); }
  }

  /** Adding or removing one `p` keeps a multiple of `p` a multiple. */
  lemma ShiftMultiple(d: int, p: int)
    requires p > 0 && d % p == 0
    ensures (d + p) % p == 0 && (d - p) % p == 0
  {
    DivModUnique(d + p, p, d / p + 1, 0);
    DivModUnique(d - p, p, d / p - 1, 0);
  }

  /** One step of `Bitwise`: its result halves to the result on the halved
      operands, and its low bit is the connective on the low bits. */
  lemma BitwiseStep(c: Connective, x: int, y: int, n: nat)
    requires n > 0
    ensures Bitwise(c, x, y, n) / 2 == Bitwise(c, x / 2, y / 2, n - 1)
    ensures Bitwise(c, x, y, n) % 2 == (if Combine(c, x % 2 == 1, y % 2 == 1) then 1 else 0)
  {
    var b := if Combine(c, x % 2 == 1, y % 2 == 1) then 1 else 0;
    DivModUnique(Bitwise(c, x, y, n), 2, Bitwise(c, x / 2, y / 2, n - 1), b);
  }

  /** Applying `c1` and then `c2` with the same second operand is applying
      `c3`, whenever the connectives compose that way on single bits. */
  lemma {:induction false} ComposeBitwise(c1: Connective, c2: Connective, c3: Connective, x: int, y: int, n: nat)
    requires forall a: bool, b: bool :: Combine(c2, Combine(c1, a, b), b) == Combine(c3, a, b)
    ensures Bitwise(c2, Bitwise(c1, x, y, n), y, n) == Bitwise(c3, x, y, n)
    decreases n
  {
    if n > 0 {
      BitwiseStep(c1, x, y, n);
      ComposeBitwise(c1, c2, c3, x / 2, y / 2, n - 1);
    }
  }

  /** `x ^ y ^ y` is `x`, to `n` bits. */
  lemma {:induction false} XorTwice(x: int, y: int, n: nat)
    ensures Bitwise(XorBits, Bitwise(XorBits, x, y, n), y, n) == x % Pow2(n)
    decreases n
  {
    if n > 0 {
      BitwiseStep(XorBits, x, y, n);
      XorTwice(x / 2, y / 2, n - 1);
      HalveResidue(x, Pow2(n - 1));
    }
  }

  /** A symmetric connective gives the same result with its operands
      exchanged. */
  lemma {:induction false} CommuteBitwise(c: Connective, x: int, y: int, n: nat)
    requires forall a: bool, b: bool :: Combine(c, a, b) == Combine(c, b, a)
    ensures Bitwise(c, x, y, n) == Bitwise(c, y, x, n)
    decreases n
  {
    if n > 0 {
      CommuteBitwise(c, x / 2, y / 2, n - 1);
    }
  }

  lemma DivPow2Step(x: int, m: nat)
    requires m > 0
    ensures x / 2 / Pow2(m - 1) == x / Pow2(m)
  {
    var p := Pow2(m - 1);
    var q, r := (x / 2) / p, (x / 2) % p;
    assert x == (2 * p) * q + (2 * r + x % 2);
    DivModUnique(x, 2 * p, q, 2 * r + x % 2);
  }

  lemma DoubleProduct(a: int, b: int)
    ensures 2 * (a * b) == (2 * a) * b
  {
  }

  /** The low `m` bits of a bitwise result, and the `n` bits above them. */
  lemma {:induction false} BitwiseSplit(c: Connective, x: int, y: int, m: nat, n: nat)
    ensures Bitwise(c, x, y, m + n) == Bitwise(c, x, y, m) + Pow2(m) * Bitwise(c, x / Pow2(m), y / Pow2(m), n)
    decreases m
  {
    if m > 0 {
      var b := if Combine(c, x % 2 == 1, y % 2 == 1) then 1 else 0;
      var high := Bitwise(c, x / Pow2(m), y / Pow2(m), n);
      var low := Bitwise(c, x / 2, y / 2, m - 1);
      BitwiseSplit(c, x / 2, y / 2, m - 1, n);
      DivPow2Step(x, m);
      DivPow2Step(y, m);
      assert Bitwise(c, x / 2, y / 2, (m - 1) + n) == low + Pow2(m - 1) * high;
      assert Bitwise(c, x, y, m + n) == 2 * Bitwise(c, x / 2, y / 2, (m - 1) + n) + b;
      assert Bitwise(c, x, y, m) == 2 * low + b;
      DoubleProduct(Pow2(m - 1), high);
    }
  }

  /** `x | y` where `y` has no low bits keeps the low bits of `x`. */
  lemma {:induction false} OrLowZero(x: int, y: int, n: nat)
    requires y % Pow2(n) == 0
    ensures Bitwise(OrBits, x, y, n) == x % Pow2(n)
    decreases n
  {
    if n > 0 {
      HalveResidue(y, Pow2(n - 1));
      HalveResidue(x, Pow2(n - 1));
      OrLowZero(x / 2, y / 2, n - 1);
    }
  }

  /** `x | y` where `y` has all low bits set has all low bits set. */
  lemma {:induction false} OrAllOnes(x: int, y: int, n: nat)
    requires y % Pow2(n) == Pow2(n) - 1
    ensures Bitwise(OrBits, x, y, n) == Pow2(n) - 1
    decreases n
  {
    if n > 0 {
      HalveResidue(y, Pow2(n - 1));
      OrAllOnes(x / 2, y / 2, n - 1);
    }
  }

  /** Setting two different bits, in either order, gives the same value. */
  lemma SetBitCommutes(x: int, j: nat, k: nat, a: bool, b: bool)
    requires j != k
    ensures SetBit(SetBit(x, j, a), k, b) == SetBit(SetBit(x, k, b), j, a)
  {
  }
}
