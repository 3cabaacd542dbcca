/** The transfer functions `op_*` of msp430.py's `MSP430_emulator`. Each
    takes its operands, the `byte_op` flag and, where it reads it, the
    carry, and yields its result together with the writes it makes to the
    flags C, V, Z and N of the status register. `ApplyFlags` performs those
    writes on SR. */
module Alu {
  import Bits
  import Catalog
  import opened Results
  import opened RegisterFile

  /** The value an operation gives each flag; None leaves the flag alone. */
  datatype FlagWrites = FlagWrites(c: Option<bool>, v: Option<bool>, z: Option<bool>, n: Option<bool>)

  datatype Outcome = Outcome(result: int, flags: FlagWrites)

  /** An operation that sets all four flags. */
  function AllFour(c: bool, v: bool, z: bool, n: bool): FlagWrites
  {
    FlagWrites(Some(c), Some(v), Some(z), Some(n))
  }

  /** An operation that leaves SR untouched. */
  const NoWrites := FlagWrites(None, None, None, None)

  /** One `set_flag_by_name` call, or none. */
  function Write1(sr: int, k: nat, w: Option<bool>): int
  {
    match w
    case None => sr
    case Some(b) => Bits.SetBit(sr, k, b)
  }

  /** SR after the writes, made in the order C, V, Z, N. */
  function ApplyFlags(sr: int, f: FlagWrites): int
  {
    Write1(Write1(Write1(Write1(sr, FlagC, f.c), FlagV, f.v), FlagZ, f.z), FlagN, f.n)
  }

  /** The value a flag has after a write: the written one, else the old
      one. */
  predicate After(before: bool, w: Option<bool>)
  {
    if w.Some? then w.value else before
  }

  lemma Write1Bit(sr: int, k: nat, w: Option<bool>, j: nat)
    ensures Bits.TestBit(Write1(sr, k, w), j) == if j == k then After(Bits.TestBit(sr, j), w) else Bits.TestBit(sr, j)
  {
  }

  /** Each of the four flags ends up as written or as it was; every other
      bit of SR is unchanged. */
  lemma ApplyFlagsBits(sr: int, f: FlagWrites, j: nat)
    ensures Bits.TestBit(ApplyFlags(sr, f), j) ==
      if j == FlagC then After(Bits.TestBit(sr, j), f.c)
      else if j == FlagV then After(Bits.TestBit(sr, j), f.v)
      else if j == FlagZ then After(Bits.TestBit(sr, j), f.z)
      else if j == FlagN then After(Bits.TestBit(sr, j), f.n)
      else Bits.TestBit(sr, j)
  {
    var s1 := Write1(sr, FlagC, f.c);
    var s2 := Write1(s1, FlagV, f.v);
    var s3 := Write1(s2, FlagZ, f.z);
    Write1Bit(sr, FlagC, f.c, j);
    Write1Bit(s1, FlagV, f.v, j);
    Write1Bit(s2, FlagZ, f.z, j);
    Write1Bit(s3, FlagN, f.n, j);
  }

  /** One flag write made through `set_flag_by_name`. */
  function WriteByName(r: Result<Regs>, name: string, w: Option<bool>): Result<Regs>
  {
    match w
    case None => r
    case Some(b) => if r.Ok? then SetFlagByName(r.value, name, b) else r
  }

  /** A write made by a name that stands for bit `k` is a write of bit
      `k` of SR. */
  lemma WriteByNameStep(r: Regs, name: string, k: nat, w: Option<bool>)
    requires FlagIndex(name) == Some(k)
    ensures WriteByName(Ok(r), name, w) == Ok(r[SR := Write1(r[SR], k, w)])
  {
    if w.Some? {
      assert SetFlag(r, k, w.value) == r[SR := Write1(r[SR], k, w)];
    } else {
      assert r[SR := r[SR]] == r;
    }
  }

  /** The operations' `set_flag_by_name` calls reach the register file
      whose SR is `ApplyFlags` of the writes and whose other registers are
      unchanged: the four names are in `FL_BITS`. */
  lemma ApplyFlagsByName(r: Regs, f: FlagWrites)
    ensures WriteByName(WriteByName(WriteByName(WriteByName(Ok(r), "C", f.c), "V", f.v), "Z", f.z), "N", f.n)
      == Ok(r[SR := ApplyFlags(r[SR], f)])
  {
    FlagPositions();
    var s1 := Write1(r[SR], FlagC, f.c);
    var s2 := Write1(s1, FlagV, f.v);
    var s3 := Write1(s2, FlagZ, f.z);
    WriteByNameStep(r, "C", FlagC, f.c);
    WriteByNameStep(r[SR := s1], "V", FlagV, f.v);
    assert r[SR := s1][SR := s2] == r[SR := s2];
    WriteByNameStep(r[SR := s2], "Z", FlagZ, f.z);
    assert r[SR := s2][SR := s3] == r[SR := s3];
    WriteByNameStep(r[SR := s3], "N", FlagN, f.n);
    assert r[SR := s3][SR := ApplyFlags(r[SR], f)] == r[SR := ApplyFlags(r[SR], f)];
  }

  lemma Write1Commutes(sr: int, j: nat, k: nat, a: Option<bool>, b: Option<bool>)
    requires j != k
    ensures Write1(Write1(sr, j, a), k, b) == Write1(Write1(sr, k, b), j, a)
  {
    if a.Some? && b.Some? {
      Bits.SetBitCommutes(sr, j, k, a.value, b.value);
    }
  }

  /** `op_add` writes its flags in the order N, Z, C, V; the four are
      distinct bits, so SR ends the same as with `ApplyFlags`. */
  lemma WriteOrderIrrelevant(sr: int, f: FlagWrites)
    ensures Write1(Write1(Write1(Write1(sr, FlagN, f.n), FlagZ, f.z), FlagC, f.c), FlagV, f.v) == ApplyFlags(sr, f)
  {
    // N Z C V -> N C Z V -> C N Z V -> C N V Z -> C V N Z -> C V Z N
    var n := Write1(sr, FlagN, f.n);
    Write1Commutes(n, FlagZ, FlagC, f.z, f.c);
    Write1Commutes(sr, FlagN, FlagC, f.n, f.c);
    var cn := Write1(Write1(sr, FlagC, f.c), FlagN, f.n);
    Write1Commutes(cn, FlagZ, FlagV, f.z, f.v);
    var c := Write1(sr, FlagC, f.c);
    Write1Commutes(c, FlagN, FlagV, f.n, f.v);
    var cv := Write1(c, FlagV, f.v);
    Write1Commutes(cv, FlagN, FlagZ, f.n, f.z);
  }

  /** Operand width in bits: 8 for `.B`, 16 for a word. */
  function Width(bw: bool): nat
  {
    if bw then 8 else 16
  }

  /** `(0x00ff if byte_op else 0xffff) + 1`. */
  function Size(bw: bool): (s: nat)
    ensures s == 2 * SignMask(bw)
  {
    if bw then 0x100 else 0x1_0000
  }

  /** `0x0080 if byte_op else 0x8000`. */
  function SignMask(bw: bool): (m: nat)
    ensures m > 0
  {
    if bw then 0x80 else 0x8000
  }

  /** Both masks are the powers of two of the width. */
  lemma SizePowers(bw: bool)
    ensures Size(bw) == Bits.Pow2(Width(bw)) && SignMask(bw) == Bits.Pow2(Width(bw) - 1)
  {
    Bits.Pow2Bytes();
  }

  /** `x & (0x00ff if byte_op else 0xffff)`. */
  function Truncate(x: int, bw: bool): (t: nat)
    ensures t < Size(bw) && (t - x) % Size(bw) == 0
  {
    Bits.ResidueSplit(x, SignMask(bw));
    x % Size(bw)
  }

  /** `(x & mask) != 0` with `mask` the sign bit of the width. */
  predicate Negative(x: int, bw: bool)
  {
    Bits.TestBit(x, Width(bw) - 1)
  }

  /** A value of the width is negative exactly from the sign mask up. */
  lemma NegativeIffHigh(x: int, bw: bool)
    requires 0 <= x < Size(bw)
    ensures Negative(x, bw) <==> x >= SignMask(bw)
  {
    SizePowers(bw);
    Bits.TestBitResidue(x, Width(bw) - 1);
  }

  /** The width `decode_signed` is called with in the flag tests. */
  const WordBits: nat := 16

  /** `decode_signed(x, 16)`. */
  function Signed16(x: int): int
  {
    Catalog.DecodeSigned(x, WordBits)
  }

  /** The overflow rule of the add/subtract family: two addends of one
      sign whose sum shows the other sign (zero counts as neither). */
  predicate SignsFlip(a: int, b: int, sum: int)
  {
    (a < 0 && b < 0 && sum > 0) || (a > 0 && b > 0 && sum < 0)
  }

  /** `1 if regs.get_flag_by_name("C") else 0`. */
  function CarryIn(carry: bool): nat
  {
    if carry then 1 else 0
  }

  // ---- single-operand instructions ----

  /** `op_rrc`: rotate right through the carry. */
  function Rrc(x: int, bw: bool, carry: bool): (o: Outcome)
    ensures o.flags == AllFour(x % 2 == 1, false, o.result == 0, Negative(o.result, bw))
  {
    var shifted := x / 2;
    var v := if carry then Bits.SetBit(shifted, Width(bw) - 1, true) else shifted;
    Outcome(v, AllFour(x % 2 == 1, false, v == 0, Negative(v, bw)))
  }

  /** A value below the sign position has the sign bit clear, so setting
      it adds the sign mask. */
  lemma SetSignBit(x: int, bw: bool)
    requires 0 <= x < SignMask(bw)
    ensures Bits.SetBit(x, Width(bw) - 1, true) == x + SignMask(bw)
    ensures !Negative(x, bw)
  {
    SizePowers(bw);
    Bits.TestBitResidue(x, Width(bw) - 1);
  }

  /** On a value of the operand width, `rrc` rotates the carry and the
      value together, `w + 1` bits, one place to the right: the old carry
      enters at the top and bit 0 leaves into C. */
  lemma RrcRotates(x: int, bw: bool, carry: bool)
    requires 0 <= x < Size(bw)
    ensures var o := Rrc(x, bw, carry);
      && 0 <= o.result < Size(bw)
      && CarryIn(o.flags.c.value) * Size(bw) + o.result == (CarryIn(carry) * Size(bw) + x) / 2 + (x % 2) * Size(bw)
  {
    var m := SignMask(bw);
    assert x / 2 < m;
    if carry {
      SetSignBit(x / 2, bw);
      assert (Size(bw) + x) / 2 == m + x / 2;
    }
  }

  /** `op_rra`: shift right, copying the sign bit. */
  function Rra(x: int, bw: bool): (o: Outcome)
    ensures o.flags == AllFour(x % 2 == 1, false, o.result == 0, Negative(o.result, bw))
  {
    var v := if Negative(x, bw) then Bits.SetBit(x / 2, Width(bw) - 1, true) else x / 2;
    Outcome(v, AllFour(x % 2 == 1, false, v == 0, Negative(v, bw)))
  }

  /** On a value of the operand width, `rra` halves its two's-complement
      reading, rounding down, and stays within the width. */
  lemma RraHalves(x: int, bw: bool)
    requires 0 <= x < Size(bw)
    ensures var o := Rra(x, bw);
      && 0 <= o.result < Size(bw)
      && Catalog.DecodeSigned(o.result, Width(bw)) == Catalog.DecodeSigned(x, Width(bw)) / 2
  {
    var m, w := SignMask(bw), Width(bw);
    var o := Rra(x, bw);
    SizePowers(bw);
    NegativeIffHigh(x, bw);
    Catalog.DecodeSignedRange(x, w);
    if x >= m {
      SetSignBit(x / 2, bw);
      Catalog.DecodeSignedRange(o.result, w);
      assert (x - 2 * m) / 2 == x / 2 - m;
    } else {
      Catalog.DecodeSignedRange(o.result, w);
    }
  }

  /** `op_swpb`: `((x << 8) & 0xff00) + (x >> 8)`. The low byte of `x << 8`
      is zero, so masking it with 0xff00 keeps what masking with 0xffff
      keeps. SR is not touched. */
  function Swpb(x: int): (o: Outcome)
    ensures o.flags == NoWrites
  {
    Outcome((x * 0x100) % 0x1_0000 + x / 0x100, NoWrites)
  }

  /** On a 16-bit value `swpb` exchanges the two bytes, so applying it
      twice gives the value back. */
  lemma SwpbSwaps(x: int)
    requires 0 <= x < 0x1_0000
    ensures var y := Swpb(x).result;
      0 <= y < 0x1_0000 && y / 0x100 == x % 0x100 && y % 0x100 == x / 0x100
    ensures Swpb(Swpb(x).result).result == x
  {
    var lo, hi := x % 0x100, x / 0x100;
    assert x * 0x100 == 0x1_0000 * hi + lo * 0x100;
    Bits.DivModUnique(x * 0x100, 0x1_0000, hi, lo * 0x100);
    var y := lo * 0x100 + hi;
    Bits.DivModUnique(y, 0x100, lo, hi);
    assert y * 0x100 == 0x1_0000 * lo + hi * 0x100;
    Bits.DivModUnique(y * 0x100, 0x1_0000, lo, hi * 0x100);
  }

  /** Python's `x | 0xff00` on an unbounded int: bits 8 to 15 set, every
      other bit as in `x`. */
  function OrHighByte(x: int): int
  {
    x - x % 0x1_0000 + Bits.Bitwise(Bits.OrBits, x, 0xff00, 16)
  }

  /** `op_sxt`: extend bit 7 over the high byte. */
  function Sxt(x: int): (o: Outcome)
    ensures o.flags == AllFour(o.result != 0, false, o.result == 0, Bits.TestBit(o.result, 7))
  {
    var d := if !Bits.TestBit(x, 7) then x % 0x100 else OrHighByte(x);
    Outcome(d, AllFour(d != 0, false, d == 0, Bits.TestBit(d, 7)))
  }

  /** `x | 0xff00` kept to 16 bits is 0xff00 plus the low byte of `x`. */
  lemma OrHighByteBits(x: int)
    ensures Bits.Bitwise(Bits.OrBits, x, 0xff00, 16) == 0xff00 + x % 0x100
  {
    Bits.Pow2Bytes();
    Bits.BitwiseSplit(Bits.OrBits, x, 0xff00, 8, 8);
    Bits.OrLowZero(x, 0xff00, 8);
    Bits.OrAllOnes(x / 0x100, 0xff, 8);
  }

  /** On a 16-bit value `sxt` is sign extension: the result read as a
      signed word equals the low byte read as a signed byte. */
  lemma SxtExtends(x: int)
    requires 0 <= x < 0x1_0000
    ensures var d := Sxt(x).result;
      0 <= d < 0x1_0000 && Catalog.DecodeSigned(d, 16) == Catalog.DecodeSigned(x % 0x100, 8)
  {
    if Bits.TestBit(x, 7) {
      SxtNegative(x);
    } else {
      SxtPositive(x);
    }
  }

  lemma SxtNegative(x: int)
    requires 0 <= x < 0x1_0000 && Bits.TestBit(x, 7)
    ensures var d := Sxt(x).result;
      0 <= d < 0x1_0000 && Catalog.DecodeSigned(d, 16) == Catalog.DecodeSigned(x % 0x100, 8)
  {
    Bits.Pow2Bytes();
    var b := x % 0x100;
    Bits.TestBitResidue(x, 7);
    Catalog.DecodeSignedRange(b, 8);
    var y := OrHighByte(x);
    assert y == 0xff00 + b by {
      OrHighByteBits(x);
      Bits.DivModUnique(x, 0x1_0000, 0, x);
    }
    Catalog.DecodeSignedRange(y, 16);
  }

  lemma SxtPositive(x: int)
    requires 0 <= x < 0x1_0000 && !Bits.TestBit(x, 7)
    ensures var d := Sxt(x).result;
      0 <= d < 0x1_0000 && Catalog.DecodeSigned(d, 16) == Catalog.DecodeSigned(x % 0x100, 8)
  {
    Bits.Pow2Bytes();
    var b := x % 0x100;
    Bits.TestBitResidue(x, 7);
    Catalog.DecodeSignedRange(b, 8);
    Catalog.DecodeSignedRange(b, 16);
  }

  // ---- two-operand instructions ----

  /** `op_mov`: the source kept to the width; SR untouched. */
  function Mov(src: int, dst: int, bw: bool): (o: Outcome)
    ensures o.flags == NoWrites
    ensures 0 <= o.result < Size(bw) && (o.result - src) % Size(bw) == 0
  {
    Outcome(Truncate(src, bw), NoWrites)
  }

  /** A source that already fits the width is moved unchanged. */
  lemma MovKeeps(src: int, dst: int, bw: bool)
    requires 0 <= src < Size(bw)
    ensures Mov(src, dst, bw).result == src
  {
    Bits.SmallMultiple(Mov(src, dst, bw).result - src, Size(bw));
  }

  /** `op_and`. */
  function And(src: int, dst: int, bw: bool): (o: Outcome)
    ensures 0 <= o.result < Size(bw)
    ensures o.flags == AllFour(o.result != 0, false, o.result == 0, Negative(o.result, bw))
  {
    SizePowers(bw);
    var d := Bits.Bitwise(Bits.AndBits, dst, src, Width(bw));
    Outcome(d, AllFour(d != 0, false, d == 0, Negative(d, bw)))
  }

  /** `op_bit`: the flags of `and`, the destination returned unchanged. */
  function BitTest(src: int, dst: int, bw: bool): (o: Outcome)
    ensures o.result == dst && o.flags == And(src, dst, bw).flags
  {
    var d := Bits.Bitwise(Bits.AndBits, src, dst, Width(bw));
    Bits.CommuteBitwise(Bits.AndBits, src, dst, Width(bw));
    Outcome(dst, AllFour(d != 0, false, d == 0, Negative(d, bw)))
  }

  /** `op_xor`. */
  function Xor(src: int, dst: int, bw: bool): (o: Outcome)
    ensures 0 <= o.result < Size(bw)
    ensures o.flags == AllFour(o.result != 0, Signed16(dst) < 0 && Signed16(src) < 0, o.result == 0, Negative(o.result, bw))
  {
    SizePowers(bw);
    var d := Bits.Bitwise(Bits.XorBits, dst, src, Width(bw));
    Outcome(d, AllFour(d != 0, Signed16(dst) < 0 && Signed16(src) < 0, d == 0, Negative(d, bw)))
  }

  /** `op_bic`: clear in the destination the bits set in the source; SR
      untouched. */
  function Bic(src: int, dst: int, bw: bool): (o: Outcome)
    ensures o.flags == NoWrites && 0 <= o.result < Size(bw)
  {
    SizePowers(bw);
    Outcome(Bits.Bitwise(Bits.AndNotBits, dst, src, Width(bw)), NoWrites)
  }

  /** `op_bis`: set in the destination the bits set in the source; SR
      untouched. */
  function Bis(src: int, dst: int, bw: bool): (o: Outcome)
    ensures o.flags == NoWrites && 0 <= o.result < Size(bw)
  {
    SizePowers(bw);
    Outcome(Bits.Bitwise(Bits.OrBits, dst, src, Width(bw)), NoWrites)
  }

  /** Bit `k` of the `and` and `xor` results, below the width: the
      connective on the operands' bits, the reading of Python's `&` and
      `^`. */
  lemma BitwiseResults(src: int, dst: int, bw: bool, k: nat)
    requires k < Width(bw)
    ensures Bits.TestBit(And(src, dst, bw).result, k) == (Bits.TestBit(dst, k) && Bits.TestBit(src, k))
    ensures Bits.TestBit(Xor(src, dst, bw).result, k) == (Bits.TestBit(dst, k) != Bits.TestBit(src, k))
  {
    Bits.BitwiseBit(Bits.AndBits, dst, src, Width(bw), k);
    Bits.BitwiseBit(Bits.XorBits, dst, src, Width(bw), k);
  }

  /** Bit `k` of the `bic` and `bis` results, below the width: the
      destination's bit cleared or set where the source's bit is set. */
  lemma ClearSetResults(src: int, dst: int, bw: bool, k: nat)
    requires k < Width(bw)
    ensures Bits.TestBit(Bic(src, dst, bw).result, k) == (Bits.TestBit(dst, k) && !Bits.TestBit(src, k))
    ensures Bits.TestBit(Bis(src, dst, bw).result, k) == (Bits.TestBit(dst, k) || Bits.TestBit(src, k))
  {
    Bits.BitwiseBit(Bits.AndNotBits, dst, src, Width(bw), k);
    Bits.BitwiseBit(Bits.OrBits, dst, src, Width(bw), k);
  }

  /** `xor` with the same source twice gives back the destination, kept to
      the width. */
  lemma XorInvolution(src: int, dst: int, bw: bool)
    ensures Xor(src, Xor(src, dst, bw).result, bw).result == Truncate(dst, bw)
  {
    SizePowers(bw);
    Bits.XorTwice(dst, src, Width(bw));
  }

  /** `bis` is idempotent, and `bic` after `bis` of the same source clears
      exactly what `bic` alone would. */
  lemma BisBic(src: int, dst: int, bw: bool)
    ensures var set1 := Bis(src, dst, bw).result;
      && Bis(src, set1, bw).result == set1
      && Bic(src, set1, bw).result == Bic(src, dst, bw).result
  {
    Bits.ComposeBitwise(Bits.OrBits, Bits.OrBits, Bits.OrBits, dst, src, Width(bw));
    Bits.ComposeBitwise(Bits.OrBits, Bits.AndNotBits, Bits.AndNotBits, dst, src, Width(bw));
  }

  /** `op_add` as written: the sum is masked with the sign bit alone, so
      the result is 0 or the sign mask, N and C say which, and the
      overflow test can never hold. */
  function Add(src: int, dst: int, bw: bool): (o: Outcome)
    ensures o.result == 0 || o.result == SignMask(bw)
    ensures o.result == SignMask(bw) <==> Bits.TestBit(dst + src, Width(bw) - 1)
    ensures o.flags == AllFour(o.result != 0, false, o.result == 0, o.result != 0)
  {
    var mask := SignMask(bw);
    var d := if Bits.TestBit(dst + src, Width(bw) - 1) then mask else 0;
    var dNeg := d != 0;
    var flagA := !dNeg && !Negative(src, bw);
    var flagB := dNeg && Negative(src, bw);
    Outcome(d, AllFour(dNeg, (dNeg && flagA) || (!dNeg && flagB), d == 0, dNeg))
  }

  /** `op_addc`: source, destination and carry, kept to the width; C and N
      are its sign bit, V the overflow rule on the 16-bit readings of the
      addends and the sum. */
  function Addc(src: int, dst: int, bw: bool, carry: bool): (o: Outcome)
    ensures 0 <= o.result < Size(bw) && (o.result - (src + dst + CarryIn(carry))) % Size(bw) == 0
    ensures o.flags.c == o.flags.n == Some(Negative(o.result, bw))
    ensures o.flags.z == Some(o.result == 0)
    ensures o.flags.v == Some(SignsFlip(Signed16(src), Signed16(dst), Signed16(o.result)))
  {
    var d := Truncate(src + dst + CarryIn(carry), bw);
    var v := (Signed16(src) < 0 && Signed16(dst) < 0 && Signed16(d) > 0)
          || (Signed16(src) > 0 && Signed16(dst) > 0 && Signed16(d) < 0);
    Outcome(d, AllFour(Negative(d, bw), v, d == 0, Negative(d, bw)))
  }

  /** `op_subc`: the destination minus the source read as a signed word,
      plus the carry, kept to the width. That is the destination minus the
      source plus the carry, modulo the operand size. */
  function Subc(src: int, dst: int, bw: bool, carry: bool): (o: Outcome)
    ensures o.result == Truncate(dst - src + CarryIn(carry), bw)
    ensures o.flags.c == o.flags.n == Some(Negative(o.result, bw))
    ensures o.flags.z == Some(o.result == 0)
    ensures o.flags.v == Some(SignsFlip(-Signed16(src), Signed16(dst), Signed16(o.result)))
  {
    var d := Truncate(-Signed16(src) + CarryIn(carry) + dst, bw);
    SubcDifference(src, dst, CarryIn(carry), bw);
    SameResidue(d, Truncate(dst - src + CarryIn(carry), bw), dst - src + CarryIn(carry), Size(bw));
    var v := (Signed16(src) < 0 && Signed16(dst) > 0 && Signed16(d) < 0)
          || (Signed16(src) > 0 && Signed16(dst) < 0 && Signed16(d) > 0);
    Outcome(d, AllFour(Negative(d, bw), v, d == 0, Negative(d, bw)))
  }

  /** `decode_signed(src, 16)` differs from `src` by a multiple of the
      operand size. */
  lemma SignedCongruent(src: int, bw: bool)
    ensures (Signed16(src) - src) % Size(bw) == 0
  {
    Bits.Pow2Bytes();
    Catalog.DecodeSignedWindow(src, WordBits);
    var q := (Signed16(src) - src) / 0x1_0000;
    assert Signed16(src) - src == 0x1_0000 * q;
    if bw {
      Bits.DivModUnique(Signed16(src) - src, 0x100, 0x100 * q, 0);
    }
  }

  /** Subtracting `decode_signed(src, 16)` subtracts `src`, modulo the
      operand size. */
  lemma SubcDifference(src: int, dst: int, c: int, bw: bool)
    ensures (Truncate(-Signed16(src) + c + dst, bw) - (dst - src + c)) % Size(bw) == 0
  {
    var m, sg := Size(bw), Signed16(src);
    var t := Truncate(-sg + c + dst, bw);
    SignedCongruent(src, bw);
    var p, q := (t - (-sg + c + dst)) / m, (sg - src) / m;
    assert t - (-sg + c + dst) == m * p;
    assert sg - src == m * q;
    assert t - (dst - src + c) == m * (p - q);
    Bits.DivModUnique(t - (dst - src + c), m, p - q, 0);
  }

  /** Two residues below `m` of the same number are equal. */
  lemma SameResidue(a: int, b: int, x: int, m: int)
    requires m > 0 && 0 <= a < m && 0 <= b < m
    requires (a - x) % m == 0 && (b - x) % m == 0
    ensures a == b
  {
    var p, q := (a - x) / m, (b - x) / m;
    assert a - b == m * (p - q);
    Bits.DivModUnique(a - b, m, p - q, 0);
    Bits.SmallMultiple(a - b, m);
  }

  /** `op_sub` as written: `dst + ~src + 1` is the difference; the carry
      and overflow tests compare a one-bit mask with 1 and never hold; N
      is the unsigned comparison of the operands before masking. */
  function Sub(src: int, dst: int, bw: bool): (o: Outcome)
    ensures 0 <= o.result < Size(bw) && (o.result - (dst - src)) % Size(bw) == 0
    ensures o.flags == AllFour(false, false, o.result == 0, src > dst)
  {
    var temp := src > dst;
    var d := Truncate(dst + (-src - 1) + 1, bw);
    var masked := if Negative(d, bw) then SignMask(bw) else 0;
    Outcome(d, AllFour(masked == 1, masked == 1, d == 0, temp))
  }

  /** `op_cmp`: the flags of the difference; the destination returned
      unchanged. C is the sign bit of the difference, N the sign of its
      16-bit reading, Z whether the operands agree modulo the size. */
  function Cmp(src: int, dst: int, bw: bool): (o: Outcome)
    ensures o.result == dst && o.flags.z.Some?
    ensures o.flags.c == Some(Negative(Truncate(dst - src, bw), bw))
    ensures o.flags.n == Some(Signed16(Truncate(dst - src, bw)) < 0)
    // V applies the overflow rule with the difference's sign turned round
    ensures o.flags.v == Some(SignsFlip(Signed16(Truncate(dst, bw)), -Signed16(src), -Signed16(Truncate(dst - src, bw))))
  {
    var aux := Truncate(dst, bw);
    var d := Truncate(dst - src, bw);
    var v := (Signed16(aux) < 0 && Signed16(src) > 0 && Signed16(d) < 0)
          || (Signed16(aux) > 0 && Signed16(src) < 0 && Signed16(d) > 0);
    Outcome(dst, AllFour(Negative(d, bw), v, d == 0, Signed16(d) < 0))
  }

  /** `cmp`'s V as written: it stays clear on a real overflow (0x8000 minus
      1 is 0x7fff) and is raised on a difference that does not overflow
      (0xfffe minus 1 is 0xfffd, -2 minus 1 is -3). */
  lemma CmpOverflowAsWritten()
    ensures Cmp(1, 0x8000, false).flags.v == Some(false)
    ensures Cmp(1, 0xfffe, false).flags.v == Some(true)
  {
    Bits.Pow2Bytes();
    Catalog.DecodeSignedWindow(0x8000, WordBits);
    Catalog.DecodeSignedWindow(0x7fff, WordBits);
    Catalog.DecodeSignedWindow(0xfffe, WordBits);
    Catalog.DecodeSignedWindow(0xfffd, WordBits);
    Catalog.DecodeSignedWindow(1, WordBits);
  }

  /** `cmp` raises Z exactly when the operands agree modulo the operand
      size. */
  lemma CmpZero(src: int, dst: int, bw: bool)
    ensures Cmp(src, dst, bw).flags.z == Some((dst - src) % Size(bw) == 0)
  {
    ZeroResidue(Truncate(dst - src, bw), dst - src, Size(bw));
  }

  /** A residue below `m` of `x` is zero exactly when `m` divides `x`. */
  lemma ZeroResidue(d: int, x: int, m: int)
    requires m > 0 && 0 <= d < m && (d - x) % m == 0
    ensures d == 0 <==> x % m == 0
  {
    var p := (d - x) / m;
    assert d - x == m * p;
    if d == 0 {
      Bits.DivModUnique(x, m, -p, 0);
    } else if x % m == 0 {
      var q := x / m;
      assert d == m * (p + q);
      Bits.DivModUnique(d, m, p + q, 0);
    }
  }

  /** `op_dadd` as written: a binary sum with carry, not a decimal one. It
      sets C, Z and N and leaves V alone. */
  function Dadd(src: int, dst: int, bw: bool, carry: bool): (o: Outcome)
    ensures o.flags.v == None
  {
    var d := Truncate(dst + src + CarryIn(carry), bw);
    Outcome(d, FlagWrites(Some(Negative(d, bw)), None, Some(d == 0), Some(Negative(d, bw))))
  }

  /** `dadd` computes the binary sum `addc` computes, with the same C, Z
      and N. */
  lemma DaddIsBinary(src: int, dst: int, bw: bool, carry: bool)
    ensures var a, d := Addc(src, dst, bw, carry), Dadd(src, dst, bw, carry);
      d.result == a.result && d.flags.c == a.flags.c && d.flags.z == a.flags.z && d.flags.n == a.flags.n
  {
  }

  /** `sub` undoes `addc` without carry. */
  lemma SubUndoesAddc(src: int, dst: int, bw: bool)
    ensures Sub(src, Addc(src, dst, bw, false).result, bw).result == Truncate(dst, bw)
  {
    var m := Size(bw);
    var s := Addc(src, dst, bw, false).result;
    assert s == (src + dst) % m;
    TakeBack(src, dst, m);
  }

  /** `subc` undoes `addc` when neither sees a carry. */
  lemma SubcUndoesAddc(src: int, dst: int, bw: bool)
    ensures Subc(src, Addc(src, dst, bw, false).result, bw, false).result == Truncate(dst, bw)
  {
    var m := Size(bw);
    var s := Addc(src, dst, bw, false).result;
    assert s == (src + dst) % m;
    TakeBack(src, dst, m);
  }

  /** `((src + dst) % m - src) % m` is `dst % m`. */
  lemma TakeBack(src: int, dst: int, m: int)
    requires m > 0
    ensures ((src + dst) % m - src) % m == dst % m
  {
    var q := (src + dst) / m;
    var x := (src + dst) % m - src;
    assert x == dst - m * q;
    Bits.DivModUnique(x, m, dst / m - q, dst % m);
  }

  /** `cmp` raises Z exactly when `sub` gives zero. */
  lemma CmpAgreesWithSub(src: int, dst: int, bw: bool)
    ensures Cmp(src, dst, bw).flags.z == Some(Sub(src, dst, bw).result == 0)
  {
    CmpZero(src, dst, bw);
    ZeroResidue(Sub(src, dst, bw).result, dst - src, Size(bw));
  }

  /** The two-operand operations, one per `op_*` of the dictionary in
      `single_step`. */
  datatype Op2 = MovOp | AddOp | AddcOp | SubcOp | SubOp | CmpOp | DaddOp | BitOp | BicOp | BisOp | XorOp | AndOp

  /** The dictionary's keys with their operations, in the order of the
      opcode table. */
  const DoubleTable: seq<(string, Op2)> := [
    ("mov", MovOp), ("add", AddOp), ("addc", AddcOp), ("subc", SubcOp),
    ("sub", SubOp), ("cmp", CmpOp), ("dadd", DaddOp), ("bit", BitOp),
    ("bic", BicOp), ("bis", BisOp), ("xor", XorOp), ("and", AndOp)
  ]

  /** The first position at or after `i` whose key is `name`. */
  function KeyFrom(name: string, i: nat): (k: Option<nat>)
    requires i <= |DoubleTable|
    ensures k.Some? ==> i <= k.value < |DoubleTable| && DoubleTable[k.value].0 == name
    ensures k.None? <==> forall j :: i <= j < |DoubleTable| ==> DoubleTable[j].0 != name
    decreases |DoubleTable| - i
  {
    if i == |DoubleTable| then None
    else if DoubleTable[i].0 == name then Some(i)
    else KeyFrom(name, i + 1)
  }

  /** The dictionary lookup `{...}[mnem]`; None where it raises
      `KeyError`. */
  function OpNamed(name: string): (op: Option<Op2>)
    ensures op.None? <==> forall j :: 0 <= j < |DoubleTable| ==> DoubleTable[j].0 != name
    ensures op.Some? ==> exists j :: 0 <= j < |DoubleTable| && DoubleTable[j] == (name, op.value)
  {
    match KeyFrom(name, 0)
    case None => None
    case Some(k) => Some(DoubleTable[k].1)
  }

  /** Calling the operation the dictionary holds. */
  function Perform(op: Op2, src: int, dst: int, bw: bool, carry: bool): Outcome
  {
    match op
    case MovOp => Mov(src, dst, bw)
    case AddOp => Add(src, dst, bw)
    case AddcOp => Addc(src, dst, bw, carry)
    case SubcOp => Subc(src, dst, bw, carry)
    case SubOp => Sub(src, dst, bw)
    case CmpOp => Cmp(src, dst, bw)
    case DaddOp => Dadd(src, dst, bw, carry)
    case BitOp => BitTest(src, dst, bw)
    case BicOp => Bic(src, dst, bw)
    case BisOp => Bis(src, dst, bw)
    case XorOp => Xor(src, dst, bw)
    case AndOp => And(src, dst, bw)
  }

  /** The DOUBLE entries of the opcode table are the last twelve, and
      their names are the dictionary's keys, in the same order. */
  lemma DoubleEntriesHaveOps()
    ensures forall j :: 0 <= j < |Catalog.Opcodes| ==> (Catalog.Opcodes[j].form == Catalog.Double <==> 15 <= j)
    ensures forall j :: 15 <= j < |Catalog.Opcodes| ==> Catalog.Opcodes[j].name == DoubleTable[j - 15].0
  {
  }

  /** Every DOUBLE entry of the opcode table names an operation. */
  lemma DoubleEntryOp(e: Catalog.Entry)
    requires e in Catalog.Opcodes && e.form == Catalog.Double
    ensures OpNamed(e.name).Some?
  {
    DoubleEntriesHaveOps();
    var j :| 0 <= j < |Catalog.Opcodes| && Catalog.Opcodes[j] == e;
    assert DoubleTable[j - 15].0 == e.name;
  }
}
