/** The instruction catalog of msp430.py's `MSP430` class: the opcode
    tables, first-match `find_opcode`, the bit-field extractors and the
    module-level `decode_signed`. */
module Catalog {
  import opened Results
  import Bits

  /** `M4`, `M6`, `M9` and the 0 the emulated table carries as its mask. */
  datatype Mask = M4 | M6 | M9 | NoMask

  function MaskValue(m: Mask): nat
  {
    match m
    case M4 => 0xf000
    case M6 => 0xfc00
    case M9 => 0xff80
    case NoMask => 0
  }

  /** Python's `opcode & mask`. Each mask keeps the top 4, 6 or 9 of the
      low 16 bits, so the and is a rounding down of the 16-bit residue. */
  function Apply(m: Mask, w: int): (r: nat)
    ensures r < 0x1_0000 && r <= w % 0x1_0000
    ensures m == M4 ==> r % 0x1000 == 0 && w % 0x1_0000 - r < 0x1000
    ensures m == M6 ==> r % 0x400 == 0 && w % 0x1_0000 - r < 0x400
    ensures m == M9 ==> r % 0x80 == 0 && w % 0x1_0000 - r < 0x80
    ensures m == NoMask ==> r == 0
  {
    var u := w % 0x1_0000;
    match m
    case M4 => RoundDown(u, 0x1000); u / 0x1000 * 0x1000
    case M6 => RoundDown(u, 0x400); u / 0x400 * 0x400
    case M9 => RoundDown(u, 0x80); u / 0x80 * 0x80
    case NoMask => 0
  }

  /** Rounding down to a multiple of `m` stays within `m` below. */
  lemma RoundDown(u: int, m: int)
    requires 0 <= u && m > 0
    ensures 0 <= u / m * m <= u && u - u / m * m < m && (u / m * m) % m == 0
  {
    var q := u / m;
    assert u == m * q + u % m;
    Bits.DivModUnique(q * m, m, q, 0);
  }

  /** The instruction format, the fourth column of the tables. */
  datatype Form = Single | SingleBW | SingleReti | Jmp | Double | SingleNop | JmpRel | SingleRptBW

  /** The operand kind, the fifth column: the key of `mnem_kinds`. */
  datatype Kind = OneOperand | NoOperand | Jump | TwoOperands

  datatype Entry = Entry(name: string, mask: Mask, value: nat, form: Form, kind: Kind)

  /** `MSP430.OPCODES`, in table order. */
  const Opcodes: seq<Entry> := [
    Entry("rrc", M9, 0x1000, SingleBW, OneOperand),
    Entry("rra", M9, 0x1100, SingleBW, OneOperand),
    Entry("push", M9, 0x1200, SingleBW, OneOperand),
    Entry("swpb", M9, 0x1080, Single, OneOperand),
    Entry("sxt", M9, 0x1180, Single, OneOperand),
    Entry("call", M9, 0x1280, Single, OneOperand),
    Entry("reti", M9, 0x1300, SingleReti, NoOperand),
    Entry("jnz", M6, 0x2000, Jmp, Jump),
    Entry("jz", M6, 0x2400, Jmp, Jump),
    Entry("jnc", M6, 0x2800, Jmp, Jump),
    Entry("jc", M6, 0x2C00, Jmp, Jump),
    Entry("jn", M6, 0x3000, Jmp, Jump),
    Entry("jge", M6, 0x3400, Jmp, Jump),
    Entry("jl", M6, 0x3800, Jmp, Jump),
    Entry("jmp", M6, 0x3C00, Jmp, Jump),
    Entry("mov", M4, 0x4000, Double, TwoOperands),
    Entry("add", M4, 0x5000, Double, TwoOperands),
    Entry("addc", M4, 0x6000, Double, TwoOperands),
    Entry("subc", M4, 0x7000, Double, TwoOperands),
    Entry("sub", M4, 0x8000, Double, TwoOperands),
    Entry("cmp", M4, 0x9000, Double, TwoOperands),
    Entry("dadd", M4, 0xa000, Double, TwoOperands),
    Entry("bit", M4, 0xb000, Double, TwoOperands),
    Entry("bic", M4, 0xc000, Double, TwoOperands),
    Entry("bis", M4, 0xd000, Double, TwoOperands),
    Entry("xor", M4, 0xe000, Double, TwoOperands),
    Entry("and", M4, 0xf000, Double, TwoOperands)
  ]

  /** `MSP430.EMULATED_OPCODES`: assembler-only names for encodings of the
      core instructions. */
  const Emulated: seq<Entry> := [
    Entry("adc", NoMask, 0x5300, SingleBW, OneOperand),
    Entry("br", NoMask, 0x4000, JmpRel, OneOperand),
    Entry("clr", NoMask, 0x4300, SingleBW, OneOperand),
    Entry("clrc", NoMask, 0xc302, SingleNop, NoOperand),
    Entry("clrn", NoMask, 0xc222, SingleNop, NoOperand),
    Entry("clrz", NoMask, 0xc322, SingleNop, NoOperand),
    Entry("dadc", NoMask, 0xa300, SingleBW, OneOperand),
    Entry("dec", NoMask, 0x8310, SingleBW, OneOperand),
    Entry("decd", NoMask, 0x8320, SingleBW, OneOperand),
    Entry("dint", NoMask, 0xc232, SingleNop, NoOperand),
    Entry("eint", NoMask, 0xd232, SingleNop, NoOperand),
    Entry("inc", NoMask, 0x5310, SingleBW, OneOperand),
    Entry("incd", NoMask, 0x5320, SingleBW, OneOperand),
    Entry("inv", NoMask, 0xe330, SingleBW, OneOperand),
    Entry("nop", NoMask, 0x4303, SingleNop, NoOperand),
    Entry("pop", NoMask, 0x4130, Single, OneOperand),
    Entry("ret", NoMask, 0x4130, SingleNop, NoOperand),
    Entry("rla", NoMask, 0x5000, SingleRptBW, OneOperand),
    Entry("rlc", NoMask, 0x6000, SingleRptBW, OneOperand),
    Entry("sbc", NoMask, 0x7300, SingleBW, OneOperand),
    Entry("setc", NoMask, 0xd302, SingleNop, NoOperand),
    Entry("setn", NoMask, 0xd222, SingleNop, NoOperand),
    Entry("setz", NoMask, 0xd322, SingleNop, NoOperand),
    Entry("tst", NoMask, 0x9300, SingleBW, OneOperand)
  ]

  predicate Matches(e: Entry, w: int)
  {
    Apply(e.mask, w) == e.value
  }

  /** The first position at or after `i` whose entry matches `w`. */
  function FindIn(table: seq<Entry>, w: int, i: nat): (k: Option<nat>)
    requires i <= |table|
    ensures k.Some? ==> i <= k.value < |table| && Matches(table[k.value], w)
    ensures k.Some? ==> forall j :: i <= j < k.value ==> !Matches(table[j], w)
    ensures k.None? <==> forall j :: i <= j < |table| ==> !Matches(table[j], w)
    decreases |table| - i
  {
    if i == |table| then None
    else if Matches(table[i], w) then Some(i)
    else FindIn(table, w, i + 1)
  }

  /** `find_opcode(opcode)`: the first table entry whose masked opcode
      equals its value, or None when no entry matches. */
  function FindOpcode(w: int): (r: Option<Entry>)
    ensures r.Some? ==> Matches(r.value, w) && r.value in Opcodes
  {
    match FindIn(Opcodes, w, 0)
    case None => None
    case Some(k) => Some(Opcodes[k])
  }

  /** `find_opcode` fails only when no entry matches, and otherwise returns
      the first entry that does. */
  lemma FindOpcodeFirst(w: int)
    ensures FindOpcode(w).None? <==> forall j :: 0 <= j < |Opcodes| ==> !Matches(Opcodes[j], w)
    ensures FindOpcode(w).Some? ==>
      exists k :: 0 <= k < |Opcodes| && Opcodes[k] == FindOpcode(w).value && (forall j :: 0 <= j < k ==> !Matches(Opcodes[j], w))
  {
    var k := FindIn(Opcodes, w, 0);
  }

  /** The first matching entry is the one `find_opcode` returns. */
  lemma FirstMatch(w: int, c: nat)
    requires c < |Opcodes| && Matches(Opcodes[c], w)
    requires forall j :: 0 <= j < c ==> !Matches(Opcodes[j], w)
    ensures FindOpcode(w) == Some(Opcodes[c])
  {
    var k := FindIn(Opcodes, w, 0);
    assert k.Some? ==> k.value == c;
    assert k.Some?;
  }

  /** The layout of the table: seven single-operand entries under `M9`,
      eight jumps under `M6` spaced 0x400 apart, twelve two-operand entries
      under `M4` spaced 0x1000 apart. */
  lemma TableShape()
    ensures |Opcodes| == 27
    ensures forall j :: 0 <= j < 7 ==>
      Opcodes[j].mask == M9 && 0x1000 <= Opcodes[j].value <= 0x1300 && Opcodes[j].value % 0x80 == 0
    ensures forall j :: 7 <= j < 15 ==>
      Opcodes[j].mask == M6 && Opcodes[j].value == 0x2000 + 0x400 * (j - 7) && Opcodes[j].form == Jmp
    ensures forall j :: 15 <= j < 27 ==>
      Opcodes[j].mask == M4 && Opcodes[j].value == 0x4000 + 0x1000 * (j - 15) && Opcodes[j].form == Double
  {
  }

  /** A name beginning with a lower-case letter. */
  predicate StartsLower(s: string)
  {
    |s| > 0 && 'a' <= s[0] <= 'z'
  }

  /** Every mnemonic of the opcode table is written in lower case. */
  lemma OpcodeNamesLower()
    ensures forall j :: 0 <= j < |Opcodes| ==> StartsLower(Opcodes[j].name)
  {
  }

  /** Which entry, by position, a 16-bit residue `u` selects: a reference
      reading of the table by ranges of the opcode word. */
  function EntryByRange(u: int): (k: Option<nat>)
    requires 0 <= u < 0x1_0000
    ensures k.Some? ==> k.value < 27
  {
    if u < 0x1000 then None
    else if u < 0x2000 then
      match u / 0x80
      case 0x20 => Some(0)
      case 0x22 => Some(1)
      case 0x24 => Some(2)
      case 0x21 => Some(3)
      case 0x23 => Some(4)
      case 0x25 => Some(5)
      case 0x26 => Some(6)
      case _ => None
    else if u < 0x4000 then Some(7 + (u / 0x400 - 8))
    else Some(15 + (u / 0x1000 - 4))
  }

  /** `find_opcode` selects exactly the entry the ranges of the word name. */
  lemma FindOpcodeByRange(w: int)
    ensures var u := w % 0x1_0000;
      FindOpcode(w) == match EntryByRange(u) case None => None case Some(k) => Some(Opcodes[k])
  {
    var u := w % 0x1_0000;
    if u < 0x1000 {
      LowRange(w);
    } else if u < 0x2000 {
      SingleRange(w);
    } else if u < 0x4000 {
      JumpRange(w);
    } else {
      DoubleRange(w);
    }
  }

  lemma LowRange(w: int)
    requires w % 0x1_0000 < 0x1000
    ensures FindOpcode(w).None? && EntryByRange(w % 0x1_0000).None?
  {
    NoLongMatch(w);
    SingleMatches(w);
    TableShape();
    FindOpcodeFirst(w);
  }

  lemma JumpRange(w: int)
    requires 0x2000 <= w % 0x1_0000 < 0x4000
    ensures EntryByRange(w % 0x1_0000) == Some(7 + ((w % 0x1_0000) / 0x400 - 8))
    ensures FindOpcode(w) == Some(Opcodes[7 + ((w % 0x1_0000) / 0x400 - 8)])
  {
    var u := w % 0x1_0000;
    TableShape();
    var c := 7 + (u / 0x400 - 8);
    assert Apply(M9, w) >= 0x2000 - 0x80;
    assert Apply(M6, w) == u / 0x400 * 0x400;
    assert Matches(Opcodes[c], w);
    FirstMatch(w, c);
  }

  lemma DoubleRange(w: int)
    requires 0x4000 <= w % 0x1_0000
    ensures EntryByRange(w % 0x1_0000) == Some(15 + ((w % 0x1_0000) / 0x1000 - 4))
    ensures FindOpcode(w) == Some(Opcodes[15 + ((w % 0x1_0000) / 0x1000 - 4)])
  {
    var u := w % 0x1_0000;
    TableShape();
    var c := 15 + (u / 0x1000 - 4);
    assert Apply(M9, w) >= 0x4000 - 0x80;
    assert Apply(M6, w) >= 0x4000 - 0x400;
    assert Apply(M4, w) == u / 0x1000 * 0x1000;
    assert Matches(Opcodes[c], w);
    FirstMatch(w, c);
  }

  lemma SingleRange(w: int)
    requires 0x1000 <= w % 0x1_0000 < 0x2000
    ensures var u := w % 0x1_0000;
      FindOpcode(w) == match EntryByRange(u) case None => None case Some(k) => Some(Opcodes[k])
  {
    var u := w % 0x1_0000;
    var q := u / 0x80;
    match EntryByRange(u)
    case None =>
      assert q >= 0x27;
      NoLongMatch(w);
      SingleMatches(w);
      TableShape();
      FindOpcodeFirst(w);
    case Some(c) =>
      assert q * 0x80 == Opcodes[c].value;
      SingleCase(w, c);
  }

  /** A word whose top nine bits equal a single-operand entry's selects
      that entry: the seven values are distinct. */
  lemma SingleCase(w: int, c: nat)
    requires c < 7 && (w % 0x1_0000) / 0x80 * 0x80 == Opcodes[c].value
    ensures FindOpcode(w) == Some(Opcodes[c])
  {
    SingleMatches(w);
    SingleValuesDistinct();
    FirstMatch(w, c);
  }

  lemma SingleValuesDistinct()
    ensures forall i, j :: 0 <= i < j < 7 ==> Opcodes[i].value != Opcodes[j].value
  {
  }

  /** Below 0x2000 no jump or two-operand entry matches. */
  lemma NoLongMatch(w: int)
    requires w % 0x1_0000 < 0x2000
    ensures forall j :: 7 <= j < |Opcodes| ==> !Matches(Opcodes[j], w)
  {
    TableShape();
  }

  /** A single-operand entry matches exactly when the word's top nine bits
      equal the entry's. */
  lemma SingleMatches(w: int)
    ensures forall j :: 0 <= j < 7 ==> (Matches(Opcodes[j], w) <==> (w % 0x1_0000) / 0x80 * 0x80 == Opcodes[j].value)
  {
    TableShape();
  }

  /** Every word from 0x2000 up decodes, as a jump or a two-operand
      instruction. */
  lemma HighWordsDecode(w: int)
    requires 0x2000 <= w < 0x1_0000
    ensures FindOpcode(w).Some?
    ensures FindOpcode(w).value.form == Jmp || FindOpcode(w).value.form == Double
  {
    var u := w % 0x1_0000;
    assert u == w;
    FindOpcodeByRange(w);
    TableShape();
    var k := EntryByRange(u);
    assert k.Some? && 7 <= k.value;
  }

  /** No word below 0x1000 decodes. */
  lemma LowWordsUndecoded(w: int)
    requires 0 <= w < 0x1000
    ensures FindOpcode(w) == None
  {
    assert w % 0x1_0000 == w;
    FindOpcodeByRange(w);
    assert EntryByRange(w) == None;
  }

  /** `single_sd(opcode)`: the addressing mode in bits 4-5 and the register
      in bits 0-3. */
  function SingleSd(w: int): (f: (nat, nat))
    ensures f.0 < 4 && f.1 < 16
  {
    ((w / 0x10) % 4, w % 0x10)
  }

  /** `double_src(opcode)`: source mode in bits 4-5, source register in
      bits 8-11. */
  function DoubleSrc(w: int): (f: (nat, nat))
    ensures f.0 < 4 && f.1 < 16
  {
    ((w / 0x10) % 4, (w / 0x100) % 0x10)
  }

  /** `double_dst(opcode)`: destination mode in bit 7, register in bits 0-3. */
  function DoubleDst(w: int): (f: (nat, nat))
    ensures f.0 < 2 && f.1 < 16
  {
    ((w / 0x80) % 2, w % 0x10)
  }

  /** `byte_op(opcode)`: bit 6, the `.B` suffix. */
  predicate ByteOp(w: int)
  {
    Bits.TestBit(w, 6)
  }

  /** The two-operand word laid out field by field. */
  function DoubleWord(op: nat, sreg: nat, dmode: nat, bw: bool, smode: nat, dreg: nat): (w: nat)
    requires op < 16 && sreg < 16 && dmode < 2 && smode < 4 && dreg < 16
    ensures w < 0x1_0000
  {
    op * 0x1000 + sreg * 0x100 + dmode * 0x80 + (if bw then 0x40 else 0) + smode * 0x10 + dreg
  }

  /** The extractors read back every field of a two-operand word. */
  lemma DoubleWordFields(op: nat, sreg: nat, dmode: nat, bw: bool, smode: nat, dreg: nat)
    requires op < 16 && sreg < 16 && dmode < 2 && smode < 4 && dreg < 16
    ensures var w := DoubleWord(op, sreg, dmode, bw, smode, dreg);
      && DoubleSrc(w) == (smode, sreg) && DoubleDst(w) == (dmode, dreg)
      && ByteOp(w) == bw && w / 0x1000 == op
  {
    var w := DoubleWord(op, sreg, dmode, bw, smode, dreg);
    var b := if bw then 1 else 0;
    var low := b * 0x40 + smode * 0x10 + dreg;
    assert w == (op * 0x10 + sreg) * 0x100 + (dmode * 0x80 + low);
    Bits.DivModUnique(w, 0x100, op * 0x10 + sreg, dmode * 0x80 + low);
    Bits.DivModUnique(op * 0x10 + sreg, 0x10, op, sreg);
    assert w == (op * 0x100 + sreg * 0x10 + dmode * 8 + b * 4 + smode) * 0x10 + dreg;
    Bits.DivModUnique(w, 0x10, op * 0x100 + sreg * 0x10 + dmode * 8 + b * 4 + smode, dreg);
    Bits.DivModUnique(op * 0x100 + sreg * 0x10 + dmode * 8 + b * 4 + smode, 4, op * 0x40 + sreg * 4 + dmode * 2 + b, smode);
    assert w == (op * 0x20 + sreg * 2 + dmode) * 0x80 + low;
    Bits.DivModUnique(w, 0x80, op * 0x20 + sreg * 2 + dmode, low);
    Bits.DivModUnique(op * 0x20 + sreg * 2 + dmode, 2, op * 0x10 + sreg, dmode);
    assert w == (op * 0x1000 + sreg * 0x100 + dmode * 0x80) + b * 0x40 + smode * 0x10 + dreg;
    Bits.DivModUnique(w, 0x1000, op, sreg * 0x100 + dmode * 0x80 + low);
    ByteOpField(w, op * 0x20 + sreg * 2 + dmode, b, smode * 0x10 + dreg);
  }

  /** Bit 6 of `hi * 0x80 + b * 0x40 + lo` is `b`. */
  lemma ByteOpField(w: int, hi: int, b: int, lo: int)
    requires 0 <= b < 2 && 0 <= lo < 0x40 && w == hi * 0x80 + b * 0x40 + lo
    ensures ByteOp(w) == (b == 1)
  {
    Bits.TestBitResidue(w, 6);
    Bits.Pow2Bytes();
    assert Bits.Pow2(7) == 0x80 && Bits.Pow2(6) == 0x40 by {
      assert Bits.Pow2(8) == 2 * Bits.Pow2(7);
      assert Bits.Pow2(7) == 2 * Bits.Pow2(6);
    }
    Bits.DivModUnique(w, 0x80, hi, b * 0x40 + lo);
  }

  /** `decode_signed(value, length)`: the low `length` bits of `value` read
      as a two's-complement number. Python's `1 << -1` raises, so `length`
      must be positive. */
  function DecodeSigned(value: int, length: nat): int
    requires length >= 1
  {
    var half := Bits.Pow2(length - 1);
    var low := value % half;
    if !Bits.TestBit(value, length - 1) then low
    else -(((half - 1) - low) + 1)
  }

  /** The result lies in `[-2^(length-1), 2^(length-1))` and agrees with
      `value` modulo `2^length`. */
  lemma DecodeSignedWindow(value: int, length: nat)
    requires length >= 1
    ensures -(Bits.Pow2(length - 1) as int) <= DecodeSigned(value, length) < Bits.Pow2(length - 1)
    ensures (DecodeSigned(value, length) - value) % Bits.Pow2(length) == 0
  {
    var half := Bits.Pow2(length - 1);
    Bits.TestBitResidue(value, length - 1);
    SignedWindow(value, half, Bits.TestBit(value, length - 1));
  }

  /** The two branches of `decode_signed` for a sign-bit weight `h`. */
  lemma SignedWindow(x: int, h: int, bit: bool)
    requires h >= 1 && (bit <==> x % (2 * h) >= h)
    ensures var low := x % h;
      var r := if !bit then low else -(((h - 1) - low) + 1);
      -h <= r < h && (r - x) % (2 * h) == 0
  {
    Bits.ResidueSplit(x, h);
    var low, m := x % h, x % (2 * h);
    if bit {
      assert -(((h - 1) - low) + 1) - x == (m - x) - 2 * h;
      Bits.ShiftMultiple(m - x, 2 * h);
    }
  }

  /** On `length`-bit values `decode_signed` is the usual two's-complement
      reading: the value itself below the sign bit, the value minus
      `2^length` from it on. */
  lemma DecodeSignedRange(value: int, length: nat)
    requires length >= 1 && 0 <= value < Bits.Pow2(length)
    ensures DecodeSigned(value, length) ==
      if value < Bits.Pow2(length - 1) then value else value - Bits.Pow2(length)
  {
    var r := DecodeSigned(value, length);
    var p := Bits.Pow2(length);
    DecodeSignedWindow(value, length);
    assert p == 2 * Bits.Pow2(length - 1);
    var c := if value < Bits.Pow2(length - 1) then value else value - p;
    assert (r - c) % p == 0 by {
      if c != value { Bits.ShiftMultiple(r - value, p); }
    }
    Bits.SmallMultiple(r - c, p);
  }

  /** The extension words `single_operand` reads: one for every mode-1
      operand (through R3 too, where the instruction set has the constant 1
      and no word) and for an immediate (mode 3 through R0). */
  function OperandWords(mode: nat, reg: nat): nat
  {
    if mode == 1 || (mode == 3 && reg == 0) then 1 else 0
  }

  /** The extension words an operand takes in the instruction set: one for
      indexed, symbolic and absolute operands (mode 1 through any register
      but the generator R3) and for an immediate (mode 3 through R0); the
      generator forms take none. */
  function InstructionWords(mode: nat, reg: nat): nat
  {
    if (mode == 1 && reg != 3) || (mode == 3 && reg == 0) then 1 else 0
  }

  /** The extension words the two-operand source decoders read: only the
      symbolic (mode 1 through R0), absolute (mode 1 through R2) and
      immediate (mode 3 through R0) forms read one. */
  function SourceWords(mode: nat, reg: nat): nat
  {
    if (mode == 1 && (reg == 0 || reg == 2)) || (mode == 3 && reg == 0) then 1 else 0
  }

  /** The constants the generators R2 and R3 supply in the instruction set,
      by addressing mode: R2 gives 4 and 8 in modes 2 and 3, R3 gives 0, 1,
      2 and -1 in modes 0 to 3. */
  function Generator(mode: nat, reg: nat): Option<int>
  {
    if reg == 2 && mode == 2 then Some(4)
    else if reg == 2 && mode == 3 then Some(8)
    else if reg == 3 && mode == 0 then Some(0)
    else if reg == 3 && mode == 1 then Some(1)
    else if reg == 3 && mode == 2 then Some(2)
    else if reg == 3 && mode == 3 then Some(-1)
    else None
  }

  /** The source forms that read an extension word are among those that
      take one, and the word is missed exactly for an indexed source. */
  lemma SourceWordsBelow(mode: nat, reg: nat)
    ensures SourceWords(mode, reg) <= InstructionWords(mode, reg)
    ensures SourceWords(mode, reg) < InstructionWords(mode, reg) <==>
      mode == 1 && reg != 0 && reg != 2 && reg != 3
  {
  }

  /** `single_operand` reads the instruction set's words, and one more
      exactly for the constant 1 (mode 1 through R3). */
  lemma OperandWordsAbove(mode: nat, reg: nat)
    ensures InstructionWords(mode, reg) <= OperandWords(mode, reg)
    ensures InstructionWords(mode, reg) < OperandWords(mode, reg) <==> mode == 1 && reg == 3
    ensures InstructionWords(mode, reg) == 0 <==>
      (mode != 1 && (mode != 3 || reg != 0)) || Generator(mode, reg).Some?
  {
  }
}
