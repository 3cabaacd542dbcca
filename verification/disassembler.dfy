/** msp430.py's `MSP430_disassembler`: one instruction at a time, the
    opcode word is looked up in the opcode table and its operands are
    decoded, reading the extension words that follow it. The listing is
    kept structured (`Listing`, `Operand`) and `Line` writes it out the way
    the source formats it. */
module Disassembler {
  import opened Results
  import opened AddressSpace
  import Catalog
  import Text
  import Bits

  /** An operand as the disassembler writes it. */
  datatype Operand =
    | Register(reg: nat)             // R4
    | StackPointer                   // SP
    | StatusRegister                 // SR
    | Indexed(offset: int, reg: nat) // 2(R4)
    | Symbolic(addr: int)            // 123
    | Absolute(addr: int)            // &123
    | Indirect(reg: nat)             // @R4
    | AutoIncrement(reg: nat)        // @R4+
    | Immediate(value: int)          // #5
    | Missing                        // nothing is written

  /** The addressing mode and register a written operand designates, as a
      reader of the listing takes it. */
  function Fields(op: Operand): Option<(nat, nat)>
  {
    match op
    case Register(r) => Some((0, r))
    case StackPointer => Some((0, 1))
    case StatusRegister => Some((0, 2))
    case Indexed(_, r) => Some((1, r))
    case Symbolic(_) => Some((1, 0))
    case Absolute(_) => Some((1, 2))
    case Indirect(r) => Some((2, r))
    case AutoIncrement(r) => Some((3, r))
    case Immediate(_) => Some((3, 0))
    case Missing => None
  }

  /** The numbers a written operand carries that came from extension
      words. */
  function Payload(op: Operand): seq<int>
  {
    match op
    case Indexed(x, _) => [x]
    case Symbolic(x) => [x]
    case Absolute(x) => [x]
    case Immediate(x) => [x]
    case _ => []
  }

  /** The text of an operand: `R{}`, `SP`, `SR`, `{}(R{})`, `{}`, `&{}`,
      `@R{}`, `@R{}+`, `#{}`. Its first character tells its kind. */
  function Render(op: Operand): (s: string)
    ensures op.Missing? <==> s == ""
    ensures |s| > 0 ==> (s[0] == '#' <==> op.Immediate?)
    ensures |s| > 0 ==> (s[0] == '&' <==> op.Absolute?)
    ensures |s| > 0 ==> (s[0] == '@' <==> op.Indirect? || op.AutoIncrement?)
    ensures |s| > 0 ==> (s[0] == 'R' <==> op.Register?)
    ensures |s| > 0 ==> (s[0] == 'S' <==> op.StackPointer? || op.StatusRegister?)
    ensures |s| > 0 ==> (s[|s| - 1] == '+' <==> op.AutoIncrement?)
    ensures |s| > 0 ==> (s[|s| - 1] == ')' <==> op.Indexed?)
  {
    match op
    case Register(r) => "R" + Text.Decimal(r)
    case StackPointer => "SP"
    case StatusRegister => "SR"
    case Indexed(x, r) => Text.Decimal(x) + "(R" + Text.Decimal(r) + ")"
    case Symbolic(x) => Text.Decimal(x)
    case Absolute(x) => "&" + Text.Decimal(x)
    case Indirect(r) => "@R" + Text.Decimal(r)
    case AutoIncrement(r) => "@R" + Text.Decimal(r) + "+"
    case Immediate(x) => "#" + Text.Decimal(x)
    case Missing => ""
  }

  /** What follows the mnemonic. */
  datatype Body =
    | JumpOffset(offset: int)
    | NoOperands
    | OneOperand(op: Operand)
    | TwoOperands(src: Operand, dst: Operand)
    | NotDecoded

  datatype Listing = Listing(mnem: string, body: Body)

  /** The line `disassemble_one` returns: the mnemonic left-justified in
      eight columns, then the operand text. */
  function Line(l: Listing): (s: string)
    ensures l.body.NotDecoded? ==> s == "Operando no decodificado"
    ensures !l.body.NotDecoded? ==> |s| >= 8 && |s| >= |l.mnem| && s[..|l.mnem|] == l.mnem
  {
    var head := Text.PadRight(l.mnem, 8);
    match l.body
    case JumpOffset(x) => head + Text.Decimal(x)
    case NoOperands => head
    case OneOperand(op) => head + Render(op)
    case TwoOperands(src, dst) => head + Render(src) + ", " + Render(dst)
    case NotDecoded => "Operando no decodificado"
  }

  /** The address of the `i`-th word from `pc`. */
  function WordAddress(pc: int, i: nat): int
  {
    pc + 2 * i
  }

  /** The `k` words from `pc` on, read in order with the initialization
      check; the first read that fails gives the fault. */
  function ReadWords(mem: Memory, pc: int, k: nat): (r: Result<seq<int>>)
    ensures r.Ok? ==> |r.value| == k
    ensures r.Ok? <==> forall i :: 0 <= i < k ==> ReadWord(mem, WordAddress(pc, i), true).Ok?
    ensures r.Ok? ==> forall i :: 0 <= i < k ==> ReadWord(mem, WordAddress(pc, i), true) == Ok(r.value[i])
  {
    ReadFrom(mem, pc, 0, k)
  }

  /** The words `i` to `k - 1` from `pc`. */
  function ReadFrom(mem: Memory, pc: int, i: nat, k: nat): (r: Result<seq<int>>)
    requires i <= k
    ensures r.Ok? ==> |r.value| == k - i
    ensures r.Ok? <==> forall j :: i <= j < k ==> ReadWord(mem, WordAddress(pc, j), true).Ok?
    ensures r.Ok? ==> forall j :: i <= j < k ==> ReadWord(mem, WordAddress(pc, j), true) == Ok(r.value[j - i])
    decreases k - i
  {
    if i == k then Ok([])
    else
      var w :- ReadWord(mem, WordAddress(pc, i), true);
      var rest :- ReadFrom(mem, pc, i + 1, k);
      Ok([w] + rest)
  }

  /** The operand of a one-operand instruction from its mode and register
      and the extension words read for it (`single_operand`). */
  function SingleOperandOf(mode: nat, reg: nat, ext: seq<int>): (op: Operand)
    requires mode < 4 && reg < 16 && |ext| == Catalog.OperandWords(mode, reg)
    ensures Fields(op) == Some((mode, reg))
    ensures Payload(op) == ext
  {
    if mode == 0 then Register(reg)
    else if mode == 1 then
      if reg == 2 then Absolute(ext[0]) else Indexed(ext[0], reg)
    else if mode == 2 then Indirect(reg)
    else if reg == 0 then Immediate(ext[0])
    else AutoIncrement(reg)
  }

  /** `single_operand(opcode, pc)`: the PC past the operand's extension
      word, if any, and the operand. */
  function SingleOperand(mem: Memory, w: int, pc: int): (r: Result<(int, Operand)>)
    ensures var (mode, reg) := Catalog.SingleSd(w);
      r.Ok? ==> r.value.0 == pc + 2 * Catalog.OperandWords(mode, reg) && Fields(r.value.1) == Some((mode, reg))
    ensures var (mode, reg) := Catalog.SingleSd(w);
      r.Err? ==> Catalog.OperandWords(mode, reg) == 1 && ReadWord(mem, pc, true).Err?
  {
    var (mode, reg) := Catalog.SingleSd(w);
    var ext :- ReadWords(mem, pc, Catalog.OperandWords(mode, reg));
    Ok((pc + 2 * |ext|, SingleOperandOf(mode, reg, ext)))
  }

  /** The source of a two-operand instruction (`double_operand`, first
      half): register mode writes R0, SP, SR, `#0` for R3 and `R{}`
      otherwise; of the other modes only the symbolic, absolute and
      immediate forms and the constant generators are written. */
  function SourceOperand(mode: nat, reg: nat, ext: seq<int>): (op: Operand)
    requires mode < 4 && reg < 16 && |ext| == Catalog.SourceWords(mode, reg)
    ensures Catalog.Generator(mode, reg).None? && !op.Missing? ==> Fields(op) == Some((mode, reg)) && Payload(op) == ext
    ensures op.Missing? <==> mode != 0 && Catalog.SourceWords(mode, reg) == 0 && (Catalog.Generator(mode, reg).None? || mode == 1)
  {
    if mode == 0 then
      if reg == 0 then Register(0)
      else if reg == 1 then StackPointer
      else if reg == 2 then StatusRegister
      else if reg == 3 then Immediate(0)
      else Register(reg)
    else if mode == 1 then
      if reg == 0 then Symbolic(ext[0])
      else if reg == 2 then Absolute(ext[0])
      else Missing
    else if mode == 2 then
      if reg == 2 then Immediate(4)
      else if reg == 3 then Immediate(2)
      else Missing
    else
      if reg == 0 then Immediate(ext[0])
      else if reg == 2 then Immediate(8)
      else if reg == 3 then Immediate(reg)
      else Missing
  }

  /** The constant generators as the disassembler writes them: the
      instruction set's constant, except that R3 in mode 3 is written `#3`
      where the constant is -1 and R3 in mode 1 (the constant 1) is not
      written at all. */
  lemma SourceConstants(mode: nat, reg: nat)
    requires mode < 4 && reg < 16 && Catalog.Generator(mode, reg).Some?
    ensures Catalog.SourceWords(mode, reg) == 0
    ensures (mode, reg) == (3, 3) ==> SourceOperand(mode, reg, []) == Immediate(3) && Catalog.Generator(mode, reg) == Some(-1)
    ensures (mode, reg) == (1, 3) ==> SourceOperand(mode, reg, []) == Missing
    ensures (mode, reg) != (3, 3) && (mode, reg) != (1, 3) ==> SourceOperand(mode, reg, []) == Immediate(Catalog.Generator(mode, reg).value)
  {
  }

  /** The destination of a two-operand instruction (`double_operand`,
      second half): a register, or an index off a register. */
  function DestinationOperand(mode: nat, reg: nat, ext: seq<int>): (op: Operand)
    requires mode < 2 && reg < 16 && |ext| == mode
    ensures Fields(op) == Some((mode, reg)) && Payload(op) == ext
  {
    if mode == 0 then Register(reg) else Indexed(ext[0], reg)
  }

  /** The extension words a two-operand instruction's operands read. */
  function DoubleWords(w: int): nat
  {
    Catalog.SourceWords(Catalog.DoubleSrc(w).0, Catalog.DoubleSrc(w).1) + Catalog.DoubleDst(w).0
  }

  /** Both operands from the opcode word and its extension words: the
      source's word, when it has one, comes first. */
  function DoubleOperandsOf(w: int, ext: seq<int>): (ops: (Operand, Operand))
    requires |ext| == DoubleWords(w)
    ensures var (smode, sreg) := Catalog.DoubleSrc(w);
      var n := Catalog.SourceWords(smode, sreg);
      Catalog.Generator(smode, sreg).None? && !ops.0.Missing? ==>
        Fields(ops.0) == Some((smode, sreg)) && Payload(ops.0) == ext[..n]
    ensures Fields(ops.1) == Some(Catalog.DoubleDst(w))
    ensures Catalog.DoubleDst(w).0 == 1 ==> Payload(ops.1) == [ext[|ext| - 1]]
  {
    var (smode, sreg) := Catalog.DoubleSrc(w);
    var (dmode, dreg) := Catalog.DoubleDst(w);
    var n := Catalog.SourceWords(smode, sreg);
    (SourceOperand(smode, sreg, ext[..n]), DestinationOperand(dmode, dreg, ext[n..]))
  }

  /** `double_operand(opcode, pc)`: the PC past both operands' extension
      words and the two operands. */
  function DoubleOperand(mem: Memory, w: int, pc: int): (r: Result<(int, (Operand, Operand))>)
    ensures r.Ok? ==> r.value.0 == pc + 2 * DoubleWords(w)
    ensures r.Err? ==> exists i :: 0 <= i < DoubleWords(w) && ReadWord(mem, WordAddress(pc, i), true).Err?
    ensures DoubleWords(w) == 0 ==> r.Ok?
  {
    var ext :- ReadWords(mem, pc, DoubleWords(w));
    Ok((pc + 2 * |ext|, DoubleOperandsOf(w, ext)))
  }

  /** The mnemonic with `.B` appended for a byte operation. */
  function Suffixed(name: string, byteOp: bool): (s: string)
    ensures |s| >= |name| && s[..|name|] == name
    ensures byteOp <==> |s| > |name|
  {
    name + (if byteOp then ".B" else "")
  }

  /** The extension words `disassemble_one` reads after an opcode word of
      the given form: one for a single operand in mode 1 or an immediate,
      one for a symbolic, absolute or immediate source, and one for an
      indexed destination. */
  function WordsRead(w: int, form: Catalog.Form): nat
  {
    match form
    case Single => Catalog.OperandWords(Catalog.SingleSd(w).0, Catalog.SingleSd(w).1)
    case SingleBW => Catalog.OperandWords(Catalog.SingleSd(w).0, Catalog.SingleSd(w).1)
    case Double => DoubleWords(w)
    case _ => 0
  }

  /** The listing of an opcode word found in the table, with the PC after
      its extension words. */
  function Decode(mem: Memory, w: int, pc: int, e: Catalog.Entry): (r: Result<(int, Listing)>)
    ensures r.Ok? ==> r.value.0 == pc + 2 * WordsRead(w, e.form)
    ensures e.form.Jmp? ==> r == Ok((pc, Listing(e.name, JumpOffset(Catalog.DecodeSigned(w % 0x400, 10) * 2))))
    ensures r.Ok? && (e.form.SingleBW? || e.form.Double?) ==> r.value.1.mnem == Suffixed(e.name, Catalog.ByteOp(w))
    ensures r.Ok? && (e.form.Single? || e.form.SingleReti?) ==> r.value.1.mnem == e.name
    ensures WordsRead(w, e.form) == 0 ==> r.Ok?
  {
    match e.form
    case Jmp => Ok((pc, Listing(e.name, JumpOffset(Catalog.DecodeSigned(w % 0x400, 10) * 2))))
    case SingleReti => Ok((pc, Listing(e.name, NoOperands)))
    case Single =>
      var (pc', op) :- SingleOperand(mem, w, pc);
      Ok((pc', Listing(e.name, OneOperand(op))))
    case SingleBW =>
      var (pc', op) :- SingleOperand(mem, w, pc);
      Ok((pc', Listing(Suffixed(e.name, Catalog.ByteOp(w)), OneOperand(op))))
    case Double =>
      var (pc', ops) :- DoubleOperand(mem, w, pc);
      Ok((pc', Listing(Suffixed(e.name, Catalog.ByteOp(w)), TwoOperands(ops.0, ops.1))))
    case _ => Ok((pc, Listing("", NotDecoded)))
  }

  /** `disassemble_one(pc)`: None for a word the table does not know,
      otherwise the PC of the next instruction and the listing. A read
      that fails, of the opcode word or of an extension word, is the
      fault. */
  function DisassembleOne(mem: Memory, pc: int): (r: Result<Option<(int, Listing)>>)
    ensures ReadWord(mem, pc, true).Err? ==> r == Err(ReadWord(mem, pc, true).fault)
    ensures ReadWord(mem, pc, true).Ok? ==>
      var w := ReadWord(mem, pc, true).value;
      && (Catalog.FindOpcode(w).None? ==> r == Ok(None))
      && (r.Ok? && r.value.Some? ==>
            && Catalog.FindOpcode(w).Some?
            && r.value.value.0 == pc + 2 + 2 * WordsRead(w, Catalog.FindOpcode(w).value.form))
  {
    var w :- ReadWord(mem, pc, true);
    match Catalog.FindOpcode(w)
    case None => Ok(None)
    case Some(e) =>
      var (pc', l) :- Decode(mem, w, pc + 2, e);
      Ok(Some((pc', l)))
  }

  /** No entry of the opcode table has a form the disassembler leaves
      undecoded. */
  lemma TableFormsDecoded(e: Catalog.Entry)
    requires e in Catalog.Opcodes
    ensures e.form.Jmp? || e.form.SingleReti? || e.form.Single? || e.form.SingleBW? || e.form.Double?
  {
  }

  /** A jump is written with twice its signed ten-bit offset, an even
      number in `[-1024, 1022]`. */
  lemma JumpOffsetRange(w: int)
    ensures var x := Catalog.DecodeSigned(w % 0x400, 10) * 2;
      -1024 <= x <= 1022 && x % 2 == 0
  {
    Catalog.DecodeSignedWindow(w % 0x400, 10);
    assert Bits.Pow2(9) == 512 by { Bits.Pow2Bytes(); }
  }
}
