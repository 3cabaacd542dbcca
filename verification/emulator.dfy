/** msp430.py's `MSP430_emulator`: the machine is a register file and an
    address space; `single_step` fetches one word at PC, decodes it with
    the opcode table and, for a two-operand instruction, fetches the
    operands, applies the operation and stores its result. */
module Emulator {
  import opened Results
  import opened RegisterFile
  import opened AddressSpace
  import Catalog
  import Alu

  datatype Machine = Machine(regs: Regs, mem: Memory)

  /** `MSP430.__init__`: PC from the reset vector at 0xfffe, SP just past
      the area named "RAM". */
  function Boot(mem: Memory): (r: Result<Machine>)
    ensures Lookup(mem, "RAM").None? ==> r == Err(UnknownArea("RAM"))
    ensures r.Ok? ==> Lookup(mem, "RAM").Some? && r.value.mem == mem
    ensures r.Ok? ==> Ok(r.value.regs[PC]) == ReadWord(mem, 0xfffe, true)
    ensures r.Ok? ==> r.value.regs[SP] == Lookup(mem, "RAM").value.base + Lookup(mem, "RAM").value.size
    ensures r.Ok? ==> forall i :: 2 <= i < 16 ==> r.value.regs[i] == 0
    ensures Lookup(mem, "RAM").Some? && ReadWord(mem, 0xfffe, true).Ok? ==> r.Ok?
  {
    match Lookup(mem, "RAM")
    case None => Err(UnknownArea("RAM"))
    case Some(ram) =>
      var pc :- ReadWord(mem, 0xfffe, true);
      Ok(Machine(NewRegisters(pc, ram.base + ram.size), mem))
  }

  /** The (mode, register) pairs `get_src` yields a value for. */
  predicate SourceDefined(mode: nat, reg: nat)
  {
    || mode == 0
    || (mode == 1 && (reg == PC || reg == CG1))
    || (mode == 2 && reg == CG1)
    || (mode == 3 && (reg == PC || reg == CG1 || reg == CG2))
  }

  /** The constants the generators give in the modes that read no
      memory. */
  function Generated(mode: nat, reg: nat): Option<int>
  {
    if mode == 2 && reg == CG1 then Some(4)
    else if mode == 3 && reg == CG1 then Some(8)
    else if mode == 3 && reg == CG2 then Some(-1)
    else None
  }

  /** The constants `get_src` supplies are the instruction set's; of the
      generator pairs it leaves out R3 in modes 0 to 2 (0, 1 and 2): mode 0
      reads R3 as a register, modes 1 and 2 yield no value. */
  lemma GeneratedConstants(mode: nat, reg: nat)
    ensures Generated(mode, reg).Some? ==> Generated(mode, reg) == Catalog.Generator(mode, reg)
    ensures Catalog.Generator(mode, reg).Some? && Generated(mode, reg).None? <==> reg == 3 && mode < 3
  {
  }

  /** `get_src(pc, mode, reg)`: the operand and the PC past the words it
      consumed. Where the source falls through and returns None, the
      caller's unpacking raises; here that is `NoSourceValue`. */
  function GetSrc(regs: Regs, mem: Memory, pc: int, mode: nat, reg: nat): (r: Result<(int, int)>)
    requires mode < 4 && reg < 16
    ensures !SourceDefined(mode, reg) ==> r == Err(NoSourceValue(mode, reg))
    ensures r.Ok? ==> SourceDefined(mode, reg) && r.value.0 == pc + 2 * Catalog.SourceWords(mode, reg)
    ensures mode == 0 ==> r == Ok((pc, regs[reg]))
    ensures Generated(mode, reg).Some? ==> r == Ok((pc, Generated(mode, reg).value))
    // indexed through PC and absolute through CG1: the offset word at `pc`
    // is read unchecked, the operand at `pc + 2 + offset` or at `offset` checked
    ensures mode == 1 && (reg == PC || reg == CG1) && ReadWord(mem, pc, false).Err? ==>
      r == Err(ReadWord(mem, pc, false).fault)
    ensures mode == 1 && reg == PC && ReadWord(mem, pc, false).Ok? ==>
      var w := ReadWord(mem, pc + 2 + ReadWord(mem, pc, false).value, true);
      r == if w.Ok? then Ok((pc + 2, w.value)) else Err(w.fault)
    ensures mode == 1 && reg == CG1 && ReadWord(mem, pc, false).Ok? ==>
      var w := ReadWord(mem, ReadWord(mem, pc, false).value, true);
      r == if w.Ok? then Ok((pc + 2, w.value)) else Err(w.fault)
  {
    if mode == 0 then Ok((pc, regs[reg]))
    else if !SourceDefined(mode, reg) then Err(NoSourceValue(mode, reg))
    else if Generated(mode, reg).Some? then Ok((pc, Generated(mode, reg).value))
    else
      // indexed (1, PC), absolute (1, CG1) or immediate (3, PC): the
      // extension word is read without the initialization check
      var opd :- ReadWord(mem, pc, false);
      if mode == 3 then Ok((pc + 2, opd))
      else
        var v :- ReadWord(mem, if reg == PC then pc + 2 + opd else opd, true);
        Ok((pc + 2, v))
  }

  /** An immediate operand is the word after the instruction, read without
      the initialization check. */
  lemma ImmediateSource(regs: Regs, mem: Memory, pc: int)
    ensures ReadWord(mem, pc, false).Ok? ==> GetSrc(regs, mem, pc, 3, PC) == Ok((pc + 2, ReadWord(mem, pc, false).value))
    ensures ReadWord(mem, pc, false).Err? ==> GetSrc(regs, mem, pc, 3, PC) == Err(ReadWord(mem, pc, false).fault)
  {
  }

  /** `set_dst(pc, mode, reg, newval)`: only register mode stores and hands
      back the PC; the other modes hand back a tuple or None, which
      `single_step` then stores into PC, leaving no usable machine. */
  function SetDst(regs: Regs, pc: int, mode: nat, reg: nat, value: int): (r: Result<(Regs, int)>)
    requires reg < 16
    ensures mode == 0 <==> r.Ok?
    ensures r.Ok? ==> r.value.1 == pc && r.value.0[reg] == value
    ensures r.Ok? ==> forall i :: 0 <= i < 16 && i != reg ==> r.value.0[i] == regs[i]
    ensures r.Err? ==> r == Err(UndefinedDestination(mode))
  {
    if mode == 0 then Ok((regs[reg := value], pc))
    else Err(UndefinedDestination(mode))
  }

  /** The mnemonics `single_step` compares against for jumps and
      single-operand instructions. They are upper case while the table's
      are lower case, so none of these branches is ever taken. */
  const JumpGuards: seq<string> := ["JMP", "JNZ", "JZ", "JC", "JNC", "JL", "JN", "JGE"]
  const SingleBWGuards: seq<string> := ["RRC", "RRA", "PUSH"]
  const SingleGuards: seq<string> := ["SXT", "SWPB", "CALL"]

  predicate StartsUpper(s: string)
  {
    |s| > 0 && 'A' <= s[0] <= 'Z'
  }

  /** No entry of the opcode table carries a guarded mnemonic, so a jump
      never jumps and a single-operand instruction does nothing but
      advance PC. */
  lemma GuardsNeverMatch(e: Catalog.Entry)
    requires e in Catalog.Opcodes
    ensures e.name !in JumpGuards && e.name !in SingleBWGuards && e.name !in SingleGuards
  {
    Catalog.OpcodeNamesLower();
    assert forall g :: g in JumpGuards + SingleBWGuards + SingleGuards ==> StartsUpper(g);
    assert Catalog.StartsLower(e.name);
  }

  /** The DOUBLE branch of `single_step`, from the PC just past the opcode
      word `w` and the register file in which R0 already holds that PC.
      The operation reads both operands, the flags it writes land in SR,
      the result goes to the destination register and PC ends past the
      words the source consumed, whatever was written to R0. A destination
      in memory leaves no machine to continue with. */
  function ExecuteDouble(regs: Regs, mem: Memory, pc: int, w: int, op: Alu.Op2): (r: Result<Regs>)
    ensures Catalog.DoubleDst(w).0 == 1 ==> r.Err?
    ensures r.Ok? ==> r.value[PC] == pc + 2 * Catalog.SourceWords(Catalog.DoubleSrc(w).0, Catalog.DoubleSrc(w).1)
    ensures r.Ok? ==> forall i :: 0 <= i < 16 && i != PC && i != SR && i != Catalog.DoubleDst(w).1 ==> r.value[i] == regs[i]
    ensures Catalog.DoubleSrc(w).0 == 0 && Catalog.DoubleDst(w).0 == 0 ==>
      var sreg, dreg := Catalog.DoubleSrc(w).1, Catalog.DoubleDst(w).1;
      var o := Alu.Perform(op, regs[sreg], regs[dreg], Catalog.ByteOp(w), GetFlag(regs, FlagC));
      && r.Ok?
      && (dreg != PC ==> r.value[dreg] == o.result)
      && (dreg != SR ==> r.value[SR] == Alu.ApplyFlags(regs[SR], o.flags))
  {
    var (dmode, dreg) := Catalog.DoubleDst(w);
    var (smode, sreg) := Catalog.DoubleSrc(w);
    var (pc1, src) :- GetSrc(regs, mem, pc, smode, sreg);
    var (_, dst) :- GetSrc(regs, mem, pc1, dmode, dreg);
    var o := Alu.Perform(op, src, dst, Catalog.ByteOp(w), GetFlag(regs, FlagC));
    var flagged := regs[SR := Alu.ApplyFlags(regs[SR], o.flags)];
    var (stored, pc2) :- SetDst(flagged, pc1, dmode, dreg, o.result);
    Ok(stored[PC := pc2])
  }

  /** What `single_step` does with the opcode word `w` once R0 holds the
      PC past it: an unknown word, a jump, a single-operand instruction
      and `reti` leave the registers as they are. */
  function Dispatch(regs: Regs, mem: Memory, pc: int, w: int): (r: Result<Regs>)
    ensures Catalog.FindOpcode(w).None? || Catalog.FindOpcode(w).value.form != Catalog.Double ==> r == Ok(regs)
    ensures Catalog.FindOpcode(w).Some? && Catalog.FindOpcode(w).value.form == Catalog.Double ==>
      && Alu.OpNamed(Catalog.FindOpcode(w).value.name).Some?
      && r == ExecuteDouble(regs, mem, pc, w, Alu.OpNamed(Catalog.FindOpcode(w).value.name).value)
  {
    match Catalog.FindOpcode(w)
    case None => Ok(regs)
    case Some(e) =>
      if e.form == Catalog.Double then
        Alu.DoubleEntryOp(e);
        match Alu.OpNamed(e.name)
        case None => Err(UnknownMnemonic)
        case Some(op) => ExecuteDouble(regs, mem, pc, w, op)
      else Ok(regs)
  }

  /** The opcode word at PC, read with the initialization check. */
  function Fetch(m: Machine): (r: Result<int>)
  {
    ReadWord(m.mem, m.regs[PC], true)
  }

  /** The rest of `single_step` once the opcode word `w` is fetched: PC
      moves past it and the word is dispatched. Memory is never written. */
  function Execute(m: Machine, w: int): (r: Result<Machine>)
    ensures r.Ok? ==> r.value.mem == m.mem
  {
    var regs :- Dispatch(PastOpcode(m.regs), m.mem, m.regs[PC] + 2, w);
    Ok(Machine(regs, m.mem))
  }

  /** The register file with PC moved past the opcode word. */
  function PastOpcode(regs: Regs): Regs
  {
    regs[PC := regs[PC] + 2]
  }

  /** A word that is not a two-operand instruction (unknown, a jump, a
      single-operand instruction, `reti`) only moves PC past itself. */
  lemma OnlyDoubleExecutes(m: Machine, w: int)
    requires Catalog.FindOpcode(w).None? || Catalog.FindOpcode(w).value.form != Catalog.Double
    ensures Execute(m, w) == Ok(Machine(PastOpcode(m.regs), m.mem))
  {
  }

  /** `single_step()`: a failed fetch stops the emulator with its fault. */
  function SingleStep(m: Machine): (r: Result<Machine>)
    ensures Fetch(m).Err? ==> r == Err(Fetch(m).fault)
    ensures Fetch(m).Ok? ==> r == Execute(m, Fetch(m).value)
  {
    var w :- Fetch(m);
    Execute(m, w)
  }

  /** A two-operand instruction whose destination is in memory stops the
      emulator: `set_dst` does not hand back a PC. */
  lemma MemoryDestinationFails(m: Machine, w: int)
    requires ReadWord(m.mem, m.regs[PC], true) == Ok(w)
    requires Catalog.FindOpcode(w).Some? && Catalog.FindOpcode(w).value.form == Catalog.Double
    requires Catalog.DoubleDst(w).0 == 1
    ensures SingleStep(m).Err?
  {
  }
}
