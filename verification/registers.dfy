/** msp430.py's `Registers`: sixteen registers, the status register R2
    holding the flags as bits in `FL_BITS` order. */
module RegisterFile {
  import opened Results
  import Bits

  const PC: nat := 0
  const SP: nat := 1
  const SR: nat := 2
  const CG1: nat := 2
  const CG2: nat := 3

  /** `FL_BITS`: the flag named at position `k` is bit `k` of SR. */
  const FlagNames: seq<string> := ["C", "Z", "N", "GIE", "NCPU", "NOSC", "SCG0", "SCG1", "V"]

  const FlagC: nat := 0
  const FlagZ: nat := 1
  const FlagN: nat := 2
  const FlagV: nat := 8

  /** `Registers.reg`: a list of sixteen Python ints. */
  type Regs = r: seq<int> | |r| == 16 witness seq(16, _ => 0)

  /** `Registers(pc, sp)`: R0 and R1 as given, every other register 0. */
  function NewRegisters(pc: int, sp: int): (r: Regs)
    ensures r[PC] == pc && r[SP] == sp
    ensures forall i :: 2 <= i < 16 ==> r[i] == 0
  {
    [pc, sp] + seq(14, _ => 0)
  }

  /** `set_reg(reg, value)`. */
  function SetReg(r: Regs, reg: nat, value: int): (r': Regs)
    requires reg < 16
    ensures r'[reg] == value
    ensures forall i :: 0 <= i < 16 && i != reg ==> r'[i] == r[i]
  {
    r[reg := value]
  }

  /** `get_flag(flag)`: bit `flag` of SR. */
  predicate GetFlag(r: Regs, flag: nat)
  {
    Bits.TestBit(r[SR], flag)
  }

  /** `set_flag(flag, newval)`: SR with bit `flag` set or cleared. */
  function SetFlag(r: Regs, flag: nat, on: bool): (r': Regs)
    ensures GetFlag(r', flag) == on
    ensures forall j: nat :: j != flag ==> GetFlag(r', j) == GetFlag(r, j)
    ensures forall i :: 0 <= i < 16 && i != SR ==> r'[i] == r[i]
  {
    r[SR := Bits.SetBit(r[SR], flag, on)]
  }

  /** `FL_BITS.index(name)`: the first position of `name`, None where Python
      raises `ValueError`. */
  function FlagIndex(name: string): (k: Option<nat>)
    ensures k.Some? ==> k.value < |FlagNames| && FlagNames[k.value] == name
    ensures k.Some? ==> forall j :: 0 <= j < k.value ==> FlagNames[j] != name
    ensures k.None? <==> name !in FlagNames
  {
    IndexFrom(name, 0)
  }

  function IndexFrom(name: string, i: nat): (k: Option<nat>)
    requires i <= |FlagNames|
    ensures k.Some? ==> i <= k.value < |FlagNames| && FlagNames[k.value] == name
    ensures k.Some? ==> forall j :: i <= j < k.value ==> FlagNames[j] != name
    ensures k.None? <==> forall j :: i <= j < |FlagNames| ==> FlagNames[j] != name
    decreases |FlagNames| - i
  {
    if i == |FlagNames| then None
    else if FlagNames[i] == name then Some(i)
    else IndexFrom(name, i + 1)
  }

  /** `set_flag_by_name(name, newval)`. */
  function SetFlagByName(r: Regs, name: string, on: bool): (r': Result<Regs>)
    ensures r'.Ok? <==> name in FlagNames
    ensures r'.Ok? ==> r' == Ok(SetFlag(r, FlagIndex(name).value, on))
    ensures r'.Err? ==> r' == Err(UnknownFlag(name))
  {
    match FlagIndex(name)
    case None => Err(UnknownFlag(name))
    case Some(k) => Ok(SetFlag(r, k, on))
  }

  /** `get_flag_by_name(name)`. */
  function GetFlagByName(r: Regs, name: string): (b: Result<bool>)
    ensures b.Ok? <==> name in FlagNames
    ensures b.Ok? ==> b == Ok(GetFlag(r, FlagIndex(name).value))
  {
    match FlagIndex(name)
    case None => Err(UnknownFlag(name))
    case Some(k) => Ok(GetFlag(r, k))
  }

  /** The names the instructions use stand for the bits the model uses. */
  lemma FlagPositions()
    ensures FlagIndex("C") == Some(FlagC) && FlagIndex("Z") == Some(FlagZ)
    ensures FlagIndex("N") == Some(FlagN) && FlagIndex("V") == Some(FlagV)
  {
    assert FlagNames[0] == "C" && FlagNames[1] == "Z" && FlagNames[2] == "N" && FlagNames[8] == "V";
  }

  /** Setting a flag by name and reading it back by name gives the value
      set; every other flag and every other register is unchanged. */
  lemma SetFlagGetFlagByName(r: Regs, name: string, on: bool, other: string)
    requires name in FlagNames && other in FlagNames
    ensures var r' := SetFlagByName(r, name, on).value;
      && GetFlagByName(r', name) == Ok(on)
      && (FlagIndex(other) != FlagIndex(name) ==> GetFlagByName(r', other) == GetFlagByName(r, other))
      && forall i :: 0 <= i < 16 && i != SR ==> r'[i] == r[i]
  {
  }
}
