/** Failure-compatible result types shared by every component of the model.
    The Python raises (an `assert`, an `IndexError`, a `TypeError`, a `KeyError`,
    a `ValueError` or `exit(1)`) where this model returns `Err` with the fault. */
module Results {

  datatype Option<+T> = None | Some(value: T)

  /** The faults the modelled code can run into, with the offending context. */
  datatype Fault =
    | Unmapped(addr: int)              // locate_area found no area; `assert id != None`
    | OutOfRange(addr: int)            // `assert (addr - self.base) < self.size`
    | Misaligned(addr: int)            // `assert (addr % 2) == 0`
    | Uninitialized(addr: int)         // `assert self.initialized(addr)`
    | BadIndex(addr: int)              // list index outside the cell list
    | NoneArithmetic(addr: int)        // arithmetic on an uninitialized (None) cell
    | UnknownArea(id: string)          // `self.areas[id]` with an unknown id
    | BadHex(text: string)             // `int(text, 16)` rejects the text
    | NotARecord(line: string)         // hex record line without a leading ':'
    | ChecksumMismatch(line: string)   // hex record whose bytes do not sum to 0
    | NoSourceValue(mode: int, reg: int)   // get_src fell through and returned None
    | UndefinedDestination(mode: int)  // set_dst did not return a plain pc
    | UnknownFlag(name: string)        // `FL_BITS.index(name)` on a name not in the tuple
    | UnknownMnemonic                  // `self.mnemonics[mnem]` on a missing key
    | MalformedOperand                 // an assembler action returned None

  datatype Result<+T> = Ok(value: T) | Err(fault: Fault) {
    predicate IsFailure() { Err? }

    function PropagateFailure<U>(): Result<U>
      requires Err?
    {
      Err(fault)
    }

    function Extract(): T
      requires Ok?
    {
      value
    }
  }
}
