# MSP430 toolchain core in Dafny

A model of the decode/execute/encode core of a small MSP430 toolchain, written in Python, and of the byte-addressed memory it runs on. The memory is named areas of tri-state cells, each either never written (`None`) or holding a value. The toolchain's own pieces are modelled on top of that memory:

- the Intel HEX record checksum, with the decoding of one `load_intel` line and the one-byte records `save_intel` writes;
- the register file, with the status-register flags in `FL_BITS` order;
- the opcode table and its first-match lookup `find_opcode`, the bit-field extractors and `decode_signed`;
- the disassembler;
- the emulator's addressing-mode resolver `get_src`, the `op_*` transfer functions and `single_step`;
- the assembler's mnemonic dictionaries and its `jmp_`, `single_` and `double_finishup` encoders.

Everything is an immutable datatype and a pure function. Where the Python raises (a failed `assert`, an `IndexError`, a `KeyError`, a `ValueError`, a `TypeError` from unpacking `None`, or `exit(1)`), the model returns `Err` with a `Fault` that names the cause.

Modules, one per file:

| module | file | models |
|---|---|---|
| `Results` | results.dfy | `Option`, `Result`, the faults |
| `Bits` | bits.dfy | Python's `&`, `\|`, `^`, `& ~`, `1 << k` on unbounded ints, bit by bit |
| `Text` | text.dfy | `int(s, 16)`, `"{:0Nx}"`, `"{}"`, `"{:Ns}"`, slicing |
| `AddressSpace` | memory.dfy | `Memory_area`, `Memory` |
| `IntelHex` | intel.dfy | `checksum`, one record of `load_intel` and `save_intel` |
| `RegisterFile` | registers.dfy | `Registers` |
| `Catalog` | catalog.dfy | `OPCODES`, `EMULATED_OPCODES`, `find_opcode`, field extractors, `decode_signed` |
| `Disassembler` | disassembler.dfy | `MSP430_disassembler` |
| `Alu` | alu.dfy | the `op_*` methods, as functions of source, destination, width and carry returning result and flag writes |
| `Emulator` | emulator.dfy | `MSP430.__init__`, `get_src`, `set_dst`, `single_step` |
| `Assembler` | assembler.dfy | `mnemonics`, `mnem_kinds`, the three `finishup` encoders |

Behaviour reproduced as the code has it, and proved as such:

- `op_add` masks the sum with the sign bit alone. The result is therefore 0 or the sign mask, and V is never set (`Alu.Add`).
- `op_sub` compares `(dst & mask) == 1`, which never holds, so C and V are always cleared (`Alu.Sub`).
- `op_cmp` tests V on the difference with its sign inverted, so it misses a real overflow and reports one that did not happen (`Alu.CmpOverflowAsWritten`).
- `int(s, 16)` accepts blanks around the number, a sign, a `0x` prefix and underscores between digits, so a checksum group such as `"-1"` counts as -1 and `" f"` as 15 (`Text.ParseHexLiteral`, `IntelHex.GroupParse`).
- `op_dadd` is a binary add with carry, not a decimal one (`Alu.DaddIsBinary`).
- The disassembler writes the constant generator R3 in mode 3 as `#3`, where the instruction set's constant is -1. It writes nothing for R3 in mode 1 (`Disassembler.SourceConstants`).
- `get_src` returns `None` for several mode/register pairs, and unpacking that raises. The model returns `Err(NoSourceValue)` (`Emulator.GetSrc`).
- In `single_step` the jump and single-operand branches compare the mnemonic with upper-case names. The table's names are lower case, so those branches never run and such an instruction only moves PC past its opcode word (`Emulator.GuardsNeverMatch`, `Emulator.OnlyDoubleExecutes`).
- A two-operand step is defined only for destination mode 0. PC ends past the source's extension words, and this overwrites a result written to R0 (`Emulator.ExecuteDouble`).

Where the code departs from the MSP430 instruction set, the model follows the code. Two examples:

- The instruction set reads the R3 generator in mode 3 as the constant -1, but the disassembler prints `#3`.
- The instruction set's `dadd` is decimal, but the code adds in binary.

## Model

| member | source | states |
|---|---|---|
| AddressSpace.NewArea | memory.py:34-37 | a fresh area has the given base, size and kind and `size` cells (none for a negative size), every one uninitialized |
| AddressSpace.AreaInitialized | memory.py:48-52 | answers whether the cell at `addr` holds a value; fails only where Python list indexing would raise |
| AddressSpace.AreaRead | memory.py:55-60 | fails at or past the end of the area; with the check it fails on an uninitialized cell and never returns `None`; without it it returns the raw cell |
| AddressSpace.AreaReadWord | memory.py:63-71 | an odd address fails; in range it is low byte plus 256 times high byte; with the check an uninitialized cell of the pair fails as uninitialized, without it the `None` arithmetic fails; a word straddling the end of the area fails |
| AddressSpace.AreaWrite | memory.py:74-77 | succeeds exactly where the index is valid; stores the value in that one cell and keeps base, size, kind and every other cell |
| AddressSpace.AreaWriteWord | memory.py:80-85 | needs an even address and room for `addr + 1`; stores `value & 0xff` at `addr` and `value >> 8` at `addr + 1`, every other cell kept |
| AddressSpace.Lookup | memory.py:190 | `self.areas[id]`: the area stored under `id`, absent exactly when no area has that id |
| AddressSpace.Reserve | memory.py:150-151 | afterwards `id` names a fresh, fully uninitialized area; every other id names what it named before; the number of areas grows only for a new id |
| AddressSpace.LocateFirst | memory.py:154-161 | the area found is the first in insertion order whose range holds `addr`; none is found exactly when no area holds it |
| AddressSpace.LocateArea | memory.py:154-161 | returns an id exactly when an area is located, and it is that area's id |
| AddressSpace.LocateAreaSpec | memory.py:154-161 | the id returned names an area with `base <= addr < base + size`; None exactly when no area contains `addr` |
| AddressSpace.Initialized | memory.py:164-167 | fails on an unmapped address; otherwise tells whether the addressed cell holds a value |
| AddressSpace.ReadWord | memory.py:176-179 | fails on an unmapped address and on an odd one, and when `addr + 1` leaves the located area; otherwise the word is the low cell plus 256 times the high cell, and an uninitialized cell of the pair fails as uninitialized with the check and as `None` arithmetic without it |
| AddressSpace.Write | memory.py:170-173 | fails exactly on an unmapped address; otherwise the addressed cell holds the value, the areas keep their layout, and every other area is unchanged |
| AddressSpace.WriteFrame | memory.py:170-173 | `write` changes no cell other than `addr` |
| AddressSpace.WriteWord | memory.py:182-185 | fails on an unmapped or odd address and when `addr + 1` leaves the area; otherwise the layout is kept and every other area is unchanged |
| AddressSpace.WriteWordCells | memory.py:80-85 | after a word write the cell `addr` holds `value & 0xff` and the area's next cell `value >> 8`, which with disjoint areas is the cell `addr + 1` |
| AddressSpace.WriteWordFrame | memory.py:182-185 | `write_word` changes no cell other than `addr` and `addr + 1` |
| AddressSpace.WriteWordReadWord | memory.py:63-85 | a word written reads back, with or without the initialization check, for every value |
| AddressSpace.NextCodeAddress | memory.py:188-194 | `addr + 2` while that is below the end of the area `id`, None past it; an unknown id fails |
| AddressSpace.NextCodeAddressInArea | memory.py:154-194 | for an address of the area `id`, the next code address is given exactly when the same area still holds `addr + 2`, and `locate_area` then finds it |
| IntelHex.GroupParse | memory.py:204 | a text of at most two characters has the value `int(g, 16)` gives it, failure included: two digits, or one digit with a blank or sign in front or a blank behind |
| IntelHex.ReadGroup | memory.py:204 | the loop's `int(s[i:i+2], 16)` is the group's value |
| Text.ParseHex | memory.py:204 | a failure names the text; a non-empty text of hex digits reads as the number it spells; blanks alone fail |
| Text.ParseHexLiteral | memory.py:204 | blanks, a sign, a `0x` or `0x_` prefix, a run of digits with single underscores between them and blanks read as the run's value with the sign |
| Text.ParseHexOnlyLiterals | memory.py:204 | every text `int(_, 16)` accepts is made of those parts and has that value |
| Text.ParseHexAcceptsBlanks | memory.py:204 | `" f"` and `"f\r"` read as 15 |
| Text.ParseHexAcceptsSigns | memory.py:204 | `"-1"` reads as -1 and `"+f"` as 15 |
| Text.ParseHexAcceptsPrefix | memory.py:204 | `"0x1f"` reads as 31 |
| Text.ParseHexAcceptsPrefixUnderscore | memory.py:204 | `"0X_1f"` reads as 31 |
| Text.ParseHexAcceptsUnderscores | memory.py:204 | `"1_f"` reads as 31 |
| Text.ParseHexRejects | memory.py:204 | the empty text, a bare prefix, a sign apart from its digits and underscores at the ends or doubled fail |
| Text.FormatParse | memory.py:204-242 | `int(_, 16)` reads back what `"{:0Nx}"` writes |
| Text.FormatHex | memory.py:241-242 | `"{:0Nx}"` writes only hex digits, exactly `N` of them for a value below `16^N`, and reads back as the value |
| Text.PadRight | msp430.py:370 | `"{:8s}"` keeps the text as its prefix and pads with spaces up to eight columns, never truncating |
| Text.Slice | memory.py:223-225 | Python slicing: the subsequence when the bounds are in range, never longer than `b - a` |
| IntelHex.Checksum | memory.py:197-205 | succeeds exactly when every group parses; the result is below 256 and is the byte sum modulo 256 |
| IntelHex.ComputeChecksum | memory.py:197-205 | the loop over the groups computes the checksum, failing on the first group that does not parse |
| IntelHex.ChecksumDetectsFlip | memory.py:197-220 | a text whose checksum is 0 no longer checks once any one of its hex digits is changed into another |
| IntelHex.ByteSumAppend | memory.py:197-205 | the byte sums of two texts made of whole groups add up |
| IntelHex.WordBytes | memory.py:224 | four hex digits read as a word are two groups, its high and its low byte |
| IntelHex.DocumentedRecordChecksum | memory.py:197-205 | the documented example record sums to 0x400, so its checksum is 0 |
| IntelHex.RecordBytes | memory.py:231-232 | the `n` data bytes are `int(line[9+2i:11+2i], 16)` in order; failure exactly when one of them does not parse |
| IntelHex.DecodeRecord | memory.py:214-232 | a line without a leading ':' fails; a non-zero checksum fails; type 1 ends the file, type 3 is skipped, any other type is data whose address and byte count are the line's fields (a negative count gives no bytes) and whose bytes are the line's byte fields in order |
| IntelHex.EndOfFileRecord | memory.py:244 | the closing line `:00000001ff` decodes to the end-of-file record |
| IntelHex.LoadBytesMapped | memory.py:231-233 | loading a data record fails exactly when one of its addresses lies in no area |
| IntelHex.LoadBytes | memory.py:231-233 | writing a record's bytes one after another keeps every area's base, size and kind |
| IntelHex.LoadBytesFrame | memory.py:231-233 | loading a data record leaves every cell outside its addresses as it was |
| IntelHex.LoadBytesCell | memory.py:231-233 | after loading, byte `i` of the record sits in the cell `address + i` |
| IntelHex.LoadRecord | memory.py:226-233 | only a data record touches memory, and it writes its bytes from its address on |
| IntelHex.Fill | memory.py:242 | the appended checksum byte is below 256 and brings the byte sum to a multiple of 256 |
| IntelHex.EncodeRecord | memory.py:241-242 | a record line starts with ':' and, for an address below 0x10000 and a cell value from 0 to 255, is 13 characters long |
| IntelHex.EncodeRecordChecksum | memory.py:241-242 | the text after the colon of a record `save_intel` writes for an address below 0x10000 and a cell value from 0 to 255 has checksum 0 |
| IntelHex.EncodeDecodeRecord | memory.py:214-242 | a record `save_intel` writes for a cell value from 0 to 255 at an address below 0x10000 decodes, on loading, to that value at that address |
| RegisterFile.NewRegisters | msp430.py:70-73 | R0 holds the given PC, R1 the given SP, every other register 0 |
| RegisterFile.SetReg | msp430.py:76-77 | the register holds the value and every other register is unchanged |
| RegisterFile.SetFlag | msp430.py:84-88 | the flag reads back as set or cleared; every other SR bit and every other register is unchanged |
| RegisterFile.FlagIndex | msp430.py:92 | the first position of the name in `FL_BITS`; absent exactly when the name is not in the tuple |
| RegisterFile.SetFlagByName | msp430.py:91-93 | succeeds exactly for the names in `FL_BITS`, and then sets the bit at the name's position; any other name fails |
| RegisterFile.GetFlagByName | msp430.py:102-106 | succeeds exactly for the names in `FL_BITS`, and then reads the bit at the name's position |
| RegisterFile.FlagPositions | msp430.py:64 | C, Z, N and V are bits 0, 1, 2 and 8 of SR |
| RegisterFile.SetFlagGetFlagByName | msp430.py:84-106 | a flag set by name reads back by name; the other flags and the other registers are unchanged |
| Catalog.Apply | msp430.py:212 | `opcode & mask` rounds the 16-bit word down to a multiple of 0x1000, 0x400 or 0x80 for `M4`, `M6` or `M9` |
| Catalog.FindIn | msp430.py:211-214 | finds the first entry from `i` on whose masked word equals its value, and none exactly when no entry matches |
| Catalog.FindOpcodeFirst | msp430.py:207-214 | `find_opcode` fails exactly when no entry matches, and otherwise returns the first entry that does |
| Catalog.FindOpcode | msp430.py:207-214 | a found entry is in the table and the word masked with its mask equals its value |
| Catalog.FirstMatch | msp430.py:211-213 | the entry found is the first matching one: every entry before it fails to match |
| Catalog.OpcodeNamesLower | msp430.py:134-171 | every mnemonic of the opcode table starts with a lower-case letter |
| Catalog.TableShape | msp430.py:134-171 | seven `M9` single-operand entries, eight `M6` jumps spaced 0x400 apart, twelve `M4` two-operand entries spaced 0x1000 apart |
| Catalog.FindOpcodeByRange | msp430.py:207-214 | `find_opcode` selects exactly the entry that an independent reading of the word's ranges names |
| Catalog.HighWordsDecode | msp430.py:207-214 | every word from 0x2000 to 0xffff decodes as a jump or a two-operand instruction |
| Catalog.LowWordsUndecoded | msp430.py:207-214 | no word below 0x1000 decodes |
| Catalog.SingleSd | msp430.py:217-221 | a mode below 4 and a register below 16 |
| Catalog.DoubleWordFields | msp430.py:225-244 | `double_src`, `double_dst` and `byte_op` read back every field of a two-operand word laid out field by field |
| Catalog.DoubleSrc | msp430.py:225-229 | a source mode below 4 and a register below 16 |
| Catalog.DoubleDst | msp430.py:232-236 | a destination mode of 0 or 1 and a register below 16 |
| Catalog.ByteOpField | msp430.py:239-244 | `byte_op` is true exactly when bit 6 of the word is set |
| Catalog.DecodeSignedWindow | msp430.py:39-44 | the result lies in `[-2^(n-1), 2^(n-1))` and agrees with the value modulo `2^n` |
| Catalog.DecodeSignedRange | msp430.py:39-44 | for `0 <= v < 2^n` the result is `v` when bit `n-1` is clear and `v - 2^n` when it is set |
| Catalog.SourceWordsBelow | msp430.py:308-317 | the two-operand source reads an extension word only where the instruction set has one, and misses it exactly for an indexed source through a register other than R0, R2 and the generator R3 |
| Catalog.OperandWordsAbove | msp430.py:270-276 | `single_operand` reads every word the instruction set gives an operand, and one more exactly for mode 1 through R3, where the generator supplies the constant 1 and no word follows |
| Disassembler.Render | msp430.py:269-345 | an operand's text is empty exactly when nothing is written, and its first and last characters tell its kind |
| Disassembler.Line | msp430.py:365-387 | a decoded line starts with the mnemonic padded to eight columns; an undecoded form gives the fixed message |
| Disassembler.ReadWords | msp430.py:271-345 | succeeds exactly when every extension word reads with the initialization check, and returns those words |
| Disassembler.SingleOperandOf | msp430.py:266-287 | the written operand has the opcode's mode and register and carries exactly the extension words read |
| Disassembler.SingleOperand | msp430.py:262-289 | PC advances by two per extension word (mode 1, or mode 3 through R0); a failure is a failed read of that word |
| Disassembler.SourceOperand | msp430.py:301-335 | the source is written with its own mode, register and extension word, or not at all for the forms the code has no branch for |
| Disassembler.SourceConstants | msp430.py:301-335 | the constant generators are written as their constants, except R3 in mode 3 written `#3` and R3 in mode 1 not written |
| Disassembler.DestinationOperand | msp430.py:339-345 | the destination carries the opcode's mode and register and the index word in mode 1 |
| Disassembler.DoubleOperandsOf | msp430.py:292-347 | the source reads its extension word first, the destination its index word last |
| Disassembler.DoubleOperand | msp430.py:292-347 | PC advances by two per extension word read; a failure is a failed read of one of them; with no words to read it cannot fail |
| Disassembler.Suffixed | msp430.py:378 | `.B` is appended exactly for a byte operation |
| Disassembler.Decode | msp430.py:364-387 | a jump is written with twice its signed ten-bit offset; byte forms carry `.B`; PC advances past the extension words the form reads |
| Disassembler.DisassembleOne | msp430.py:350-389 | a failed opcode read fails; an unknown word gives None; otherwise the next PC is `pc + 2` plus two per extension word |
| Disassembler.TableFormsDecoded | msp430.py:364-387 | every form in the opcode table has a branch, so the undecoded message never appears for a table entry |
| Disassembler.JumpOffsetRange | msp430.py:366 | a written jump offset is even and lies in `[-1024, 1022]` |
| Alu.ApplyFlagsBits | msp430.py:84-88 | each of C, V, Z and N ends as written or as it was, and every other SR bit is unchanged |
| Alu.ApplyFlagsByName | msp430.py:487-490 | the operations' writes by flag name change only SR, and SR ends as the four bit writes make it |
| Alu.WriteOrderIrrelevant | msp430.py:701-704 | `op_add` writing N, Z, C, V in that order leaves SR as the C, V, Z, N order does |
| Alu.Rrc | msp430.py:474-491 | C gets bit 0, V is cleared, Z and N describe the result |
| Alu.RrcRotates | msp430.py:474-491 | on a value of the operand width, the carry and the value rotate together one place right |
| Alu.Rra | msp430.py:494-513 | C gets bit 0, V is cleared, Z and N describe the result |
| Alu.RraHalves | msp430.py:494-513 | on a value of the operand width the result stays in the width and halves its signed reading, rounding down |
| Alu.Swpb | msp430.py:537-540 | SR is not written |
| Alu.SwpbSwaps | msp430.py:537-540 | on a 16-bit value the two bytes change places, so two swaps give the value back |
| Alu.Sxt | msp430.py:542-563 | C is set for a non-zero result, V cleared, Z for zero, N from bit 7 |
| Alu.SxtExtends | msp430.py:542-563 | on a 16-bit value the result read as a signed word equals the low byte read as a signed byte |
| Alu.SxtNegative | msp430.py:542-563 | a byte with bit 7 set is extended with ones, keeping its negative value as a word |
| Alu.SxtPositive | msp430.py:542-563 | a byte with bit 7 clear is extended with zeros, keeping its value |
| Alu.Mov | msp430.py:574-579 | SR is not written; the result is the source modulo the operand size |
| Alu.MovKeeps | msp430.py:574-579 | a source within the width is moved unchanged |
| Alu.And | msp430.py:582-595 | the result lies in the width; C is set for a non-zero result, V cleared, Z and N describe it |
| Alu.BitTest | msp430.py:615-628 | the destination is returned unchanged, with the flags `and` would set |
| Alu.Xor | msp430.py:670-684 | the result lies in the width; V is set when both operands are negative words |
| Alu.Bic | msp430.py:707-723 | SR is not written and the result lies in the width |
| Alu.Bis | msp430.py:740-746 | SR is not written and the result lies in the width |
| Alu.BitwiseResults | msp430.py:582-684 | bit by bit within the width, `and` is the conjunction and `xor` the difference of the operands' bits |
| Alu.ClearSetResults | msp430.py:707-746 | bit by bit within the width, `bic` clears the source's bits and `bis` sets them |
| Alu.XorInvolution | msp430.py:670-684 | `xor` with the same source twice gives the destination back, kept to the width |
| Alu.BisBic | msp430.py:707-746 | `bis` is idempotent, and `bic` after `bis` of the same source clears what `bic` alone clears |
| Alu.Add | msp430.py:686-705 | as written: the result is 0 or the sign mask, according to the sum's sign bit; C and N both say which, V is cleared |
| Alu.Addc | msp430.py:650-668 | the result is source plus destination plus carry modulo the operand size; C and N are its sign bit, Z tells zero, V is set when two operands of one sign give a result of the other |
| Alu.Subc | msp430.py:630-648 | the result is destination minus source plus carry modulo the operand size; C and N are its sign bit; V is set when the destination and the negated source share a sign the result does not |
| Alu.SubcDifference | msp430.py:630-648 | adding the negated source, the carry and the destination gives the difference plus the carry modulo the operand size |
| Alu.Sub | msp430.py:725-738 | the result is destination minus source modulo the operand size; C and V are always cleared, N says whether the source exceeds the destination |
| Alu.Cmp | msp430.py:597-613 | the destination is returned unchanged; C and N describe the truncated difference; V is set when the destination and the negated source share a sign that the difference also has |
| Alu.CmpOverflowAsWritten | msp430.py:609-610 | `cmp` of 1 with 0x8000 overflows without setting V, and `cmp` of 1 with 0xfffe sets V without overflowing |
| Alu.CmpZero | msp430.py:597-613 | Z is set exactly when source and destination agree modulo the operand size |
| Alu.CmpAgreesWithSub | msp430.py:597-613 | `cmp` sets Z exactly when `sub` gives zero |
| Alu.Dadd | msp430.py:748-765 | V is not written |
| Alu.DaddIsBinary | msp430.py:748-765 | `dadd` gives the binary sum `addc` gives, with the same C, Z and N |
| Alu.SubUndoesAddc | msp430.py:725-738 | `sub` of the same source undoes `addc` without carry |
| Alu.SubcUndoesAddc | msp430.py:630-648 | `subc` without carry undoes `addc` without carry |
| Alu.OpNamed | msp430.py:820-831 | the dictionary lookup finds an operation exactly for its twelve keys, and the one stored under the name |
| Alu.DoubleEntriesHaveOps | msp430.py:159-170 | the two-operand entries are the last twelve of the table and their names are the dictionary's keys in the same order |
| Alu.DoubleEntryOp | msp430.py:820-831 | every two-operand entry of the table names an operation, so the lookup never raises |
| Emulator.Boot | msp430.py:200-204 | fails without an area named RAM; otherwise PC is the reset vector at 0xfffe, SP is the end of RAM, every other register 0 |
| Emulator.GeneratedConstants | msp430.py:423-437 | the constants `get_src` supplies are the instruction set's; of the generators it leaves out R3 in modes 0 to 2 |
| Emulator.GetSrc | msp430.py:405-437 | mode 0 gives the register; the R2/R3 generators give 4, 8 and -1; undefined pairs fail; otherwise PC advances by two per extension word; in mode 1 the offset at PC is read unchecked, then the word at `pc + 2 + offset` through R0 or at `offset` through R2 is read with the check |
| Emulator.ImmediateSource | msp430.py:428-431 | an immediate is the word after the instruction, read without the initialization check, and PC moves past it |
| Emulator.SetDst | msp430.py:440-463 | succeeds exactly in register mode, storing the value in that register only and handing back PC |
| Emulator.GuardsNeverMatch | msp430.py:785-856 | no table entry carries one of the upper-case names the jump and single-operand branches test |
| Emulator.ExecuteDouble | msp430.py:809-833 | a memory destination fails; otherwise PC ends past the source words, only SR, the destination and PC change, and a register-to-register step stores the operation's result and flags |
| Emulator.Dispatch | msp430.py:778-858 | an unknown word, a jump, a single-operand instruction and `reti` leave the registers alone; a two-operand entry executes its operation |
| Emulator.Execute | msp430.py:772-861 | a step never writes memory |
| Emulator.OnlyDoubleExecutes | msp430.py:772-861 | any word that is not a two-operand instruction only moves PC past itself |
| Emulator.SingleStep | msp430.py:768-861 | a failed fetch stops the emulator with its fault; otherwise the fetched word is executed |
| Emulator.MemoryDestinationFails | msp430.py:809-833 | a two-operand instruction with a memory destination leaves no machine to continue with |
| Assembler.Position | msp430.py:880-882 | finds the key's position in the dictionary, and none exactly when the key is absent |
| Assembler.Get | msp430.py:922 | `d[key]`: absent exactly when no entry has the key, else that entry's value |
| Assembler.PutGet | msp430.py:880-882 | storing under a key keeps keys unique, makes the key give the new value and leaves every other key as it was |
| Assembler.BuildDrawn | msp430.py:880-882 | the dictionary built from two tables has every mnemonic of both, and each value comes from an entry with that mnemonic |
| Assembler.MnemonicsDrawn | msp430.py:880-882 | `self.mnemonics` holds every mnemonic of both tables, each with the value and kind of one of its entries |
| Assembler.TableKinds | msp430.py:134-198 | emulated mnemonics take one operand or none; the jumps are the only JUMP entries and the two-operand ones the only DOUBLE entries |
| Assembler.KindEntry | msp430.py:880-882 | a JUMP or DOUBLE mnemonic of the dictionary is the table's entry of that name, with its value |
| Assembler.EnterNames | msp430.py:889-891 | one turn of the loop appends the mnemonic to its kind's list and to no other |
| Assembler.IndexFromKeys | msp430.py:887-891 | the loop lists each key under its kind, in the dictionary's order |
| Assembler.IndexInverts | msp430.py:887-891 | a mnemonic is listed under a kind exactly when the dictionary gives it that kind |
| Assembler.MnemKindsInverts | msp430.py:880-891 | `mnem_kinds` inverts `mnemonics` |
| Assembler.TokenFields | msp430.py:1042-1061 | a token's mode and register are within range, and destination forms have mode 0 or 1 |
| Assembler.TokenWords | msp430.py:1042-1061 | an operand has at most one extension word, and a destination has one exactly in indexed mode |
| Assembler.OpcodeOf | msp430.py:922 | the opcode is the dictionary's value for the mnemonic; a missing mnemonic fails |
| Assembler.JmpFinishup | msp430.py:919-923 | one word: the opcode above bit 10 and the offset's low ten bits below; a missing mnemonic fails |
| Assembler.JumpRoundTrip | msp430.py:919-923 | an assembled jump decodes to the jump of the same name, and the disassembler writes back the offset read as signed ten bits, doubled |
| Assembler.SingleFinishupAsWritten | msp430.py:926-949 | as written: every operand form but the immediate gives words; an immediate gives nothing |
| Assembler.SingleFinishup | msp430.py:926-949 | the extension word follows the first word, and for an opcode with the low six bits clear `single_sd` reads back the operand's mode and register |
| Assembler.SingleFields | msp430.py:926-949 | the mode and register placed in the low six bits of a single-operand word are read back by `single_sd` |
| Assembler.SingleAsWrittenAgrees | msp430.py:926-949 | wherever the source has a branch, it produces what the complete encoder produces |
| Assembler.SingleImmediateUnencoded | msp430.py:926-949 | `single_finishup` returns None for `push #5` as written, and the corrected encoder gives `[0x1230, 5]` |
| Assembler.TableEntries | msp430.py:139 | a dictionary drawn from the tables gives `push` 0x1200 and `mov` 0x4000 |
| Assembler.NamedOnce | msp430.py:134-198 | `push` and `mov` each occur once in the opcode table, at their own positions, and never among the emulated mnemonics |
| Assembler.DoubleFinishupAsWritten | msp430.py:952-1025 | as written: a register or absolute destination always gives words; any other destination gives nothing, except after an indexed source |
| Assembler.DoubleFinishup | msp430.py:952-1025 | the source's then the destination's extension words follow the first word, and the decoders read back both modes and registers and no byte operation |
| Assembler.DoubleFields | msp430.py:952-1025 | a word built from an opcode and two operands reads back their modes and registers, no byte operation and the opcode's top four bits |
| Assembler.DoubleAsWrittenAgrees | msp430.py:952-1002 | for every non-symbolic source with a register or absolute destination the source produces what the complete encoder produces |
| Assembler.SymbolicSourceDropsWord | msp430.py:1003-1009 | `mov 123, r4` is the single word 0x4014 as written, whose source field announces an extension word; encoded it is `[0x4014, 123]` |
| Assembler.IndexedSourceMisplaced | msp430.py:975 | `mov 2(r5), 4(r6)` is `[0x4015, 2]` as written, which decodes as a symbolic source into R5; encoded it is `[0x4596, 2, 4]` |
| Assembler.IndexedDestinationUnencoded | msp430.py:958-963 | `double_finishup` returns None for `mov r4, 2(r5)` as written, and the corrected encoder gives `[0x4485, 2]` |
| Assembler.DoubleEntry | msp430.py:159-170 | a DOUBLE mnemonic has an opcode with the low twelve bits clear, from 0x4000 up |
| Assembler.RegisterPairDecodes | msp430.py:958-960 | `Rs, Rd` is the opcode plus `s << 8` plus `d`, read back as register mode through `s` and `d`, word-sized |
| Assembler.DoubleRoundTrip | msp430.py:952-1025 | an assembled two-operand instruction decodes to the entry of the same name |
| Assembler.DoubleOperandsRoundTrip | msp430.py:292-347 | where the disassembler reads the source's word, it reads exactly the words emitted and writes the destination with its register and index |
| Assembler.Assemble | msp430.py:1070-1080 | with the encoders corrected, an instruction assembles exactly when its mnemonic is listed under the kind of its operands |
| Assembler.AssembleWords | msp430.py:919-1025 | an assembled instruction is its first word (opcode with offset, operand fields or nothing) followed by the source's then the destination's extension words |
| Assembler.AssembleAsWritten | msp430.py:919-1080 | as written: a listed mnemonic assembles, and its encoder returns None, so the parser hands back the unencoded tokens and no words, exactly for a one-operand immediate or a two-operand instruction whose destination is neither register nor absolute and whose source is not indexed |
| Assembler.AssembleAgrees | msp430.py:919-1080 | wherever the source's encoders have a branch, the as-written assembler gives what the corrected one gives |

## Left out

- gui_text.py and msp_gui.py: the interactive shell and the GTK front end, which are user interface only.
- tests/profile_instr_lookup.py: a timing script that measures opcode lookup speed.
- File opening, `print`, `exit(1)` and the line loop of `load_intel` and `save_intel` (memory.py:208-244). One line's decoding (`IntelHex.DecodeRecord`), the record's effect on memory (`IntelHex.LoadRecord`) and one written line (`IntelHex.EncodeRecord`) are modelled.
- The "expected checksum" message of `load_intel` (memory.py:218-220), which is output only.
- `dump`, `dump_words`, `dump_mem`, `dump_mem_w`, `range_empty`, `get_size`, `get_base` and `Registers.dump`: formatting and accessors.
- The pyparsing grammar of `make_parser` (msp430.py:1028-1091) is a foreign library. The operand tuples it builds are the `Assembler.Token` datatype. `Assembler.AssembleAsWritten` stands for `code_line`'s choice among the encoders as written; `Assembler.Assemble` makes the same choice with the corrected encoders of the Findings table.
- The assembler's register-name dictionary and `reg_names` (msp430.py:895-898), which feed only the grammar.
- Caseless mnemonic matching (`caseless = True`): the model compares mnemonics exactly.
- `assemble_line` and `from_source` (msp430.py:1094-1100): the first prints and calls the grammar, the second is empty.
- `op_push` and `op_call` (msp430.py:516-534): they write through `self.memory.ram`, which does not exist, and `single_step` never reaches them.
- The conditions of the jump branch of `single_step` (msp430.py:786-807): the guards never match, as `Emulator.GuardsNeverMatch` shows.
- `set_dst` modes 1 to 3 (msp430.py:448-463) hand back a tuple or None. `single_step` would store that into PC, so the model ends with `Err(UndefinedDestination)`.
- `get_reg` and `get_flag` (msp430.py:80-100) are plain reads of the register sequence and of one SR bit (`GetFlag`), stated through `RegisterFile.SetFlag`, and have no rows of their own.
- The `test_*` and `main` functions of both files print their results and read fixed files; the checksum example of the `checksum` docstring is `IntelHex.DocumentedRecordChecksum`.
- `single_finishup` returns a bare int rather than a tuple for `@Rn` and `@Rn+` (msp430.py:944, 947). The model returns a one-word sequence in both cases.
- Assembler.JumpRoundTrip: stated for any dictionary drawn from the tables, `self.mnemonics` among them (`Assembler.MnemonicsDrawn`), rather than for that one constant.
- Assembler.DoubleRoundTrip: stated for any dictionary drawn from the tables, as above.
- Assembler.SymbolicSourceDropsWord, Assembler.IndexedSourceMisplaced, Assembler.IndexedDestinationUnencoded and Assembler.SingleImmediateUnencoded: stated for any dictionary giving `mov` or `push` its table value. `Assembler.TableEntries` shows that the real dictionary does.
- Assembler.AssembleAsWritten: its `None` stands for what pyparsing does when a parse action returns None: it keeps the matched tokens, and `assemble_line` (msp430.py:1094-1096) returns them unchecked. The token list itself is not modelled; the model records only that no words are produced and no failure is signalled.
- Assembler.DoubleOperandsRoundTrip: covers only the sources whose extension word the disassembler reads. An indexed source through a register other than R0, R2 or R3 is not read back, as `Catalog.SourceWordsBelow` shows.
- AddressSpace.WriteWordCells: the cell `addr + 1` is the second byte only when no earlier area also holds `addr + 1`. The `Disjoint` condition states this, because `reserve` does not prevent overlapping areas.
- AddressSpace.AreaInitialized: Python list indexing lets a negative offset count from the end; the model keeps this behaviour (`PyIndex`). The address-space operations never reach it, because `locate_area` only returns an area that contains the address.
- Alu.Add: states the as-written behaviour, because the code masks the sum with the sign bit alone (msp430.py:693). That is not an add.
- Alu.Sub: states the as-written flags. C and V are always cleared, because the code compares `(dst & mask) == 1` (msp430.py:734-735).
- Alu.Swpb, Alu.Bic and Alu.Bis: their contracts state only what SR and the width are. The value itself is stated by `Alu.SwpbSwaps`, `Alu.ClearSetResults` and `Alu.BisBic`.
- Alu.Dadd: the contract states only that V is left alone. The value and the other flags are stated by `Alu.DaddIsBinary`.
- Emulator.ExecuteDouble: states the register result and flags only for register-mode operands. Memory and constant sources reach the same `Perform` through `Emulator.GetSrc`, whose contract gives the values of the register, generator, symbolic and absolute sources; the immediate source's value is stated by the lemma `Emulator.ImmediateSource`. The indirect and indexed sources through other registers have no branch in `get_src` and fail.
- Text.ParseHex: `int(_, 16)` also converts the decimal digits of other scripts (Arabic-Indic, full-width and so on); the model reads the ASCII digits and letters only. The Unicode blanks `int()` skips are modelled (`Text.IsBlank`).
- IntelHex.EncodeRecord: takes a non-negative address and cell value. A cell can hold any int, since `write` stores what it is given and `load_intel` accepts a group such as "-1"; `save_intel` formats a negative value or address with a leading "-" ("-1", "-001"), which is not modelled.
- EncodeRecordChecksum: stated only for 0 <= addr < 0x10000 and 0 <= b < 256. A wider value or address makes the fields longer ("12c" for 300), so the two-character groups no longer line up with the fields, and that case is not modelled.
- EncodeDecodeRecord: stated only for 0 <= addr < 0x10000 and 0 <= b < 256. A record written for a cell above 255 or an address from 0x10000 up has its fields shifted past the positions `load_intel` reads, so it does not decode back; a negative cell or address is written with a "-" and its round trip is not modelled.

## Findings

| source | as written | input that shows it | evidently intended | confidence | as-written member | corrected member |
|---|---|---|---|---|---|---|
| msp430.py:1003-1009 | a symbolic source emits only the first word, without the address | `mov 123, r4` gives `(0x4014,)` | `(0x4014, 123)`: mode 1 through R0 announces an extension word | high; not executed | Assembler.SymbolicSourceDropsWord | Assembler.DoubleFinishup |
| msp430.py:975 | an indexed source with an indexed or symbolic destination adds the source register to the destination field and drops the destination word | `mov 2(r5), 4(r6)` gives `(0x4015, 2)` | `(0x4596, 2, 4)` | high; not executed | Assembler.IndexedSourceMisplaced | Assembler.DoubleFinishup |
| msp430.py:958-963 | a register source with an indexed or symbolic destination has no branch, so `double_finishup` returns None, the parser passes the raw tokens through and no words are produced | `mov r4, 2(r5)` yields the tokens `['mov', ('r', 4), ('(', 2, 5)]` | `(0x4485, 2)` | high; not executed | Assembler.IndexedDestinationUnencoded | Assembler.DoubleFinishup |
| msp430.py:926-949 | an immediate operand of a one-operand instruction has no branch, so `single_finishup` returns None, the parser passes the raw tokens through and no words are produced | `push #5` yields the tokens `['push', ('#', 5)]` | `(0x1230, 5)` | high; not executed | Assembler.SingleImmediateUnencoded | Assembler.SingleFinishup |
