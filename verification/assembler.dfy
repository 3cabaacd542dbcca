/** msp430.py's `MSP430_assembler`: the opcode tables inverted into a
    dictionary by mnemonic and a cross index by operand kind, and the
    encoders the parser calls once it has recognised an instruction's
    operands (`jmp_finishup`, `single_finishup`, `double_finishup`). The
    operand tuples the grammar builds are the `Token` datatype. */
module Assembler {
  import opened Results
  import Catalog
  import Disassembler
  import Bits
  import AddressSpace

  /** `self.mnemonics`: mnemonic to opcode value and operand kind, in
      insertion order. */
  type Dict = seq<(string, (nat, Catalog.Kind))>

  predicate UniqueKeys(d: Dict)
  {
    forall i, j :: 0 <= i < j < |d| ==> d[i].0 != d[j].0
  }

  /** The first position at or after `i` holding `key`. */
  function Position(d: Dict, key: string, i: nat): (k: Option<nat>)
    requires i <= |d|
    ensures k.Some? ==> i <= k.value < |d| && d[k.value].0 == key
    ensures k.None? <==> forall j :: i <= j < |d| ==> d[j].0 != key
    decreases |d| - i
  {
    if i == |d| then None
    else if d[i].0 == key then Some(i)
    else Position(d, key, i + 1)
  }

  /** `d[key]`, None where Python raises `KeyError`. */
  function Get(d: Dict, key: string): (v: Option<(nat, Catalog.Kind)>)
    ensures v.None? <==> forall j :: 0 <= j < |d| ==> d[j].0 != key
    ensures v.Some? ==> exists j :: 0 <= j < |d| && d[j] == (key, v.value)
    ensures UniqueKeys(d) ==> forall j :: 0 <= j < |d| && d[j].0 == key ==> v == Some(d[j].1)
  {
    match Position(d, key, 0)
    case None => None
    case Some(k) => Some(d[k].1)
  }

  /** `d[key] = v`: an existing key keeps its place, a new one goes last. */
  function Put(d: Dict, key: string, v: (nat, Catalog.Kind)): Dict
  {
    match Position(d, key, 0)
    case Some(k) => d[k := (key, v)]
    case None => d + [(key, v)]
  }

  /** Storing under a key keeps the keys unique, makes the key give the
      new value and leaves every other key as it was. */
  lemma PutGet(d: Dict, key: string, v: (nat, Catalog.Kind), k: string)
    requires UniqueKeys(d)
    ensures UniqueKeys(Put(d, key, v))
    ensures Get(Put(d, key, v), k) == if k == key then Some(v) else Get(d, k)
  {
    var d' := Put(d, key, v);
    match Position(d, key, 0)
    case Some(p) =>
      assert d'[p] == (key, v);
      assert forall j :: 0 <= j < |d| && j != p ==> d'[j] == d[j];
      if k != key && Get(d, k).Some? {
        var j :| 0 <= j < |d| && d[j] == (k, Get(d, k).value);
        assert d'[j] == d[j];
      }
    case None =>
      assert d'[|d|] == (key, v);
      assert forall j :: 0 <= j < |d| ==> d'[j] == d[j];
      if k != key && Get(d, k).Some? {
        var j :| 0 <= j < |d| && d[j] == (k, Get(d, k).value);
        assert d'[j] == d[j];
      }
  }

  /** The dictionary comprehension over a table from position `i` on, on
      top of `d`: a later entry with the same mnemonic wins. */
  function Build(d: Dict, es: seq<Catalog.Entry>, i: nat): Dict
    requires i <= |es|
    decreases |es| - i
  {
    if i == |es| then d
    else Build(Put(d, es[i].name, (es[i].value, es[i].kind)), es, i + 1)
  }

  /** The dictionary built from the table `a`, then updated with `b`. */
  function MnemonicsOf(a: seq<Catalog.Entry>, b: seq<Catalog.Entry>): Dict
  {
    Build(Build([], a, 0), b, 0)
  }

  /** `self.mnemonics`: the opcode table, then the emulated mnemonics. */
  const Mnemonics: Dict := MnemonicsOf(Catalog.Opcodes, Catalog.Emulated)

  /** Building keeps the keys unique. */
  lemma {:induction false} BuildUnique(d: Dict, es: seq<Catalog.Entry>, i: nat)
    requires i <= |es| && UniqueKeys(d)
    ensures UniqueKeys(Build(d, es, i))
    decreases |es| - i
  {
    if i < |es| {
      PutGet(d, es[i].name, (es[i].value, es[i].kind), es[i].name);
      BuildUnique(Put(d, es[i].name, (es[i].value, es[i].kind)), es, i + 1);
    }
  }

  /** What the built dictionary holds for `key` comes from an entry of the
      table with that mnemonic, or from the dictionary it was built on. */
  lemma {:induction false} BuildGet(d: Dict, es: seq<Catalog.Entry>, i: nat, key: string)
    requires i <= |es| && UniqueKeys(d)
    ensures var v := Get(Build(d, es, i), key);
      v.Some? ==>
        || (exists j :: i <= j < |es| && es[j].name == key && (es[j].value, es[j].kind) == v.value)
        || Get(d, key) == v
    ensures (exists j :: i <= j < |es| && es[j].name == key) || Get(d, key).Some? ==> Get(Build(d, es, i), key).Some?
    decreases |es| - i
  {
    if i < |es| {
      var d' := Put(d, es[i].name, (es[i].value, es[i].kind));
      PutGet(d, es[i].name, (es[i].value, es[i].kind), key);
      BuildGet(d', es, i + 1, key);
    }
  }

  /** `d` has unique keys, every mnemonic of `a` and of `b` among them, and
      gives each key the value and kind of an entry with that mnemonic. */
  ghost predicate DrawnFrom(d: Dict, a: seq<Catalog.Entry>, b: seq<Catalog.Entry>)
  {
    && UniqueKeys(d)
    && (forall j :: 0 <= j < |a| ==> Get(d, a[j].name).Some?)
    && (forall j :: 0 <= j < |b| ==> Get(d, b[j].name).Some?)
    && (forall key :: Get(d, key).Some? ==>
          || (exists j :: 0 <= j < |a| && a[j].name == key && (a[j].value, a[j].kind) == Get(d, key).value)
          || (exists j :: 0 <= j < |b| && b[j].name == key && (b[j].value, b[j].kind) == Get(d, key).value))
  }

  /** Whatever the two tables, the dictionary built from them is drawn from
      them. */
  lemma BuildDrawn(a: seq<Catalog.Entry>, b: seq<Catalog.Entry>)
    ensures DrawnFrom(MnemonicsOf(a, b), a, b)
  {
    var d0 := Build([], a, 0);
    var d := MnemonicsOf(a, b);
    BuildUnique([], a, 0);
    BuildUnique(d0, b, 0);
    forall key
      ensures (exists j :: 0 <= j < |a| && a[j].name == key) ==> Get(d, key).Some?
      ensures (exists j :: 0 <= j < |b| && b[j].name == key) ==> Get(d, key).Some?
      ensures Get(d, key).Some? ==>
          || (exists j :: 0 <= j < |a| && a[j].name == key && (a[j].value, a[j].kind) == Get(d, key).value)
          || (exists j :: 0 <= j < |b| && b[j].name == key && (b[j].value, b[j].kind) == Get(d, key).value)
    {
      BuildGet([], a, 0, key);
      BuildGet(d0, b, 0, key);
    }
  }

  /** `self.mnemonics` is drawn from the two tables. */
  lemma MnemonicsDrawn()
    ensures DrawnFrom(Mnemonics, Catalog.Opcodes, Catalog.Emulated)
  {
    BuildDrawn(Catalog.Opcodes, Catalog.Emulated);
  }

  /** The emulated mnemonics take one operand or none; in the opcode table
      the jumps are the only JUMP entries and the two-operand instructions
      the only DOUBLE ones. */
  lemma TableKinds()
    ensures forall j :: 0 <= j < |Catalog.Emulated| ==>
      Catalog.Emulated[j].kind == Catalog.OneOperand || Catalog.Emulated[j].kind == Catalog.NoOperand
    ensures forall j :: 0 <= j < |Catalog.Opcodes| ==> (Catalog.Opcodes[j].kind == Catalog.Jump <==> 7 <= j < 15)
    ensures forall j :: 0 <= j < |Catalog.Opcodes| ==> (Catalog.Opcodes[j].kind == Catalog.TwoOperands <==> 15 <= j)
  {
  }

  /** In a dictionary drawn from the tables a mnemonic of kind JUMP is one
      of the eight jumps and a mnemonic of kind DOUBLE one of the twelve
      two-operand entries, with that entry's value. */
  lemma KindEntry(d: Dict, mnem: string)
    requires DrawnFrom(d, Catalog.Opcodes, Catalog.Emulated) && Get(d, mnem).Some?
    ensures Get(d, mnem).value.1 == Catalog.Jump ==>
      exists c :: 7 <= c < 15 && Catalog.Opcodes[c].name == mnem && Catalog.Opcodes[c].form == Catalog.Jmp
        && Get(d, mnem).value.0 == Catalog.Opcodes[c].value == 0x2000 + 0x400 * (c - 7)
    ensures Get(d, mnem).value.1 == Catalog.TwoOperands ==>
      exists c :: 15 <= c < 27 && Catalog.Opcodes[c].name == mnem && Catalog.Opcodes[c].form == Catalog.Double
        && Get(d, mnem).value.0 == Catalog.Opcodes[c].value == 0x4000 + 0x1000 * (c - 15)
  {
    TableKinds();
    Catalog.TableShape();
  }

  /** `self.mnem_kinds`: operand kind to the mnemonics of that kind, in
      the dictionary's order. */
  type KindIndex = seq<(Catalog.Kind, seq<string>)>

  /** The first position at or after `i` of `kind`. */
  function KindPosition(idx: KindIndex, kind: Catalog.Kind, i: nat): (k: Option<nat>)
    requires i <= |idx|
    ensures k.Some? ==> i <= k.value < |idx| && idx[k.value].0 == kind
    ensures k.Some? ==> forall j :: i <= j < k.value ==> idx[j].0 != kind
    ensures k.None? <==> forall j :: i <= j < |idx| ==> idx[j].0 != kind
    decreases |idx| - i
  {
    if i == |idx| then None
    else if idx[i].0 == kind then Some(i)
    else KindPosition(idx, kind, i + 1)
  }

  /** `mnem_kinds[kind]`, empty for a kind never entered. */
  function NamesOf(idx: KindIndex, kind: Catalog.Kind): seq<string>
  {
    match KindPosition(idx, kind, 0)
    case None => []
    case Some(k) => idx[k].1
  }

  /** One turn of the loop: open the kind's list if it is new, then append
      the mnemonic to it. */
  function Enter(idx: KindIndex, kind: Catalog.Kind, key: string): KindIndex
  {
    match KindPosition(idx, kind, 0)
    case None => idx + [(kind, [key])]
    case Some(p) => idx[p := (kind, idx[p].1 + [key])]
  }

  /** Entering a mnemonic appends it to its kind's list and to no other. */
  lemma EnterNames(idx: KindIndex, kind: Catalog.Kind, key: string, k: Catalog.Kind)
    ensures NamesOf(Enter(idx, kind, key), k) == NamesOf(idx, k) + (if k == kind then [key] else [])
  {
    if KindPosition(idx, kind, 0).None? {
      EnterNew(idx, kind, key, k);
    } else {
      EnterExisting(idx, kind, key, k);
    }
  }

  lemma EnterNew(idx: KindIndex, kind: Catalog.Kind, key: string, k: Catalog.Kind)
    requires KindPosition(idx, kind, 0).None?
    ensures NamesOf(Enter(idx, kind, key), k) == NamesOf(idx, k) + (if k == kind then [key] else [])
  {
    var idx' := idx + [(kind, [key])];
    assert Enter(idx, kind, key) == idx';
    if k == kind {
      NewKindLast(idx, kind, [key]);
      assert NamesOf(idx, k) == [];
    } else {
      KindPositionAppend(idx, (kind, [key]), k, 0);
    }
  }

  /** A kind not yet in the index is found at the entry appended for it. */
  lemma NewKindLast(idx: KindIndex, kind: Catalog.Kind, names: seq<string>)
    requires KindPosition(idx, kind, 0).None?
    ensures KindPosition(idx + [(kind, names)], kind, 0) == Some(|idx|)
  {
    var idx' := idx + [(kind, names)];
    assert idx'[|idx|].0 == kind;
    var q := KindPosition(idx', kind, 0);
    assert q.Some?;
    assert forall j :: 0 <= j < |idx| ==> idx'[j] == idx[j];
  }

  lemma EnterExisting(idx: KindIndex, kind: Catalog.Kind, key: string, k: Catalog.Kind)
    requires KindPosition(idx, kind, 0).Some?
    ensures NamesOf(Enter(idx, kind, key), k) == NamesOf(idx, k) + (if k == kind then [key] else [])
  {
    var p := KindPosition(idx, kind, 0).value;
    assert Enter(idx, kind, key) == idx[p := (idx[p].0, idx[p].1 + [key])];
    KindPositionUpdate(idx, p, idx[p].1 + [key], k, 0);
  }

  lemma {:induction false} KindPositionAppend(idx: KindIndex, x: (Catalog.Kind, seq<string>), kind: Catalog.Kind, i: nat)
    requires i <= |idx| && x.0 != kind
    ensures KindPosition(idx + [x], kind, i) == KindPosition(idx, kind, i)
    decreases |idx| - i
  {
    if i < |idx| {
      KindPositionAppend(idx, x, kind, i + 1);
    }
  }

  lemma {:induction false} KindPositionUpdate(idx: KindIndex, p: nat, names: seq<string>, kind: Catalog.Kind, i: nat)
    requires i <= |idx| && p < |idx|
    ensures KindPosition(idx[p := (idx[p].0, names)], kind, i) == KindPosition(idx, kind, i)
    decreases |idx| - i
  {
    if i < |idx| && idx[i].0 != kind {
      KindPositionUpdate(idx, p, names, kind, i + 1);
    }
  }

  /** The loop over the dictionary's items from position `i` on. */
  function IndexFrom(idx: KindIndex, d: Dict, i: nat): KindIndex
    requires i <= |d|
    decreases |d| - i
  {
    if i == |d| then idx
    else IndexFrom(Enter(idx, d[i].1.1, d[i].0), d, i + 1)
  }

  const MnemKinds: KindIndex := IndexFrom([], Mnemonics, 0)

  /** Reference reading: the keys from position `i` on whose kind is
      `kind`, in order. */
  function KeysOfKind(d: Dict, kind: Catalog.Kind, i: nat): seq<string>
    requires i <= |d|
    decreases |d| - i
  {
    if i == |d| then []
    else (if d[i].1.1 == kind then [d[i].0] else []) + KeysOfKind(d, kind, i + 1)
  }

  /** The loop files every key under its kind, in the dictionary's
      order. */
  lemma {:induction false} IndexFromKeys(idx: KindIndex, d: Dict, i: nat, kind: Catalog.Kind)
    requires i <= |d|
    ensures NamesOf(IndexFrom(idx, d, i), kind) == NamesOf(idx, kind) + KeysOfKind(d, kind, i)
    decreases |d| - i
  {
    if i < |d| {
      var idx' := Enter(idx, d[i].1.1, d[i].0);
      var here := if d[i].1.1 == kind then [d[i].0] else [];
      var rest := KeysOfKind(d, kind, i + 1);
      IndexFromKeys(idx', d, i + 1, kind);
      EnterNames(idx, d[i].1.1, d[i].0, kind);
      assert KeysOfKind(d, kind, i) == here + rest;
      assert NamesOf(idx', kind) == NamesOf(idx, kind) + here;
      SeqAssoc(NamesOf(idx, kind), here, rest);
    }
  }

  lemma SeqAssoc<T>(a: seq<T>, b: seq<T>, c: seq<T>)
    ensures a + b + c == a + (b + c)
  {
  }

  lemma {:induction false} KeysOfKindMembers(d: Dict, kind: Catalog.Kind, i: nat, key: string)
    requires i <= |d|
    ensures key in KeysOfKind(d, kind, i) <==> exists j :: i <= j < |d| && d[j].0 == key && d[j].1.1 == kind
    decreases |d| - i
  {
    if i < |d| {
      KeysOfKindMembers(d, kind, i + 1, key);
    }
  }

  /** The kind index of a dictionary with unique keys inverts it: a
      mnemonic is listed under a kind exactly when the dictionary gives it
      that kind. */
  lemma IndexInverts(d: Dict, key: string, kind: Catalog.Kind)
    requires UniqueKeys(d)
    ensures key in NamesOf(IndexFrom([], d, 0), kind) <==> Get(d, key).Some? && Get(d, key).value.1 == kind
  {
    IndexFromKeys([], d, 0, kind);
    assert NamesOf([], kind) == [];
    KeysOfKindMembers(d, kind, 0, key);
  }

  /** `mnem_kinds` inverts `mnemonics`. */
  lemma MnemKindsInverts(key: string, kind: Catalog.Kind)
    ensures key in NamesOf(MnemKinds, kind) <==> Get(Mnemonics, key).Some? && Get(Mnemonics, key).value.1 == kind
  {
    MnemonicsDrawn();
    IndexInverts(Mnemonics, key, kind);
  }

  /** The operand tuples the grammar builds: `("r", n)`, `("(", x, n)`,
      `("&", a)`, `("s", a)`, `("@", ("r", n))`, `("@+", ("r", n))`,
      `("#", v)`. Addresses are parsed unsigned, offsets and immediates
      signed. */
  datatype Token =
    | RegTok(r: nat)
    | IndexedTok(offset: int, r: nat)
    | AbsoluteTok(addr: nat)
    | SymbolicTok(addr: nat)
    | IndirectTok(r: nat)
    | AutoIncTok(r: nat)
    | ImmediateTok(value: int)

  /** A register token names one of the sixteen registers. */
  predicate ValidToken(t: Token)
  {
    match t
    case RegTok(r) => r < 16
    case IndexedTok(_, r) => r < 16
    case IndirectTok(r) => r < 16
    case AutoIncTok(r) => r < 16
    case _ => true
  }

  /** The destination forms the grammar admits (`one_bit_modes`). */
  predicate DestinationToken(t: Token)
  {
    t.RegTok? || t.IndexedTok? || t.AbsoluteTok? || t.SymbolicTok?
  }

  /** The addressing mode and register a token stands for. */
  function TokenFields(t: Token): (f: (nat, nat))
    ensures ValidToken(t) ==> f.0 < 4 && f.1 < 16
    ensures DestinationToken(t) ==> f.0 < 2
  {
    match t
    case RegTok(r) => (0, r)
    case IndexedTok(_, r) => (1, r)
    case AbsoluteTok(_) => (1, 2)
    case SymbolicTok(_) => (1, 0)
    case IndirectTok(r) => (2, r)
    case AutoIncTok(r) => (3, r)
    case ImmediateTok(_) => (3, 0)
  }

  /** The extension word a token carries, if any. */
  function TokenWords(t: Token): (ws: seq<int>)
    ensures |ws| <= 1
    ensures DestinationToken(t) ==> |ws| == TokenFields(t).0
  {
    match t
    case IndexedTok(x, _) => [x]
    case AbsoluteTok(a) => [a]
    case SymbolicTok(a) => [a]
    case ImmediateTok(v) => [v]
    case _ => []
  }

  /** `self.mnemonics[mnem][0]`. */
  function OpcodeOf(d: Dict, mnem: string): (r: Result<nat>)
    ensures r.Ok? <==> Get(d, mnem).Some?
    ensures r.Ok? ==> r.value == Get(d, mnem).value.0
    ensures r.Err? ==> r == Err(UnknownMnemonic)
  {
    match Get(d, mnem)
    case None => Err(UnknownMnemonic)
    case Some(v) => Ok(v.0)
  }

  /** `jmp_finishup`: the opcode with the offset's low ten bits. */
  function JmpFinishup(d: Dict, mnem: string, n: nat): (r: Result<seq<int>>)
    ensures Get(d, mnem).None? ==> r == Err(UnknownMnemonic)
    ensures Get(d, mnem).Some? ==> r.Ok? && |r.value| == 1
    ensures Get(d, mnem).Some? && Get(d, mnem).value.0 % 0x400 == 0 ==>
      r.value[0] % 0x400 == n % 0x400 && r.value[0] / 0x400 == Get(d, mnem).value.0 / 0x400
  {
    var opcode :- OpcodeOf(d, mnem);
    JumpFields(opcode, n);
    Ok([opcode + n % 0x400])
  }

  /** Adding the offset's low ten bits to an opcode with those bits clear
      keeps the opcode above them. */
  lemma JumpFields(opcode: nat, n: nat)
    ensures opcode % 0x400 == 0 ==>
      (opcode + n % 0x400) % 0x400 == n % 0x400 && (opcode + n % 0x400) / 0x400 == opcode / 0x400
  {
    if opcode % 0x400 == 0 {
      Bits.DivModUnique(opcode + n % 0x400, 0x400, opcode / 0x400, n % 0x400);
    }
  }

  /** A jump assembled from any mnemonic of kind JUMP decodes to the jump
      of that name, and the disassembler writes back the offset's low ten
      bits read as a signed number, doubled. */
  lemma JumpRoundTrip(d: Dict, mem: AddressSpace.Memory, mnem: string, n: nat, pc: int)
    requires DrawnFrom(d, Catalog.Opcodes, Catalog.Emulated)
    requires Get(d, mnem).Some? && Get(d, mnem).value.1 == Catalog.Jump
    ensures JmpFinishup(d, mnem, n).Ok?
    ensures var w := JmpFinishup(d, mnem, n).value[0];
      && Catalog.FindOpcode(w).Some?
      && Catalog.FindOpcode(w).value.name == mnem
      && Catalog.FindOpcode(w).value.form == Catalog.Jmp
      && Disassembler.Decode(mem, w, pc, Catalog.FindOpcode(w).value)
           == Ok((pc, Disassembler.Listing(mnem, Disassembler.JumpOffset(Catalog.DecodeSigned(n % 0x400, 10) * 2))))
  {
    KindEntry(d, mnem);
    var c :| 7 <= c < 15 && Catalog.Opcodes[c].name == mnem && Catalog.Opcodes[c].form == Catalog.Jmp
      && Get(d, mnem).value.0 == Catalog.Opcodes[c].value == 0x2000 + 0x400 * (c - 7);
    Bits.DivModUnique(Get(d, mnem).value.0, 0x400, c + 1, 0);
    JumpWordEntry(c, JmpFinishup(d, mnem, n).value[0]);
  }

  /** A word whose bits from 10 up select the jump at position `c` of the
      opcode table decodes to that jump. */
  lemma JumpWordEntry(c: nat, w: int)
    requires 7 <= c < 15 && 0 <= w && w / 0x400 == c + 1
    ensures Catalog.FindOpcode(w) == Some(Catalog.Opcodes[c])
  {
    Bits.DivModUnique(w, 0x1_0000, 0, w);
    Catalog.FindOpcodeByRange(w);
    assert Catalog.EntryByRange(w) == Some(c);
  }

  /** The first word of a one-operand instruction: the mode and register
      in the low byte. */
  function SingleWord(opcode: nat, t: Token): nat
  {
    opcode + TokenFields(t).0 * 0x10 + TokenFields(t).1
  }

  /** `single_finishup` as the source writes it. An immediate operand has
      no branch and the function returns None. */
  function SingleFinishupAsWritten(d: Dict, mnem: string, t: Token): (r: Result<Option<seq<int>>>)
    ensures Get(d, mnem).None? ==> r == Err(UnknownMnemonic)
    ensures Get(d, mnem).Some? ==> r.Ok? && (r.value.None? <==> t.ImmediateTok?)
  {
    var opcode :- OpcodeOf(d, mnem);
    match t
    case RegTok(r) => Ok(Some([opcode + 0x0000 + r]))
    case AbsoluteTok(a) => Ok(Some([opcode + 0x0012, a]))
    case SymbolicTok(a) => Ok(Some([opcode + 0x0010, a]))
    case IndexedTok(x, r) => Ok(Some([opcode + 0x0010 + r, x]))
    case IndirectTok(r) => Ok(Some([opcode + 0x0020 + r]))
    case AutoIncTok(r) => Ok(Some([opcode + 0x0030 + r]))
    case ImmediateTok(_) => Ok(None)
  }

  /** The low byte of `q * 0x40 + mode * 0x10 + reg` gives back the mode
      and the register. */
  lemma SingleFields(q: int, mode: nat, reg: nat)
    ensures mode < 4 && reg < 16 ==> Catalog.SingleSd(q * 0x40 + mode * 0x10 + reg) == (mode, reg)
  {
    if mode < 4 && reg < 16 {
      var w := q * 0x40 + mode * 0x10 + reg;
      Bits.DivModUnique(w, 0x10, q * 4 + mode, reg);
      Bits.DivModUnique(q * 4 + mode, 4, q, mode);
    }
  }

  /** `single_finishup` with every operand form encoded: the first word
      carries the mode and register, and the operand's extension word
      follows. For an opcode that leaves the low six bits clear the
      single-operand decoder reads back the mode, the register and the
      extension word. */
  function SingleFinishup(d: Dict, mnem: string, t: Token): (r: Result<seq<int>>)
    ensures Get(d, mnem).None? ==> r == Err(UnknownMnemonic)
    ensures Get(d, mnem).Some? ==> r.Ok? && |r.value| >= 1 && r.value[1..] == TokenWords(t)
    ensures Get(d, mnem).Some? && Get(d, mnem).value.0 % 0x40 == 0 && ValidToken(t) ==>
      Catalog.SingleSd(r.value[0]) == TokenFields(t)
  {
    var opcode :- OpcodeOf(d, mnem);
    var (mode, reg) := TokenFields(t);
    SingleFields(opcode / 0x40, mode, reg);
    Ok([SingleWord(opcode, t)] + TokenWords(t))
  }

  /** On every operand the source has a branch for, it produces what the
      complete encoder produces. */
  lemma SingleAsWrittenAgrees(d: Dict, mnem: string, t: Token)
    requires !t.ImmediateTok? && Get(d, mnem).Some?
    ensures SingleFinishupAsWritten(d, mnem, t) == Ok(Some(SingleFinishup(d, mnem, t).value))
  {
    var opcode := Get(d, mnem).value.0;
    var w := SingleWord(opcode, t);
    assert SingleFinishup(d, mnem, t) == Ok([w] + TokenWords(t));
    match t
    case RegTok(_) => assert [w] + [] == [w];
    case IndirectTok(_) => assert [w] + [] == [w];
    case AutoIncTok(_) => assert [w] + [] == [w];
    case IndexedTok(x, _) => assert [w] + [x] == [w, x];
    case AbsoluteTok(a) => assert [w] + [a] == [w, a];
    case SymbolicTok(a) => assert [w] + [a] == [w, a];
  }

  /** `push #5` is left unencoded as written; the complete encoder gives the
      push opcode with mode 3 through R0 and the constant after it. */
  lemma SingleImmediateUnencoded(d: Dict)
    requires Get(d, "push") == Some((0x1200, Catalog.OneOperand))
    ensures SingleFinishupAsWritten(d, "push", ImmediateTok(5)) == Ok(None)
    ensures SingleFinishup(d, "push", ImmediateTok(5)) == Ok([0x1230, 5])
  {
    assert SingleFinishup(d, "push", ImmediateTok(5)) == Ok([SingleWord(0x1200, ImmediateTok(5))] + [5]);
    assert [0x1230] + [5] == [0x1230, 5];
  }

  /** A dictionary drawn from the tables holds the table's values for
      `push` and `mov`. */
  lemma TableEntries(d: Dict)
    requires DrawnFrom(d, Catalog.Opcodes, Catalog.Emulated)
    ensures Get(d, "push") == Some((0x1200, Catalog.OneOperand))
    ensures Get(d, "mov") == Some((0x4000, Catalog.TwoOperands))
  {
    NamedOnce("push", 2);
    NamedOnce("mov", 15);
  }

  /** `push` and `mov` each name one entry of the opcode table and none of
      the emulated mnemonics. */
  lemma NamedOnce(name: string, c: nat)
    requires (name, c) == ("push", 2) || (name, c) == ("mov", 15)
    ensures c < |Catalog.Opcodes| && Catalog.Opcodes[c].name == name
    ensures forall j :: 0 <= j < |Catalog.Opcodes| && Catalog.Opcodes[j].name == name ==> j == c
    ensures forall j :: 0 <= j < |Catalog.Emulated| ==> Catalog.Emulated[j].name != name
  {
  }

  /** `double_finishup` as the source writes it: the source operand
      selects a branch and the destination, a register or `&addr`, a
      sub-branch; other destinations fall through to a bare `return`,
      except after an indexed source. */
  function DoubleFinishupAsWritten(d: Dict, mnem: string, s: Token, t: Token): (r: Result<Option<seq<int>>>)
    ensures Get(d, mnem).None? ==> r == Err(UnknownMnemonic)
    ensures Get(d, mnem).Some? ==> r.Ok?
    ensures Get(d, mnem).Some? && r.value.None? ==> !t.RegTok? && !t.AbsoluteTok?
    ensures Get(d, mnem).Some? && !t.RegTok? && !t.AbsoluteTok? ==> (r.value.None? <==> !s.IndexedTok?)
  {
    var opcode :- OpcodeOf(d, mnem);
    match s
    case RegTok(a) =>
      if t.RegTok? then Ok(Some([opcode + 0x0000 + a * 0x100 + t.r]))
      else if t.AbsoluteTok? then Ok(Some([opcode + 0x0082 + a * 0x100, t.addr]))
      else Ok(None)
    case IndexedTok(x, a) =>
      if t.RegTok? then Ok(Some([opcode + 0x0010 + a * 0x100 + t.r, x]))
      else if t.AbsoluteTok? then Ok(Some([opcode + 0x0092 + a * 0x100, x, t.addr]))
      else Ok(Some([opcode + 0x0010 + a, x]))
    case AbsoluteTok(x) =>
      if t.RegTok? then Ok(Some([opcode + 0x0210 + t.r, x]))
      else if t.AbsoluteTok? then Ok(Some([opcode + 0x0292, x, t.addr]))
      else Ok(None)
    case IndirectTok(a) =>
      if t.RegTok? then Ok(Some([opcode + 0x0020 + a * 0x100 + t.r]))
      else if t.AbsoluteTok? then Ok(Some([opcode + 0x00a2 + a * 0x100, t.addr]))
      else Ok(None)
    case AutoIncTok(a) =>
      if t.RegTok? then Ok(Some([opcode + 0x0030 + a * 0x100 + t.r]))
      else if t.AbsoluteTok? then Ok(Some([opcode + 0x00b2 + a * 0x100, t.addr]))
      else Ok(None)
    case SymbolicTok(_) =>
      if t.RegTok? then Ok(Some([opcode + 0x0010 + t.r]))
      else if t.AbsoluteTok? then Ok(Some([opcode + 0x0092, t.addr]))
      else Ok(None)
    case ImmediateTok(v) =>
      if t.RegTok? then Ok(Some([opcode + 0x0030 + t.r, v]))
      else if t.AbsoluteTok? then Ok(Some([opcode + 0x00b2, v, t.addr]))
      else Ok(None)
  }

  /** The first word of a two-operand instruction: source register in bits
      8-11, destination mode in bit 7, source mode in bits 4-5, destination
      register in bits 0-3. */
  function DoubleWordOf(opcode: nat, s: Token, t: Token): nat
  {
    opcode + TokenFields(s).1 * 0x100 + TokenFields(t).0 * 0x80 + TokenFields(s).0 * 0x10 + TokenFields(t).1
  }

  /** The decoders read back the fields `DoubleWordOf` lays out. */
  lemma DoubleFields(opcode: nat, s: Token, t: Token)
    requires DestinationToken(t)
    ensures opcode % 0x1000 == 0 && opcode < 0x1_0000 && ValidToken(s) && ValidToken(t) ==>
      var w := DoubleWordOf(opcode, s, t);
      && Catalog.DoubleSrc(w) == TokenFields(s)
      && Catalog.DoubleDst(w) == TokenFields(t)
      && !Catalog.ByteOp(w)
      && w / 0x1000 == opcode / 0x1000
  {
    if opcode % 0x1000 == 0 && opcode < 0x1_0000 && ValidToken(s) && ValidToken(t) {
      var (smode, sreg) := TokenFields(s);
      var (dmode, dreg) := TokenFields(t);
      Catalog.DoubleWordFields(opcode / 0x1000, sreg, dmode, false, smode, dreg);
    }
  }

  /** `double_finishup` with every source and destination form encoded:
      the first word carries both modes and registers, the source's
      extension word follows, then the destination's. For an opcode with
      the low twelve bits clear the two-operand decoders read back every
      field, and no byte operation. */
  function DoubleFinishup(d: Dict, mnem: string, s: Token, t: Token): (r: Result<seq<int>>)
    requires DestinationToken(t)
    ensures Get(d, mnem).None? ==> r == Err(UnknownMnemonic)
    ensures Get(d, mnem).Some? ==> r.Ok? && |r.value| >= 1 && r.value[1..] == TokenWords(s) + TokenWords(t)
    ensures Get(d, mnem).Some? && Get(d, mnem).value.0 % 0x1000 == 0 && Get(d, mnem).value.0 < 0x1_0000 && ValidToken(s) && ValidToken(t) ==>
      && Catalog.DoubleSrc(r.value[0]) == TokenFields(s)
      && Catalog.DoubleDst(r.value[0]) == TokenFields(t)
      && !Catalog.ByteOp(r.value[0])
      && r.value[0] / 0x1000 == Get(d, mnem).value.0 / 0x1000
  {
    var opcode :- OpcodeOf(d, mnem);
    var (smode, sreg) := TokenFields(s);
    var (dmode, dreg) := TokenFields(t);
    DoubleFields(opcode, s, t);
    Ok([DoubleWordOf(opcode, s, t)] + TokenWords(s) + TokenWords(t))
  }

  /** Wherever the source's branches are right, they agree with the
      complete encoder: a register, indexed, absolute, indirect,
      auto-increment or immediate source with a register or absolute
      destination. */
  lemma DoubleAsWrittenAgrees(d: Dict, mnem: string, s: Token, t: Token)
    requires Get(d, mnem).Some? && !s.SymbolicTok? && (t.RegTok? || t.AbsoluteTok?)
    ensures DoubleFinishupAsWritten(d, mnem, s, t) == Ok(Some(DoubleFinishup(d, mnem, s, t).value))
  {
    var opcode := Get(d, mnem).value.0;
    var w := DoubleWordOf(opcode, s, t);
    assert DoubleFinishup(d, mnem, s, t) == Ok([w] + TokenWords(s) + TokenWords(t));
    var xs, ys := TokenWords(s), TokenWords(t);
    assert |xs| <= 1 && |ys| <= 1;
    if |xs| == 0 && |ys| == 0 {
      assert [w] + xs + ys == [w];
    } else if |xs| == 0 {
      assert [w] + xs + ys == [w, ys[0]];
    } else if |ys| == 0 {
      assert [w] + xs + ys == [w, xs[0]];
    } else {
      assert [w] + xs + ys == [w, xs[0], ys[0]];
    }
  }

  /** `mov 123, r4` as written is the single word 0x4014: the source's
      address is not emitted, although the word's source field (mode 1
      through R0) says an extension word follows. */
  lemma SymbolicSourceDropsWord(d: Dict)
    requires Get(d, "mov") == Some((0x4000, Catalog.TwoOperands))
    ensures DoubleFinishupAsWritten(d, "mov", SymbolicTok(123), RegTok(4)) == Ok(Some([0x4014]))
    ensures Catalog.DoubleSrc(0x4014) == (1, 0) && Catalog.OperandWords(1, 0) == 1
    ensures DoubleFinishup(d, "mov", SymbolicTok(123), RegTok(4)) == Ok([0x4014, 123])
  {
    assert OpcodeOf(d, "mov") == Ok(0x4000);
    assert DoubleWordOf(0x4000, SymbolicTok(123), RegTok(4)) == 0x4014;
    Catalog.DoubleWordFields(4, 0, 0, false, 1, 4);
    assert DoubleFinishup(d, "mov", SymbolicTok(123), RegTok(4)) == Ok([0x4014] + [123] + []);
    assert [0x4014] + [123] + [] == [0x4014, 123];
  }

  /** `mov 2(r5), 4(r6)` as written is `[0x4015, 2]`: R5 lands in the
      destination register field, and the word decodes as a symbolic
      source into R5. */
  lemma IndexedSourceMisplaced(d: Dict)
    requires Get(d, "mov") == Some((0x4000, Catalog.TwoOperands))
    ensures DoubleFinishupAsWritten(d, "mov", IndexedTok(2, 5), IndexedTok(4, 6)) == Ok(Some([0x4015, 2]))
    ensures Catalog.DoubleSrc(0x4015) == (1, 0) && Catalog.DoubleDst(0x4015) == (0, 5)
    ensures DoubleFinishup(d, "mov", IndexedTok(2, 5), IndexedTok(4, 6)) == Ok([0x4596, 2, 4])
  {
    assert OpcodeOf(d, "mov") == Ok(0x4000);
    assert DoubleWordOf(0x4000, IndexedTok(2, 5), IndexedTok(4, 6)) == 0x4596;
    Catalog.DoubleWordFields(4, 0, 0, false, 1, 5);
    assert DoubleFinishup(d, "mov", IndexedTok(2, 5), IndexedTok(4, 6)) == Ok([0x4596] + [2] + [4]);
    assert [0x4596] + [2] + [4] == [0x4596, 2, 4];
  }

  /** `mov r4, 2(r5)` as written has no encoding; the complete encoder
      gives destination mode 1 through R5 with the index after the
      word. */
  lemma IndexedDestinationUnencoded(d: Dict)
    requires Get(d, "mov") == Some((0x4000, Catalog.TwoOperands))
    ensures DoubleFinishupAsWritten(d, "mov", RegTok(4), IndexedTok(2, 5)) == Ok(None)
    ensures DoubleFinishup(d, "mov", RegTok(4), IndexedTok(2, 5)) == Ok([0x4485, 2])
  {
    assert OpcodeOf(d, "mov") == Ok(0x4000);
    assert DoubleWordOf(0x4000, RegTok(4), IndexedTok(2, 5)) == 0x4485;
    assert DoubleFinishup(d, "mov", RegTok(4), IndexedTok(2, 5)) == Ok([0x4485] + [] + [2]);
    assert [0x4485] + [] + [2] == [0x4485, 2];
  }

  /** An opcode of a two-operand instruction: the low twelve bits clear,
      from 0x4000 up to the end of the 16-bit word. */
  predicate DoubleOpcode(v: int)
  {
    v % 0x1000 == 0 && 0x4000 <= v < 0x1_0000
  }

  /** In a dictionary drawn from the tables a mnemonic of kind DOUBLE has
      a two-operand opcode. */
  lemma DoubleEntry(d: Dict, mnem: string)
    requires DrawnFrom(d, Catalog.Opcodes, Catalog.Emulated)
    requires Get(d, mnem).Some? && Get(d, mnem).value.1 == Catalog.TwoOperands
    ensures DoubleOpcode(Get(d, mnem).value.0)
  {
    KindEntry(d, mnem);
    var c :| 15 <= c < 27 && Catalog.Opcodes[c].name == mnem && Catalog.Opcodes[c].form == Catalog.Double
      && Get(d, mnem).value.0 == Catalog.Opcodes[c].value == 0x4000 + 0x1000 * (c - 15);
    Bits.DivModUnique(Get(d, mnem).value.0, 0x1000, c - 11, 0);
  }

  /** `"Rs, Rd"` is the opcode plus `s << 8` plus `d`, which the decoders
      read back as register mode through `s` and `d`, word-sized. */
  lemma RegisterPairDecodes(d: Dict, mnem: string, s: nat, t: nat)
    requires Get(d, mnem).Some? && DoubleOpcode(Get(d, mnem).value.0)
    requires s < 16 && t < 16
    ensures var v := Get(d, mnem).value.0;
      DoubleFinishupAsWritten(d, mnem, RegTok(s), RegTok(t)) == Ok(Some([v + s * 0x100 + t]))
    ensures var w := Get(d, mnem).value.0 + s * 0x100 + t;
      Catalog.DoubleSrc(w) == (0, s) && Catalog.DoubleDst(w) == (0, t) && !Catalog.ByteOp(w)
  {
    DoubleFields(Get(d, mnem).value.0, RegTok(s), RegTok(t));
  }

  /** A two-operand instruction assembled from a DOUBLE mnemonic decodes to
      the entry of that name. */
  lemma DoubleRoundTrip(d: Dict, mnem: string, s: Token, t: Token)
    requires DrawnFrom(d, Catalog.Opcodes, Catalog.Emulated)
    requires Get(d, mnem).Some? && Get(d, mnem).value.1 == Catalog.TwoOperands
    requires ValidToken(s) && ValidToken(t) && DestinationToken(t)
    ensures DoubleFinishup(d, mnem, s, t).Ok?
    ensures var w := DoubleFinishup(d, mnem, s, t).value[0];
      && Catalog.FindOpcode(w).Some?
      && Catalog.FindOpcode(w).value.name == mnem
      && Catalog.FindOpcode(w).value.form == Catalog.Double
  {
    KindEntry(d, mnem);
    var c :| 15 <= c < 27 && Catalog.Opcodes[c].name == mnem && Catalog.Opcodes[c].form == Catalog.Double
      && Get(d, mnem).value.0 == Catalog.Opcodes[c].value == 0x4000 + 0x1000 * (c - 15);
    Bits.DivModUnique(Get(d, mnem).value.0, 0x1000, c - 11, 0);
    DoubleWordEntry(c, DoubleFinishup(d, mnem, s, t).value[0]);
  }

  /** A word whose top four bits select the two-operand entry at position
      `c` of the opcode table decodes to that entry. */
  lemma DoubleWordEntry(c: nat, w: int)
    requires 15 <= c < 27 && 0 <= w && w / 0x1000 == c - 11
    ensures Catalog.FindOpcode(w) == Some(Catalog.Opcodes[c])
  {
    Bits.DivModUnique(w, 0x1_0000, 0, w);
    Catalog.FindOpcodeByRange(w);
    assert Catalog.EntryByRange(w) == Some(c);
  }

  /** The words of a two-operand instruction read back: when the
      disassembler reads the source's extension word (symbolic, absolute,
      immediate and register sources) it reads exactly the words emitted,
      and it writes the destination with its register and extension
      word. */
  lemma DoubleOperandsRoundTrip(opcode: nat, s: Token, t: Token)
    requires DoubleOpcode(opcode)
    requires ValidToken(s) && ValidToken(t) && DestinationToken(t)
    requires |TokenWords(s)| == Catalog.SourceWords(TokenFields(s).0, TokenFields(s).1)
    ensures var w := DoubleWordOf(opcode, s, t);
      var ext := TokenWords(s) + TokenWords(t);
      && Disassembler.DoubleWords(w) == |ext|
      && Disassembler.Fields(Disassembler.DoubleOperandsOf(w, ext).1) == Some(TokenFields(t))
      && Disassembler.Payload(Disassembler.DoubleOperandsOf(w, ext).1) == TokenWords(t)
  {
    DoubleFields(opcode, s, t);
  }

  /** The instruction forms of `code_line`, by the operand kind the
      mnemonic must be listed under. */
  datatype Instruction =
    | JumpLine(mnem: string, offset: nat)
    | SingleLine(mnem: string, operand: Token)
    | DoubleLine(mnem: string, src: Token, dst: Token)
    | BareLine(mnem: string)

  predicate WellFormed(i: Instruction)
  {
    match i
    case JumpLine(_, _) => true
    case SingleLine(_, t) => ValidToken(t)
    case DoubleLine(_, s, t) => ValidToken(s) && ValidToken(t) && DestinationToken(t)
    case BareLine(_) => true
  }

  function KindOf(i: Instruction): Catalog.Kind
  {
    match i
    case JumpLine(_, _) => Catalog.Jump
    case SingleLine(_, _) => Catalog.OneOperand
    case DoubleLine(_, _, _) => Catalog.TwoOperands
    case BareLine(_) => Catalog.NoOperand
  }

  /** One instruction to its words, with the encoders corrected: the
      mnemonic must be listed under the kind of its operands, and
      `JmpFinishup`, `SingleFinishup`, `DoubleFinishup` or the bare opcode
      build the words. Where the source's encoders are right this is what
      `code_line` produces (`AssembleAgrees`). */
  function Assemble(i: Instruction): (r: Result<seq<int>>)
    requires WellFormed(i)
    ensures r.Ok? <==> Get(Mnemonics, i.mnem).Some? && Get(Mnemonics, i.mnem).value.1 == KindOf(i)
    ensures r.Ok? ==> |r.value| >= 1
  {
    MnemKindsInverts(i.mnem, KindOf(i));
    if i.mnem !in NamesOf(MnemKinds, KindOf(i)) then Err(UnknownMnemonic)
    else
      match i
      case JumpLine(m, n) => JmpFinishup(Mnemonics, m, n)
      case SingleLine(m, t) => SingleFinishup(Mnemonics, m, t)
      case DoubleLine(m, s, t) => DoubleFinishup(Mnemonics, m, s, t)
      case BareLine(m) => Ok([Get(Mnemonics, m).value.0])
  }

  /** The words of each instruction form: the first word with its fields,
      then the operands' extension words in order. */
  lemma AssembleWords(i: Instruction)
    requires WellFormed(i) && Assemble(i).Ok?
    ensures var ws, opcode := Assemble(i).value, Get(Mnemonics, i.mnem).value.0;
      ws == match i
        case JumpLine(_, n) => [opcode + n % 0x400]
        case SingleLine(_, t) => [SingleWord(opcode, t)] + TokenWords(t)
        case DoubleLine(_, s, t) => [DoubleWordOf(opcode, s, t)] + TokenWords(s) + TokenWords(t)
        case BareLine(_) => [opcode]
  {
    MnemKindsInverts(i.mnem, KindOf(i));
    FinishupWords(Mnemonics, i);
  }

  /** The same words from any table holding the mnemonic. */
  lemma FinishupWords(d: Dict, i: Instruction)
    requires WellFormed(i) && Get(d, i.mnem).Some?
    ensures var opcode := Get(d, i.mnem).value.0;
      match i
      case JumpLine(m, n) => JmpFinishup(d, m, n) == Ok([opcode + n % 0x400])
      case SingleLine(m, t) => SingleFinishup(d, m, t) == Ok([SingleWord(opcode, t)] + TokenWords(t))
      case DoubleLine(m, s, t) => DoubleFinishup(d, m, s, t) == Ok([DoubleWordOf(opcode, s, t)] + TokenWords(s) + TokenWords(t))
      case BareLine(_) => true
  {
  }

  /** `code_line` as the source writes it: the parse action of the
      alternative whose mnemonic list holds the mnemonic. Where that encoder
      falls through and returns None, pyparsing keeps the raw tokens and no
      words are produced; `None` stands for that pass-through. */
  function AssembleAsWritten(i: Instruction): (r: Result<Option<seq<int>>>)
    requires WellFormed(i)
    ensures r.Ok? <==> Get(Mnemonics, i.mnem).Some? && Get(Mnemonics, i.mnem).value.1 == KindOf(i)
    ensures r.Ok? && r.value.None? <==>
      && r.Ok?
      && (|| (i.SingleLine? && i.operand.ImmediateTok?)
          || (i.DoubleLine? && !i.dst.RegTok? && !i.dst.AbsoluteTok? && !i.src.IndexedTok?))
  {
    MnemKindsInverts(i.mnem, KindOf(i));
    if i.mnem !in NamesOf(MnemKinds, KindOf(i)) then Err(UnknownMnemonic)
    else
      match i
      case JumpLine(m, n) =>
        (match JmpFinishup(Mnemonics, m, n)
         case Ok(w) => Ok(Some(w))
         case Err(f) => Err(f))
      case SingleLine(m, t) => SingleFinishupAsWritten(Mnemonics, m, t)
      case DoubleLine(m, s, t) => DoubleFinishupAsWritten(Mnemonics, m, s, t)
      case BareLine(m) => Ok(Some([Get(Mnemonics, m).value.0]))
  }

  /** Outside the four defects the source's assembler and the corrected one
      give the same words. */
  lemma AssembleAgrees(i: Instruction)
    requires WellFormed(i)
    requires i.SingleLine? ==> !i.operand.ImmediateTok?
    requires i.DoubleLine? ==> !i.src.SymbolicTok? && (i.dst.RegTok? || i.dst.AbsoluteTok?)
    ensures Assemble(i).Ok? <==> AssembleAsWritten(i).Ok?
    ensures Assemble(i).Ok? ==> AssembleAsWritten(i) == Ok(Some(Assemble(i).value))
  {
    if Assemble(i).Ok? {
      match i
      case SingleLine(m, t) => SingleAsWrittenAgrees(Mnemonics, m, t);
      case DoubleLine(m, s, t) => DoubleAsWrittenAgrees(Mnemonics, m, s, t);
      case _ =>
    }
  }
}
