/** The simulated address space of memory.py: named areas of tri-state cells.
    A cell is `None` (never written) or the value last stored in it. The Python
    stores whatever int it is handed, so cells hold ints. `WriteWord` of a
    value from 0 to 0xffff leaves bytes in both cells, but a wider or negative
    value leaves a wider or negative high cell, and a hex record can carry a
    negative group such as "-1". */
module AddressSpace {
  import opened Results

  type Cell = Option<int>

  /** Python's `[None] * size` has no cells for a negative size. */
  function CellCount(size: int): nat
  {
    if size < 0 then 0 else size
  }

  datatype AreaRec = AreaRec(base: int, size: int, kind: string, mem: seq<Cell>)

  /** A `Memory_area`: its cell list always has `size` entries. */
  type Area = a: AreaRec | |a.mem| == CellCount(a.size) witness AreaRec(0, 0, "", [])

  predicate Contains(a: Area, addr: int)
  {
    a.base <= addr < a.base + a.size
  }

  /** `Memory_area(base, size, kind)`: every cell uninitialized. */
  function NewArea(base: int, size: int, kind: string): (a: Area)
    ensures a.base == base && a.size == size && a.kind == kind
    ensures |a.mem| == CellCount(size)
    ensures forall i :: 0 <= i < |a.mem| ==> a.mem[i] == None
  {
    AreaRec(base, size, kind, seq(CellCount(size), _ => None))
  }

  /** Python list indexing `lst[i]` on a list of length `n`: a negative index
      counts from the end, anything else outside the list is an IndexError. */
  function PyIndex(i: int, n: nat): (k: Option<nat>)
    ensures k.Some? <==> -(n as int) <= i < n
    ensures k.Some? && 0 <= i ==> k.value == i
    ensures k.Some? && i < 0 ==> k.value == n + i
  {
    if 0 <= i < n then Some(i) else if -(n as int) <= i < 0 then Some(n + i) else None
  }

  /** `Memory_area.initialized(addr)`. */
  function AreaInitialized(a: Area, addr: int): (r: Result<bool>)
    ensures r.Ok? <==> -(|a.mem| as int) <= addr - a.base < |a.mem|
    ensures Contains(a, addr) ==> r == Ok(a.mem[addr - a.base] != None)
  {
    match PyIndex(addr - a.base, |a.mem|)
    case None => Err(BadIndex(addr))
    case Some(k) => Ok(a.mem[k] != None)
  }

  /** `Memory_area.read(addr, check_initialized)`: the raw cell, `None` included
      when the check is switched off. */
  function AreaRead(a: Area, addr: int, check: bool): (r: Result<Cell>)
    ensures addr - a.base >= a.size ==> r == Err(OutOfRange(addr))
    ensures Contains(a, addr) && check ==>
      r == (if a.mem[addr - a.base] == None then Err(Uninitialized(addr)) else Ok(a.mem[addr - a.base]))
    ensures Contains(a, addr) && !check ==> r == Ok(a.mem[addr - a.base])
    ensures r.Ok? && check ==> r.value != None
  {
    if addr - a.base >= a.size then Err(OutOfRange(addr))
    else if check && AreaInitialized(a, addr) == Ok(false) then Err(Uninitialized(addr))
    else
      match PyIndex(addr - a.base, |a.mem|)
      case None => Err(BadIndex(addr))
      case Some(k) => Ok(a.mem[k])
  }

  /** `Memory_area.read_word(addr, check_initialized)`: little-endian, low byte
      at `addr`. With the check off an uninitialized cell still fails, because
      the Python then adds `None` to an int. */
  function AreaReadWord(a: Area, addr: int, check: bool): (r: Result<int>)
    ensures r.Ok? ==> addr - a.base < a.size && addr % 2 == 0
    ensures addr - a.base < a.size && addr % 2 != 0 ==> r == Err(Misaligned(addr))
    ensures Contains(a, addr) && Contains(a, addr + 1) && addr % 2 == 0 ==>
      var lo, hi := a.mem[addr - a.base], a.mem[addr + 1 - a.base];
      r == if lo != None && hi != None then Ok(lo.value + 256 * hi.value)
           else if check then Err(Uninitialized(if lo == None then addr else addr + 1))
           else Err(NoneArithmetic(addr))
    ensures Contains(a, addr) && addr + 1 == a.base + a.size && addr % 2 == 0 ==> r.Err?
  {
    if addr - a.base >= a.size then Err(OutOfRange(addr))
    else if addr % 2 != 0 then Err(Misaligned(addr))
    else if check && AreaInitialized(a, addr).Err? then Err(BadIndex(addr))
    else if check && AreaInitialized(a, addr) == Ok(false) then Err(Uninitialized(addr))
    else if check && AreaInitialized(a, addr + 1).Err? then Err(BadIndex(addr + 1))
    else if check && AreaInitialized(a, addr + 1) == Ok(false) then Err(Uninitialized(addr + 1))
    else
      match (PyIndex(addr - a.base, |a.mem|), PyIndex(addr + 1 - a.base, |a.mem|))
      case (None, _) => Err(BadIndex(addr))
      case (_, None) => Err(BadIndex(addr + 1))
      case (Some(k0), Some(k1)) =>
        if a.mem[k0] == None || a.mem[k1] == None then Err(NoneArithmetic(addr))
        else Ok(a.mem[k0].value + 256 * a.mem[k1].value)
  }

  /** `Memory_area.write(addr, value)`: exactly one cell is replaced. */
  function AreaWrite(a: Area, addr: int, value: int): (r: Result<Area>)
    ensures r.Ok? <==> addr - a.base < a.size && -(|a.mem| as int) <= addr - a.base
    ensures r.Ok? ==> r.value.base == a.base && r.value.size == a.size && r.value.kind == a.kind
    ensures Contains(a, addr) ==>
      && r.Ok? && r.value.mem[addr - a.base] == Some(value)
      && forall i :: 0 <= i < |a.mem| && i != addr - a.base ==> r.value.mem[i] == a.mem[i]
  {
    if addr - a.base >= a.size then Err(OutOfRange(addr))
    else
      match PyIndex(addr - a.base, |a.mem|)
      case None => Err(BadIndex(addr))
      case Some(k) => Ok(a.(mem := a.mem[k := Some(value)]))
  }

  /** `Memory_area.write_word(addr, value)`: `value & 0xff` at `addr` and
      `value >> 8` at `addr + 1`. */
  function AreaWriteWord(a: Area, addr: int, value: int): (r: Result<Area>)
    ensures r.Ok? ==> addr % 2 == 0 && r.value.base == a.base && r.value.size == a.size && r.value.kind == a.kind
    ensures Contains(a, addr) && addr % 2 == 0 ==> (r.Ok? <==> Contains(a, addr + 1))
    ensures Contains(a, addr) && Contains(a, addr + 1) && r.Ok? ==>
      && r.value.mem[addr - a.base] == Some(value % 256)
      && r.value.mem[addr + 1 - a.base] == Some(value / 256)
      && forall i :: 0 <= i < |a.mem| && i != addr - a.base && i != addr + 1 - a.base ==>
           r.value.mem[i] == a.mem[i]
  {
    if addr - a.base >= a.size then Err(OutOfRange(addr))
    else if addr % 2 != 0 then Err(Misaligned(addr))
    else
      match (PyIndex(addr - a.base, |a.mem|), PyIndex(addr + 1 - a.base, |a.mem|))
      case (None, _) => Err(BadIndex(addr))
      case (_, None) => Err(BadIndex(addr + 1))
      case (Some(k0), Some(k1)) =>
        Ok(a.(mem := a.mem[k0 := Some(value % 256)][k1 := Some(value / 256)]))
  }

  /** An area of a `Memory`, under its identifier. */
  datatype Region = Region(id: string, area: Area)

  predicate UniqueIds(s: seq<Region>)
  {
    forall i, j :: 0 <= i < j < |s| ==> s[i].id != s[j].id
  }

  /** `Memory.areas`: a Python dict, kept in insertion order (the order
      `locate_area` scans in), so an identifier occurs at most once. */
  type Memory = s: seq<Region> | UniqueIds(s)

  function Empty(): (m: Memory)
    ensures |m| == 0
  {
    []
  }

  function IndexOf(m: Memory, id: string): (k: Option<nat>)
    ensures k.Some? ==> k.value < |m| && m[k.value].id == id
    ensures k.None? <==> forall j :: 0 <= j < |m| ==> m[j].id != id
  {
    if |m| == 0 then None
    else if m[|m| - 1].id == id then Some(|m| - 1)
    else IndexOf(m[..|m| - 1], id)
  }

  /** `self.areas[id]`, or None for an unknown identifier. */
  function Lookup(m: Memory, id: string): (a: Option<Area>)
    ensures a.Some? <==> exists j :: 0 <= j < |m| && m[j].id == id
    ensures forall j :: 0 <= j < |m| && m[j].id == id ==> a == Some(m[j].area)
  {
    match IndexOf(m, id)
    case None => None
    case Some(k) => Some(m[k].area)
  }

  /** `Memory.reserve(id, base, size, kind)`: a fresh area under `id`; an area
      already under `id` is replaced where it stands, the others are kept. */
  function Reserve(m: Memory, id: string, base: int, size: int, kind: string): (m': Memory)
    ensures Lookup(m', id) == Some(NewArea(base, size, kind))
    ensures forall other :: other != id ==> Lookup(m', other) == Lookup(m, other)
    ensures |m'| == if Lookup(m, id).Some? then |m| else |m| + 1
  {
    var r := Region(id, NewArea(base, size, kind));
    match IndexOf(m, id)
    case Some(k) =>
      var m': Memory := m[k := r];
      assert m'[k].id == id;
      forall other | other != id ensures Lookup(m', other) == Lookup(m, other) {
        assert forall j :: 0 <= j < |m| ==> (m'[j].id == other <==> m[j].id == other);
      }
      m'
    case None =>
      var m': Memory := m + [r];
      assert m'[|m|].id == id;
      forall other | other != id ensures Lookup(m', other) == Lookup(m, other) {
        assert forall j :: 0 <= j < |m| ==> m'[j] == m[j];
      }
      m'
  }

  function LocateFrom(m: Memory, addr: int, i: nat): (k: Option<nat>)
    requires i <= |m|
    ensures k.Some? ==> i <= k.value < |m| && Contains(m[k.value].area, addr)
    decreases |m| - i
  {
    if i == |m| then None
    else if Contains(m[i].area, addr) then Some(i)
    else LocateFrom(m, addr, i + 1)
  }

  lemma {:induction false} LocateFromFirst(m: Memory, addr: int, i: nat)
    requires i <= |m|
    ensures LocateFrom(m, addr, i).Some? ==>
      forall j :: i <= j < LocateFrom(m, addr, i).value ==> !Contains(m[j].area, addr)
    ensures LocateFrom(m, addr, i).None? <==> forall j :: i <= j < |m| ==> !Contains(m[j].area, addr)
    decreases |m| - i
  {
    if i < |m| && !Contains(m[i].area, addr) {
      LocateFromFirst(m, addr, i + 1);
    }
  }

  /** The position of the area `locate_area` picks: the first, in insertion
      order, whose range holds `addr`. */
  function Locate(m: Memory, addr: int): (k: Option<nat>)
    ensures k.Some? ==> k.value < |m| && Contains(m[k.value].area, addr)
  {
    LocateFrom(m, addr, 0)
  }

  /** `Locate` finds the first area holding `addr`, and finds none exactly
      when no area holds it. */
  lemma LocateFirst(m: Memory, addr: int)
    ensures Locate(m, addr).Some? ==> forall j :: 0 <= j < Locate(m, addr).value ==> !Contains(m[j].area, addr)
    ensures Locate(m, addr).None? <==> forall j :: 0 <= j < |m| ==> !Contains(m[j].area, addr)
  {
    LocateFromFirst(m, addr, 0);
  }

  /** `Memory.locate_area(addr)`: the id of the area `Locate` picks. */
  function LocateArea(m: Memory, addr: int): (id: Option<string>)
    ensures id.Some? <==> Locate(m, addr).Some?
    ensures id.Some? ==> id.value == m[Locate(m, addr).value].id
  {
    match Locate(m, addr)
    case None => None
    case Some(k) => Some(m[k].id)
  }

  /** `locate_area` answers with the id of an area whose range holds `addr`,
      and with None exactly when no area holds it. */
  lemma LocateAreaSpec(m: Memory, addr: int)
    ensures LocateArea(m, addr).Some? ==>
      var id := LocateArea(m, addr).value;
      Lookup(m, id).Some? && Contains(Lookup(m, id).value, addr)
    ensures LocateArea(m, addr).None? <==> forall j :: 0 <= j < |m| ==> !Contains(m[j].area, addr)
  {
    LocateFirst(m, addr);
  }

  /** The cell `addr` names: the one in the area `locate_area` picks. */
  function CellAt(m: Memory, addr: int): Option<Cell>
  {
    match Locate(m, addr)
    case None => None
    case Some(k) => Some(m[k].area.mem[addr - m[k].area.base])
  }

  lemma CellAtLocated(m: Memory, x: int, k: nat)
    requires Locate(m, x) == Some(k)
    ensures k < |m| && Contains(m[k].area, x)
    ensures CellAt(m, x) == Some(m[k].area.mem[x - m[k].area.base])
  {
  }

  /** `Memory.initialized(addr)`. */
  function Initialized(m: Memory, addr: int): (r: Result<bool>)
    ensures LocateArea(m, addr).None? ==> r == Err(Unmapped(addr))
    ensures LocateArea(m, addr).Some? ==> r == Ok(CellAt(m, addr).value != None)
  {
    match Locate(m, addr)
    case None => Err(Unmapped(addr))
    case Some(k) => AreaInitialized(m[k].area, addr)
  }

  /** `Memory.read_word(addr, check_initialized)`: the word of the area
      `locate_area` picks, low byte at `addr` and high byte at `addr + 1`
      of that same area. */
  function ReadWord(m: Memory, addr: int, check: bool): (r: Result<int>)
    ensures LocateArea(m, addr).None? ==> r == Err(Unmapped(addr))
    ensures LocateArea(m, addr).Some? && addr % 2 != 0 ==> r == Err(Misaligned(addr))
    ensures r.Ok? ==> addr % 2 == 0 && CellAt(m, addr).Some? && CellAt(m, addr).value != None
    ensures Locate(m, addr).Some? && addr % 2 == 0 ==>
      var a := m[Locate(m, addr).value].area;
      && (Contains(a, addr + 1) ==>
            var lo, hi := a.mem[addr - a.base], a.mem[addr + 1 - a.base];
            r == if lo != None && hi != None then Ok(lo.value + 256 * hi.value)
                 else if check then Err(Uninitialized(if lo == None then addr else addr + 1))
                 else Err(NoneArithmetic(addr)))
      && (!Contains(a, addr + 1) ==> r.Err?)
  {
    match Locate(m, addr)
    case None => Err(Unmapped(addr))
    case Some(k) => AreaReadWord(m[k].area, addr, check)
  }

  /** The areas of `m'` are those of `m`, in the same order, with the same
      identifiers and ranges; only cell contents may differ. */
  predicate SameLayout(m: Memory, m': Memory)
  {
    && |m'| == |m|
    && forall j :: 0 <= j < |m| ==>
         m'[j].id == m[j].id && m'[j].area.base == m[j].area.base
         && m'[j].area.size == m[j].area.size && m'[j].area.kind == m[j].area.kind
  }

  lemma SameLayoutLocates(m: Memory, m': Memory, addr: int)
    requires SameLayout(m, m')
    ensures Locate(m', addr) == Locate(m, addr)
  {
    SameLayoutLocateFrom(m, m', addr, 0);
  }

  lemma {:induction false} SameLayoutLocateFrom(m: Memory, m': Memory, addr: int, i: nat)
    requires SameLayout(m, m') && i <= |m|
    ensures LocateFrom(m', addr, i) == LocateFrom(m, addr, i)
    decreases |m| - i
  {
    if i < |m| {
      assert Contains(m[i].area, addr) <==> Contains(m'[i].area, addr);
      SameLayoutLocateFrom(m, m', addr, i + 1);
    }
  }

  function ReplaceArea(m: Memory, k: nat, a: Area): (m': Memory)
    requires k < |m|
    requires a.base == m[k].area.base && a.size == m[k].area.size && a.kind == m[k].area.kind
    ensures SameLayout(m, m')
    ensures m'[k].area == a
    ensures forall j :: 0 <= j < |m| && j != k ==> m'[j] == m[j]
  {
    m[k := Region(m[k].id, a)]
  }

  /** `Memory.write(addr, byte)`: the one cell `addr` changes; every other cell
      and every other area is unchanged. */
  function Write(m: Memory, addr: int, value: int): (r: Result<Memory>)
    ensures r.Ok? <==> LocateArea(m, addr).Some?
    ensures r.Err? ==> r == Err(Unmapped(addr))
    ensures r.Ok? ==> SameLayout(m, r.value)
    ensures r.Ok? ==> CellAt(r.value, addr) == Some(Some(value))
    ensures r.Ok? ==> forall j :: 0 <= j < |m| && Locate(m, addr) != Some(j) ==> r.value[j] == m[j]
  {
    match Locate(m, addr)
    case None => Err(Unmapped(addr))
    case Some(k) =>
      var m' := ReplaceArea(m, k, AreaWrite(m[k].area, addr, value).value);
      SameLayoutLocates(m, m', addr);
      Ok(m')
  }

  /** `Write` changes no cell but `addr`. */
  lemma WriteFrame(m: Memory, addr: int, value: int, x: int)
    requires Write(m, addr, value).Ok? && x != addr
    ensures CellAt(Write(m, addr, value).value, x) == CellAt(m, x)
  {
    var k := Locate(m, addr).value;
    var m' := ReplaceArea(m, k, AreaWrite(m[k].area, addr, value).value);
    assert Write(m, addr, value).value == m';
    SameLayoutLocates(m, m', x);
  }

  /** `Memory.write_word(addr, w)`: fails on an unmapped or odd address and
      when `addr + 1` falls outside the area of `addr`; otherwise exactly the
      cells `addr` and `addr + 1` change. */
  function WriteWord(m: Memory, addr: int, value: int): (r: Result<Memory>)
    ensures LocateArea(m, addr).None? ==> r == Err(Unmapped(addr))
    ensures LocateArea(m, addr).Some? && addr % 2 != 0 ==> r == Err(Misaligned(addr))
    ensures r.Ok? <==> Locate(m, addr).Some? && addr % 2 == 0 && Contains(m[Locate(m, addr).value].area, addr + 1)
    ensures r.Ok? ==> SameLayout(m, r.value)
    ensures r.Ok? ==> forall j :: 0 <= j < |m| && Locate(m, addr) != Some(j) ==> r.value[j] == m[j]
  {
    match Locate(m, addr)
    case None => Err(Unmapped(addr))
    case Some(k) =>
      match AreaWriteWord(m[k].area, addr, value)
      case Err(f) => Err(f)
      case Ok(a) => Ok(ReplaceArea(m, k, a))
  }

  /** Reading a cell after one area was replaced by one with the same range. */
  lemma CellAtReplace(m: Memory, k: nat, a: Area, x: int)
    requires k < |m|
    requires a.base == m[k].area.base && a.size == m[k].area.size && a.kind == m[k].area.kind
    ensures Locate(m, x) != Some(k) ==> CellAt(ReplaceArea(m, k, a), x) == CellAt(m, x)
    ensures Locate(m, x) == Some(k) ==> CellAt(ReplaceArea(m, k, a), x) == Some(a.mem[x - a.base])
  {
    SameLayoutLocates(m, ReplaceArea(m, k, a), x);
  }

  /** No two areas share an address; the address space is meant to be
      reserved this way, though nothing enforces it. */
  ghost predicate Disjoint(m: Memory)
  {
    forall i, j, x :: 0 <= i < j < |m| && Contains(m[i].area, x) ==> !Contains(m[j].area, x)
  }

  /** `WriteWord` stores `value & 0xff` at `addr` and `value >> 8` at `addr + 1`
      of the area holding `addr`; with disjoint areas that is the cell
      `addr + 1` names. */
  lemma WriteWordCells(m: Memory, addr: int, value: int)
    requires WriteWord(m, addr, value).Ok?
    ensures CellAt(WriteWord(m, addr, value).value, addr) == Some(Some(value % 256))
    ensures var k := Locate(m, addr).value;
      WriteWord(m, addr, value).value[k].area.mem[addr + 1 - m[k].area.base] == Some(value / 256)
    ensures Disjoint(m) ==> CellAt(WriteWord(m, addr, value).value, addr + 1) == Some(Some(value / 256))
  {
    var k := Locate(m, addr).value;
    var a := AreaWriteWord(m[k].area, addr, value).value;
    var m' := ReplaceArea(m, k, a);
    assert WriteWord(m, addr, value).value == m';
    assert Contains(m[k].area, addr + 1);
    CellAtReplace(m, k, a, addr);
    if Disjoint(m) {
      LocateFirst(m, addr + 1);
      assert Locate(m, addr + 1) == Some(k);
      CellAtReplace(m, k, a, addr + 1);
    }
  }

  /** `WriteWord` changes no cell but `addr` and `addr + 1`. */
  lemma WriteWordFrame(m: Memory, addr: int, value: int, x: int)
    requires WriteWord(m, addr, value).Ok?
    requires x != addr && x != addr + 1
    ensures CellAt(WriteWord(m, addr, value).value, x) == CellAt(m, x)
  {
    var k := Locate(m, addr).value;
    var a := AreaWriteWord(m[k].area, addr, value).value;
    var m' := ReplaceArea(m, k, a);
    assert WriteWord(m, addr, value).value == m';
    CellAtReplace(m, k, a, x);
    if Locate(m, x) == Some(k) {
      var b := m[k].area.base;
      assert Contains(m[k].area, addr) && Contains(m[k].area, addr + 1);
      assert 0 <= x - b < |m[k].area.mem| && x - b != addr - b && x - b != addr + 1 - b;
      assert a.mem[x - b] == m[k].area.mem[x - b];
      CellAtLocated(m, x, k);
    } else {
      assert CellAt(m', x) == CellAt(m, x);
    }
  }

  /** A word written with `WriteWord` reads back, with or without the
      initialization check. */
  lemma WriteWordReadWord(m: Memory, addr: int, value: int, check: bool)
    requires WriteWord(m, addr, value).Ok?
    ensures ReadWord(WriteWord(m, addr, value).value, addr, check) == Ok(value)
  {
    var k := Locate(m, addr).value;
    var a := AreaWriteWord(m[k].area, addr, value).value;
    var m' := ReplaceArea(m, k, a);
    assert WriteWord(m, addr, value).value == m';
    SameLayoutLocates(m, m', addr);
    assert Contains(a, addr) && Contains(a, addr + 1);
    assert a.mem[addr - a.base] == Some(value % 256);
    assert a.mem[addr + 1 - a.base] == Some(value / 256);
    assert AreaReadWord(a, addr, check) == Ok(value % 256 + 256 * (value / 256));
  }

  /** `Memory.next_code_address(id, addr)`: `addr + 2` while that stays below
      the end of the area `id`, None past it. */
  function NextCodeAddress(m: Memory, id: string, addr: int): (r: Result<Option<int>>)
    ensures Lookup(m, id).None? <==> r == Err(UnknownArea(id))
    ensures Lookup(m, id).Some? ==>
      var a := Lookup(m, id).value;
      r == Ok(if addr + 2 < a.base + a.size then Some(addr + 2) else None)
  {
    match Lookup(m, id)
    case None => Err(UnknownArea(id))
    case Some(a) => if addr + 2 < a.base + a.size then Ok(Some(addr + 2)) else Ok(None)
  }

  /** The next code address lies in the same area: `next_code_address`
      answers with `addr + 2` exactly when the area `id` still holds it, and
      an address so given is one `locate_area` finds. */
  lemma NextCodeAddressInArea(m: Memory, id: string, addr: int)
    requires Lookup(m, id).Some? && Contains(Lookup(m, id).value, addr)
    ensures var r := NextCodeAddress(m, id, addr);
      && r.Ok?
      && (r.value.Some? <==> Contains(Lookup(m, id).value, addr + 2))
      && (r.value.Some? ==> r.value.value == addr + 2 && LocateArea(m, r.value.value).Some?)
  {
    var j :| 0 <= j < |m| && m[j].id == id;
    LocateFirst(m, addr + 2);
  }
}
