/** Two-level page tables over the frame bitmap, as functions on the state
    (MeOS/mmngr_virtual.cpp:206-490). */
module PagingSpec {
  import opened Options
  import opened FrameBitmap
  import opened PageEntry

  /** Physical memory as words (frame f is words 1024 f up), the frames marked used, the number
      of frames, and the frame of the current directory.  Tables are reached by their physical
      address, as in the source. */
  datatype Vm = Vm(mem: seq<bv32>, used: set<nat>, max: nat, dir: nat)

  // ----- words of physical memory (reads outside memory give 0, writes there are lost)

  ghost function Word(s: Vm, f: nat, j: nat): bv32 {
    if 1024 * f + j < |s.mem| then s.mem[1024 * f + j] else 0
  }

  ghost function SetWord(s: Vm, f: nat, j: nat, w: bv32): Vm {
    if 1024 * f + j < |s.mem| then s.(mem := s.mem[1024 * f + j := w]) else s
  }

  ghost function ZeroFrame(s: Vm, f: nat): Vm {
    s.(mem := seq(|s.mem|, k requires 0 <= k < |s.mem| => if 1024 * f <= k < 1024 * f + 1024 then 0 else s.mem[k]))
  }

  // ----- walking the tables

  ghost function Pde(s: Vm, i: nat): bv32 {
    Word(s, s.dir, i)
  }

  ghost function Table(s: Vm, i: nat): nat {
    Number(Pde(s, i))
  }

  ghost function Pte(s: Vm, i: nat, j: nat): bv32 {
    Word(s, Table(s, i), j)
  }

  ghost function Data(s: Vm, i: nat, j: nat): nat {
    Number(Pte(s, i, j))
  }

  /** vmmngr_is_page_present, by the two indices of an address. */
  ghost predicate Mapped(s: Vm, i: nat, j: nat) {
    IsPresent(Pde(s, i)) && Table(s, i) != 0 && IsPresent(Pte(s, i, j))
  }

  /** vmmngr_get_phys_addr. */
  ghost function GetPhys(s: Vm, v: bv32): bv32 {
    if Table(s, DirIndex(v)) == 0 then 0
    else PhysAddr(Pte(s, DirIndex(v), TableIndex(v)), v)
  }

  /** The flat meaning of the tables: where a present address leads. */
  ghost function Translate(s: Vm, v: bv32): Option<bv32> {
    if Mapped(s, DirIndex(v), TableIndex(v)) then Some(GetPhys(s, v)) else None
  }

  predicate SamePage(v: bv32, w: bv32) {
    Number(v) == Number(w)
  }

  // ----- operations

  /** vmmngr_create_table. */
  ghost function CreateTable(s: Vm, v: bv32, flags: bv32): (Vm, bool) {
    var i := DirIndex(v);
    if IsPresent(Pde(s, i)) then (s, true)
    else match AllocFrame(s.used, s.max)
      case None => (s, false)
      case Some(t) =>
        var z := ZeroFrame(s.(used := s.used + {t}), t);
        (SetWord(z, z.dir, i, TableWord(Pde(z, i), t, flags)), true)
  }

  function TableWord(e: bv32, t: nat, flags: bv32): bv32 {
    if t < 0x10_0000 then AddAttrib(SetFrame(e, AddrOf(t)), flags) else e
  }

  /** vmmngr_map_page on the current directory. */
  ghost function MapPage(s: Vm, phys: bv32, v: bv32, flags: bv32): (Vm, bool) {
    var (c, ok) := CreateTable(s, v, flags);
    var i, j := DirIndex(v), TableIndex(v);
    if !ok || Table(c, i) == 0 then (c, false)
    else (SetWord(c, Table(c, i), j, SetFrame(AddAttrib(Pte(c, i, j), flags), phys)), true)
  }

  /** vmmngr_alloc_page_f. */
  ghost function AllocPage(s: Vm, base: bv32, flags: bv32): (Vm, bool) {
    if Mapped(s, DirIndex(base), TableIndex(base)) then MapPage(s, GetPhys(s, base), base, flags)
    else if base < 0xF000_0000 then
      match AllocFrame(s.used, s.max)
      case None => (s, false)
      case Some(f) => if f < 0x10_0000 then MapPage(s.(used := s.used + {f}), AddrOf(f), base, flags) else (s, false)
    else MapPage(s, base, base, flags)
  }

  /** vmmngr_free_page on the entry of an address; it frees whatever frame the entry holds,
      present or not. */
  ghost function FreePage(s: Vm, v: bv32): (Vm, bool) {
    var i, j := DirIndex(v), TableIndex(v);
    if Table(s, i) == 0 then (s, false)
    else
      var f := Data(s, i, j);
      var u := if f != 0 then s.(used := s.used - {f}) else s;
      (SetWord(u, Table(s, i), j, DelAttrib(DelAttrib(Pte(s, i, j), 1), 2)), true)
  }

  /** A store by a program through a present page. */
  ghost function Store(s: Vm, v: bv32, w: bv32): Vm {
    SetWord(s, Data(s, DirIndex(v), TableIndex(v)), WordIndex(v), w)
  }

  ghost function Load(s: Vm, v: bv32): bv32 {
    Word(s, Data(s, DirIndex(v), TableIndex(v)), WordIndex(v))
  }

  /** Which word of its page an address names. */
  function WordIndex(v: bv32): (w: nat)
    ensures w < 1024
  {
    FieldsSmall(ShiftTen(v));
    Index(Middle(ShiftTen(v)))
  }

  /** Two addresses are in the same word exactly when they are on the same page and name the same
      word of it. */
  lemma SameWord(v: bv32, w: bv32)
    ensures SamePage(v, w) && WordIndex(v) == WordIndex(w) <==> WordOf(v) == WordOf(w)
  {
    hide Number, GetFrame, Middle, ShiftTen, WordOf, Index;
    NumberIsFrame(v, w);
    FieldsSmall(ShiftTen(v));
    FieldsSmall(ShiftTen(w));
    WordParts(v, w);
    if WordIndex(v) == WordIndex(w) { IndexInjective(Middle(ShiftTen(v)), Middle(ShiftTen(w))); }
  }

  // ----- invariants

  /** The directory and the tables it points to are distinct used frames. */
  ghost predicate TablesOk(s: Vm) {
    && |s.mem| == 1024 * s.max && s.max <= 0x10_0000
    && 0 < s.dir < s.max && s.dir in s.used
    && (forall i :: 0 <= i < 1024 ==> if IsPresent(Pde(s, i)) then TableOk(s, i) else Pde(s, i) == 0)
    && (forall i, k :: 0 <= i < 1024 && 0 <= k < 1024 && Table(s, i) == Table(s, k) != 0 ==> i == k)
  }

  ghost predicate TableOk(s: Vm, i: nat) {
    0 < Table(s, i) < s.max && Table(s, i) in s.used && Table(s, i) != s.dir
  }

  /** A frame the tables rely on: the directory, a table, or the frame of a present page. */
  ghost predicate IsTable(s: Vm, f: nat) {
    f == s.dir || (f != 0 && exists i :: 0 <= i < 1024 && Table(s, i) == f)
  }

  ghost predicate IsData(s: Vm, f: nat) {
    exists i, j :: 0 <= i < 1024 && 0 <= j < 1024 && Mapped(s, i, j) && Data(s, i, j) == f
  }

  /** Ownership: every frame behind a present page is a used frame of its own, and none of
      them is a table or the directory. */
  ghost predicate Owned(s: Vm) {
    && TablesOk(s)
    && (forall i, j :: 0 <= i < 1024 && 0 <= j < 1024 && Table(s, i) != 0 ==> Data(s, i, j) < s.max)
    && (forall i, j :: 0 <= i < 1024 && 0 <= j < 1024 && Mapped(s, i, j) ==> PageOk(s, i, j))
    && (forall i, j, k, l ::
          (0 <= i < 1024 && 0 <= j < 1024 && 0 <= k < 1024 && 0 <= l < 1024
           && Mapped(s, i, j) && Mapped(s, k, l) && Data(s, i, j) == Data(s, k, l))
          ==> i == k && j == l)
  }

  ghost predicate PageOk(s: Vm, i: nat, j: nat) {
    && 0 < Data(s, i, j) && Data(s, i, j) in s.used && !IsTable(s, Data(s, i, j))
  }

  // ----- memory laws

  lemma WordSet(s: Vm, f: nat, j: nat, w: bv32, g: nat, k: nat)
    requires |s.mem| == 1024 * s.max && f < s.max && j < 1024 && k < 1024
    ensures Word(SetWord(s, f, j, w), g, k) == if g == f && k == j then w else Word(s, g, k)
  {
  }

  lemma SetShape(s: Vm, f: nat, j: nat, w: bv32)
    ensures var r := SetWord(s, f, j, w); |r.mem| == |s.mem| && r.used == s.used && r.max == s.max && r.dir == s.dir
  {
  }

  lemma WordZero(s: Vm, f: nat, g: nat, k: nat)
    requires |s.mem| == 1024 * s.max && f < s.max && k < 1024
    ensures Word(ZeroFrame(s, f), g, k) == if g == f then 0 else Word(s, g, k)
  {
  }

  lemma ZeroShape(s: Vm, f: nat)
    ensures var r := ZeroFrame(s, f); |r.mem| == |s.mem| && r.used == s.used && r.max == s.max && r.dir == s.dir
  {
  }
}
