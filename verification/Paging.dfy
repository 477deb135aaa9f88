/** The page tables in physical memory, edited in place (MeOS/mmngr_virtual.cpp). */
module Paging {
  import opened Options
  import opened FrameBitmap
  import opened PageEntry
  import opened PagingSpec
  import opened PagingSafety
  import opened PagingRuns

  class AddressSpace {
    const ram: array<bv32>
    const phys: PhysicalMemory
    const dir: nat

    ghost function State(): Vm
      reads ram, phys.bitmap
    {
      Vm(ram[..], phys.Used(), phys.maxBlocks, dir)
    }

    ghost predicate Shape()
      reads phys, phys.bitmap
    {
      phys.Valid() && ram != phys.bitmap && ram.Length == 1024 * phys.maxBlocks && dir < phys.maxBlocks
    }

    ghost predicate Valid()
      reads phys, phys.bitmap, ram
    {
      Shape() && TablesOk(State())
    }

    /** vmmngr_create_address_space, on a frame just taken from the allocator. */
    constructor (memory: array<bv32>, allocator: PhysicalMemory, frame: nat)
      requires allocator.Valid() && memory != allocator.bitmap && memory.Length == 1024 * allocator.maxBlocks
      requires 0 < frame < allocator.maxBlocks && frame in allocator.Used()
      modifies memory
      ensures ram == memory && phys == allocator && dir == frame && Valid()
      ensures State() == ZeroFrame(Vm(old(memory[..]), allocator.Used(), allocator.maxBlocks, frame), frame)
    {
      hide Frames, Number, IsPresent;
      ram, phys, dir := memory, allocator, frame;
      new;
      Clear(frame);
      EmptyTables(old(memory[..]), allocator.Used(), allocator.maxBlocks, frame);
    }

    // ----- words

    /** The word at index j of the table in frame f. */
    function Peek(f: nat, j: nat): bv32
      requires j < 1024 && 1024 * f + j < ram.Length
      reads ram
    {
      ram[1024 * f + j]
    }

    lemma PeekIs(f: nat, j: nat)
      requires j < 1024 && 1024 * f + j < ram.Length
      ensures Peek(f, j) == Word(State(), f, j)
    {
    }

    method Poke(f: nat, j: nat, w: bv32)
      requires Shape() && f < phys.maxBlocks && j < 1024
      modifies ram
      ensures Shape() && State() == SetWord(old(State()), f, j, w)
    {
      hide Frames;
      ram[1024 * f + j] := w;
      assert ram[..] == old(ram[..])[1024 * f + j := w];
    }

    /** memset of one frame. */
    method Clear(f: nat)
      requires Shape() && f < phys.maxBlocks
      modifies ram
      ensures Shape() && State() == ZeroFrame(old(State()), f)
    {
      hide Frames;
      for j := 0 to 1024
        invariant Shape()
        invariant forall k :: 0 <= k < ram.Length ==> ram[k] == if 1024 * f <= k < 1024 * f + j then 0 else old(ram[k])
      {
        ram[1024 * f + j] := 0;
      }
      assert ram[..] == ZeroFrame(old(State()), f).mem;
    }

    // ----- walking

    /** vmmngr_is_page_present. */
    method IsPagePresent(v: bv32) returns (present: bool)
      requires Valid()
      ensures present <==> Mapped(State(), DirIndex(v), TableIndex(v))
    {
      hide Frames, DirIndex, TableIndex, Number, IsPresent, Word;
      var i, j := DirIndex(v), TableIndex(v);
      PeekIs(dir, i);
      var e := Peek(dir, i);
      if !IsPresent(e) { return false; }
      var table := Number(e);
      if table == 0 { return false; }
      TableInMemory(State(), i);
      PeekIs(table, j);
      return IsPresent(Peek(table, j));
    }

    /** vmmngr_get_phys_addr. */
    method GetPhysAddr(v: bv32) returns (p: bv32)
      requires Valid()
      ensures p == GetPhys(State(), v)
      ensures Translate(State(), v).Some? ==> Translate(State(), v) == Some(p)
    {
      hide Frames, DirIndex, TableIndex, Number, IsPresent, Word, PhysAddr;
      var i, j := DirIndex(v), TableIndex(v);
      PeekIs(dir, i);
      var table := Number(Peek(dir, i));
      if table == 0 { return 0; }
      TableInMemory(State(), i);
      PeekIs(table, j);
      return PhysAddr(Peek(table, j), v);
    }

    // ----- changing

    /** vmmngr_create_table. */
    method CreateTable(v: bv32, flags: bv32) returns (ok: bool)
      requires Valid() && GoodFlags(flags)
      modifies ram, phys`usedBlocks, phys.bitmap
      ensures Valid() && (State(), ok) == PagingSpec.CreateTable(old(State()), v, flags)
    {
      hide Frames, DirIndex, Number, IsPresent, Word, SetWord, ZeroFrame, AllocFrame, SetFrame, AddAttrib, GoodFlags,
          AddrOf, TablesOk;
      var i := DirIndex(v);
      ghost var s := State();
      PeekIs(dir, i);
      TablesShape(s);
      AllocFrameIs(s.used, s.max);
      if IsPresent(Peek(dir, i)) { return true; }
      var block := phys.AllocBlock();
      if block == None {
        assert State() == s;
        return false;
      }
      var table := block.value;
      Clear(table);
      PeekIs(dir, i);
      Poke(dir, i, TableWord(Peek(dir, i), table, flags));
      AddTable(s, v, flags);
      AddedTablesOk(s, State(), i, table);
      return true;
    }

    /** vmmngr_map_page. */
    method MapPage(p: bv32, v: bv32, flags: bv32) returns (ok: bool)
      requires Valid() && GoodFlags(flags)
      modifies ram, phys`usedBlocks, phys.bitmap
      ensures Valid() && (State(), ok) == PagingSpec.MapPage(old(State()), p, v, flags)
    {
      hide Frames, DirIndex, TableIndex, Number, IsPresent, Word, SetWord, PagingSpec.CreateTable, AllocFrame,
          SetFrame, AddAttrib, GoodFlags, PageSet, TablesOk;
      var i, j := DirIndex(v), TableIndex(v);
      ghost var s := State();
      MapOutcome(s, p, v, flags);
      PeekIs(dir, i);
      CreateIfPresent(s, v, flags);
      var made := true;
      if !IsPresent(Peek(dir, i)) {
        made := CreateTable(v, flags);
      }
      if !made { return false; }
      TablesShape(State());
      PeekIs(dir, i);
      var table := Number(Peek(dir, i));
      if table == 0 { return false; }
      TableInMemory(State(), i);
      PeekIs(table, j);
      Poke(table, j, SetFrame(AddAttrib(Peek(table, j), flags), p));
      SetTables(s, State(), i, j, p);
      return true;
    }

    /** vmmngr_alloc_page_f. */
    method AllocPage(base: bv32, flags: bv32) returns (ok: bool)
      requires Valid() && GoodFlags(flags)
      modifies ram, phys`usedBlocks, phys.bitmap
      ensures Valid() && (State(), ok) == PagingSpec.AllocPage(old(State()), base, flags)
    {
      hide Frames, DirIndex, TableIndex, PagingSpec.MapPage, AllocFrame, GoodFlags, TablesOk, AddrOf, Mapped, GetPhys;
      ghost var s := State();
      TablesShape(s);
      AllocFrameIs(s.used, s.max);
      var addr := base;
      var present := IsPagePresent(base);
      if present {
        addr := GetPhysAddr(base);
      } else if base < 0xF000_0000 {
        var block := phys.AllocBlock();
        if block == None {
          assert State() == s;
          return false;
        }
        addr := AddrOf(block.value);
        UsedGrows(s, State());
      }
      ok := MapPage(addr, base, flags);
    }

    /** vmmngr_free_page_addr, with vmmngr_free_page.  The frame in the entry is given back
        whether or not the page is present; ownership survives exactly the safe frees. */
    method FreePageAddr(v: bv32) returns (ok: bool)
      requires Valid()
      requires Table(State(), DirIndex(v)) != 0 ==> Data(State(), DirIndex(v), TableIndex(v)) < phys.maxBlocks
      modifies ram, phys`usedBlocks, phys.bitmap
      ensures Shape() && (State(), ok) == FreePage(old(State()), v)
      ensures old(Owned(State())) ==> (Owned(State()) <==> old(FreeIsSafe(State(), v)))
    {
      hide Frames, DirIndex, TableIndex, Number, IsPresent, Word, SetWord, Owned, FreeIsSafe, DelAttrib, TablesOk;
      var i, j := DirIndex(v), TableIndex(v);
      ghost var s := State();
      if Owned(s) { FreeKeepsOwned(s, v); }
      TablesShape(s);
      PeekIs(dir, i);
      var table := Number(Peek(dir, i));
      if table == 0 { return false; }
      TableInMemory(s, i);
      PeekIs(table, j);
      var entry := Peek(table, j);
      var frame := Number(entry);
      if frame != 0 { phys.FreeBlock(frame); }
      Poke(table, j, DelAttrib(DelAttrib(entry, 1), 2));
      return true;
    }
  }

  /** vmmngr_create_address_space: null when no frame is left for the directory. */
  method CreateAddressSpace(memory: array<bv32>, allocator: PhysicalMemory) returns (space: AddressSpace?)
    requires allocator.Valid() && memory != allocator.bitmap && memory.Length == 1024 * allocator.maxBlocks
    modifies memory, allocator`usedBlocks, allocator.bitmap
    ensures space == null <==> AllocFrame(old(allocator.Used()), allocator.maxBlocks) == None
    ensures space == null ==> memory[..] == old(memory[..]) && allocator.Used() == old(allocator.Used())
    ensures space != null ==>
              && space.Valid() && space.ram == memory && space.phys == allocator
              && space.State() == NewSpace(old(memory[..]), old(allocator.Used()), allocator.maxBlocks, space.dir)
              && Owned(space.State()) && forall v :: Translate(space.State(), v) == None
  {
    hide Frames, AllocFrame, Owned, Translate, TablesOk;
    AllocFrameIs(allocator.Used(), allocator.maxBlocks);
    var block := allocator.AllocBlock();
    if block == None { return null; }
    space := new AddressSpace(memory, allocator, block.value);
    NewSpaceOwned(old(memory[..]), old(allocator.Used()), allocator.maxBlocks, block.value);
  }

  // ----- facts the methods need

  lemma TablesShape(s: Vm)
    requires TablesOk(s)
    ensures s.max <= 0x10_0000 && |s.mem| == 1024 * s.max && 0 < s.dir < s.max && s.dir in s.used
  {
  }

  lemma TableInMemory(s: Vm, i: nat)
    requires TablesOk(s) && i < 1024 && Table(s, i) != 0
    ensures IsPresent(Pde(s, i)) && Table(s, i) < s.max
  {
    hide Number, IsPresent;
    ZeroNumber();
  }

  lemma CreateIfPresent(s: Vm, v: bv32, flags: bv32)
    ensures IsPresent(Pde(s, DirIndex(v))) ==> PagingSpec.CreateTable(s, v, flags) == (s, true)
  {
  }

  lemma SetTables(s: Vm, r: Vm, i: nat, j: nat, phys: bv32)
    requires PageSet(s, r, i, j, phys)
    ensures TablesOk(r)
  {
  }

  lemma EmptyTables(mem: seq<bv32>, used: set<nat>, max: nat, frame: nat)
    requires |mem| == 1024 * max && max <= 0x10_0000 && 0 < frame < max && frame in used
    ensures TablesOk(ZeroFrame(Vm(mem, used, max, frame), frame))
  {
    hide Number, IsPresent, Word, ZeroFrame;
    var e := Vm(mem, used, max, frame);
    var s := ZeroFrame(e, frame);
    ZeroNumber();
    AbsentZero();
    ZeroShape(e, frame);
    forall k | 0 <= k < 1024 ensures Pde(s, k) == 0 {
      assert s.dir == frame;
      WordZero(e, frame, frame, k);
    }
  }
}
