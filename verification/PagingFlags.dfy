/** The low bits of entries: present, writable and the rest (MeOS/vmmngr_pte.cpp, MeOS/vmmngr_pde.cpp). */
module PagingFlags {
  import opened Options
  import opened FrameBitmap
  import opened PageEntry
  import opened PagingSpec
  import opened PagingSafety
  import opened PagingRuns

  /** The entry map_page starts from; a new table is empty. */
  ghost function Before(s: Vm, i: nat, j: nat): bv32 {
    if IsPresent(Pde(s, i)) then Pte(s, i, j) else 0
  }

  /** Mapping adds the flags to those of the entry and clears none; an address that is not page
      aligned adds its low bits as well. */
  lemma MapFlags(s: Vm, phys: bv32, v: bv32, flags: bv32)
    requires TablesOk(s) && GoodFlags(flags) && MapPage(s, phys, v, flags).1
    ensures var i, j := DirIndex(v), TableIndex(v);
            Offset(Pte(MapPage(s, phys, v, flags).0, i, j)) == Joined(Before(s, i, j), flags, phys)
  {
    hide Number, IsPresent, GoodFlags, AllocFrame, DirIndex, TableIndex, Word, SetWord, SetFrame, AddAttrib, Offset,
        Joined;
    if IsPresent(Pde(s, DirIndex(v))) {
      EntryFlags(s, phys, v, flags);
    } else {
      var c := CreateTable(s, v, flags).0;
      AddTable(s, v, flags);
      AddedTablesOk(s, c, DirIndex(v), AllocFrame(s.used, s.max).value);
      EntryFlags(c, phys, v, flags);
    }
  }

  lemma EntryFlags(s: Vm, phys: bv32, v: bv32, flags: bv32)
    requires TablesOk(s) && IsPresent(Pde(s, DirIndex(v)))
    ensures var i, j := DirIndex(v), TableIndex(v);
            Offset(Pte(MapPage(s, phys, v, flags).0, i, j)) == Joined(Pte(s, i, j), flags, phys)
  {
    hide Number, IsPresent, AllocFrame, DirIndex, TableIndex, Word, SetWord, SetFrame, AddAttrib, Offset, Joined;
    var i, j := DirIndex(v), TableIndex(v);
    MappedFlags(Pte(s, i, j), flags, phys);
    SetPteReads(s, i, j, SetFrame(AddAttrib(Pte(s, i, j), flags), phys));
  }

  /** A new table's own entry has exactly the flags of the mapping that made it. */
  lemma NewTableFlags(s: Vm, v: bv32, flags: bv32)
    requires TablesOk(s) && GoodFlags(flags) && !IsPresent(Pde(s, DirIndex(v))) && AllocFrame(s.used, s.max).Some?
    ensures Offset(Pde(CreateTable(s, v, flags).0, DirIndex(v))) == Offset(flags)
  {
    hide Number, IsPresent, AllocFrame, DirIndex, Word, SetWord, ZeroFrame, SetFrame, AddAttrib, Offset, AddrOf, Joined;
    var i, t := DirIndex(v), AllocFrame(s.used, s.max).value;
    AllocFrameIs(s.used, s.max);
    var y := s.(used := s.used + {t});
    var z := ZeroFrame(y, t);
    ZeroShape(y, t);
    WordZero(y, t, s.dir, i);
    assert Pde(z, i) == 0 by { SameMem(y, s, s.dir, i); }
    var e := TableWord(Pde(z, i), t, flags);
    WordSet(z, z.dir, i, e, z.dir, i);
    SetShape(z, z.dir, i, e);
    TableFlags(0, flags, AddrOf(t));
    NoLowBits(t, flags);
  }

  lemma NoLowBits(t: nat, flags: bv32)
    requires t < 0x10_0000
    ensures Joined(0, flags, AddrOf(t)) == Offset(flags)
  {
    hide AddrOf;
    LowOfFrame(t);
    OrZero(flags);
  }

  lemma LowOfFrame(t: nat)
    requires t < 0x10_0000
    ensures Offset(AddrOf(t)) == 0
  {
    hide AddrOf, Number, Offset;
    NumberOfAddr(t);
    GetFrameNumber(AddrOf(t));
    LowOfGetFrame(AddrOf(t));
  }

  lemma LowOfGetFrame(e: bv32)
    ensures Offset(GetFrame(e)) == 0
  {
  }

  lemma OrZero(flags: bv32)
    ensures Offset(0) | Offset(flags) | 0 == Offset(flags)
  {
  }

  /** Freeing clears the present and the writable bit of the entry and no other. */
  lemma FreeFlags(s: Vm, v: bv32)
    requires TablesOk(s) && Table(s, DirIndex(v)) != 0
    ensures var i, j := DirIndex(v), TableIndex(v);
            Offset(Pte(FreePage(s, v).0, i, j)) == WithoutTwo(Pte(s, i, j))
  {
    hide Number, IsPresent, DirIndex, TableIndex, Word, SetWord, DelAttrib, Offset, WithoutTwo;
    var i, j := DirIndex(v), TableIndex(v);
    var e := DelAttrib(DelAttrib(Pte(s, i, j), 1), 2);
    FreedFlags(Pte(s, i, j));
    var f := Data(s, i, j);
    var u := if f != 0 then s.(used := s.used - {f}) else s;
    SetPteReads(s, i, j, e);
    SetShape(s, Table(s, i), j, e);
    SetShape(u, Table(s, i), j, e);
    SetCommutes(s, u, Table(s, i), j, e);
    SameMemory(SetWord(s, Table(s, i), j, e), FreePage(s, v).0);
  }
}
