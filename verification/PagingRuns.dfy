/** The tables as a flat map, ownership of frames, and whole runs. */
module PagingRuns {
  import opened Options
  import opened FrameBitmap
  import opened PageEntry
  import opened PagingSpec
  import opened PagingSafety

  // ----- the tables refine a flat map from pages to frames

  /** After a successful map_page the address leads to the given frame plus its offset, and
      every address on another page leads where it led, even when a table was created. */
  lemma MapRefinesFlat(s: Vm, phys: bv32, v: bv32, flags: bv32, w: bv32)
    requires TablesOk(s) && GoodFlags(flags) && MapPage(s, phys, v, flags).1
    ensures var r := MapPage(s, phys, v, flags).0;
            Translate(r, w) == if SamePage(v, w) then Some(PhysAddr(phys, w)) else Translate(s, w)
  {
    hide MapPage, PhysAddr, GetFrame, Offset, DirIndex, TableIndex, GoodFlags, Number, TablesOk, Word, IsPresent,
        PageSet, Translate;
    MapOutcome(s, phys, v, flags);
    var r := MapPage(s, phys, v, flags).0;
    NumberIsFrame(v, w);
    TranslateEither(s, r, DirIndex(v), TableIndex(v), phys, w);
  }

  lemma EntryAfterSet(s: Vm, r: Vm, i: nat, j: nat, phys: bv32, k: nat, l: nat)
    requires i < 1024 && j < 1024 && k < 1024 && l < 1024 && PageSet(s, r, i, j, phys)
    ensures k == i && l == j ==> Mapped(r, k, l) && GetFrame(Pte(r, k, l)) == GetFrame(phys)
    ensures !(k == i && l == j) ==>
              (Mapped(r, k, l) <==> Mapped(s, k, l)) && (Mapped(s, k, l) ==> Pte(r, k, l) == Pte(s, k, l))
  {
    hide GetFrame, Number, TablesOk, Mapped, Pte, Pde, AllocFrame;
  }

  lemma TranslateEither(s: Vm, r: Vm, i: nat, j: nat, phys: bv32, w: bv32)
    requires i < 1024 && j < 1024 && PageSet(s, r, i, j, phys)
    ensures Translate(r, w) ==
              if i == DirIndex(w) && j == TableIndex(w) then Some(PhysAddr(phys, w)) else Translate(s, w)
  {
    hide PhysAddr, GetFrame, Offset, DirIndex, TableIndex, Pte, Pde, Number, IsPresent, PageSet;
    EntryAfterSet(s, r, i, j, phys, DirIndex(w), TableIndex(w));
    if i == DirIndex(w) && j == TableIndex(w) { PhysAddrByFrame(Pte(r, i, j), phys, w); }
  }

  /** Freeing a page takes away that page's presence and nobody else's, and gives back the frame its
      entry holds. */
  lemma FreeRefinesFlat(s: Vm, v: bv32, w: bv32)
    requires TablesOk(s)
    ensures var (r, ok) := FreePage(s, v);
            && (ok <==> Table(s, DirIndex(v)) != 0)
            && Translate(r, w) == (if ok && SamePage(v, w) then None else Translate(s, w))
            && r.used == if ok then s.used - ({Data(s, DirIndex(v), TableIndex(v))} - {0}) else s.used
  {
    hide PhysAddr, GetFrame, Offset, DirIndex, TableIndex, Number, TablesOk, Word, IsPresent, PageFreed, Translate;
    NumberIsFrame(v, w);
    if Table(s, DirIndex(v)) != 0 {
      FreeReads(s, v);
      FreedTranslate(s, FreePage(s, v).0, DirIndex(v), TableIndex(v), w);
    }
  }

  lemma EntryAfterFree(s: Vm, r: Vm, i: nat, j: nat, k: nat, l: nat)
    requires i < 1024 && j < 1024 && k < 1024 && l < 1024 && PageFreed(s, r, i, j)
    ensures k == i && l == j ==> !Mapped(r, k, l)
    ensures !(k == i && l == j) ==> (Mapped(r, k, l) <==> Mapped(s, k, l)) && Pte(r, k, l) == Pte(s, k, l)
  {
    hide GetFrame, Number, IsPresent, Pde, Pte;
    assert Pde(r, k) == Pde(s, k);
  }

  lemma FreedTranslate(s: Vm, r: Vm, i: nat, j: nat, w: bv32)
    requires i < 1024 && j < 1024 && PageFreed(s, r, i, j)
    ensures Translate(r, w) == if i == DirIndex(w) && j == TableIndex(w) then None else Translate(s, w)
  {
    hide PhysAddr, GetFrame, Offset, DirIndex, TableIndex, Pte, Pde, Number, IsPresent, PageFreed;
    EntryAfterFree(s, r, i, j, DirIndex(w), TableIndex(w));
  }

  /** Entry by entry: the freed one is marked absent but keeps its frame. */
  ghost predicate PageFreed(s: Vm, r: Vm, i: nat, j: nat) {
    && SameTables(s, r) && Table(s, i) != 0
    && r.used == s.used - (if Data(s, i, j) != 0 then {Data(s, i, j)} else {})
    && !Mapped(r, i, j) && Data(r, i, j) == Data(s, i, j)
    && forall k, l :: 0 <= k < 1024 && 0 <= l < 1024 && !(k == i && l == j) ==> Pte(r, k, l) == Pte(s, k, l)
  }

  lemma FreeReads(s: Vm, v: bv32)
    requires TablesOk(s) && Table(s, DirIndex(v)) != 0
    ensures PageFreed(s, FreePage(s, v).0, DirIndex(v), TableIndex(v))
    ensures OthersSame(s, FreePage(s, v).0, DirIndex(v), TableIndex(v))
  {
    hide GetFrame, DirIndex, TableIndex, Number, Word, SetWord, IsPresent, DelAttrib;
    var i, j := DirIndex(v), TableIndex(v);
    var e := DelAttrib(DelAttrib(Pte(s, i, j), 1), 2);
    FreedEntry(Pte(s, i, j));
    SetPteReads(s, i, j, e);
    var t := Table(s, i);
    var u := if Data(s, i, j) != 0 then s.(used := s.used - {Data(s, i, j)}) else s;
    SetCommutes(s, u, t, j, e);
    var p, r := SetWord(s, t, j, e), SetWord(u, t, j, e);
    assert FreePage(s, v).0 == r;
    SetShape(s, t, j, e);
    SetShape(u, t, j, e);
    SameMemory(p, r);
  }

  lemma SetCommutes(s: Vm, u: Vm, t: nat, j: nat, e: bv32)
    requires s.mem == u.mem
    ensures SetWord(s, t, j, e).mem == SetWord(u, t, j, e).mem
  {
  }

  /** Reads depend on memory and the directory only. */
  lemma SameMemory(s: Vm, r: Vm)
    requires s.mem == r.mem && s.dir == r.dir
    ensures forall k: nat {:trigger Pde(r, k)} :: Pde(r, k) == Pde(s, k)
    ensures forall k: nat, l: nat {:trigger Pte(r, k, l)} :: Pte(r, k, l) == Pte(s, k, l)
    ensures forall k: nat, l: nat {:trigger Mapped(r, k, l)} :: Mapped(r, k, l) == Mapped(s, k, l)
    ensures forall k: nat, l: nat {:trigger Data(r, k, l)} :: Data(r, k, l) == Data(s, k, l)
  {
    hide Number, IsPresent;
  }

  // ----- device addresses, and pages that are there

  /** A device page that is not there is mapped to itself, taking no frame but one for a missing
      table; every other address leads where it led.  It fails exactly for want of that frame. */
  lemma DeviceAlloc(s: Vm, base: bv32, flags: bv32, w: bv32)
    requires TablesOk(s) && GoodFlags(flags) && base >= 0xF000_0000 && Translate(s, base) == None
    ensures var (r, ok) := AllocPage(s, base, flags);
            var present := IsPresent(Pde(s, DirIndex(base)));
            && (ok <==> present || AllocFrame(s.used, s.max).Some?)
            && (!ok ==> r == s)
            && (ok ==>
                 && Translate(r, w) == (if SamePage(base, w) then Some(PhysAddr(base, w)) else Translate(s, w))
                 && r.used == if present then s.used else s.used + {AllocFrame(s.used, s.max).value})
  {
    hide PhysAddr, Number, DirIndex, TableIndex, TablesOk, Word, IsPresent, MapPage, GoodFlags, AllocFrame;
    MapOutcome(s, base, base, flags);
    if MapPage(s, base, base, flags).1 { MapRefinesFlat(s, base, base, flags, w); }
  }

  /** Allocating a page that is there, at whatever address, succeeds and changes no translation and
      no frame. */
  lemma PresentAlloc(s: Vm, base: bv32, flags: bv32, w: bv32)
    requires TablesOk(s) && GoodFlags(flags) && Translate(s, base).Some?
    ensures var (r, ok) := AllocPage(s, base, flags);
            ok && Translate(r, w) == Translate(s, w) && r.used == s.used
  {
    hide PhysAddr, GetFrame, Number, DirIndex, TableIndex, TablesOk, Word, IsPresent, MapPage, GoodFlags, AllocFrame;
    var i, j := DirIndex(base), TableIndex(base);
    var phys := GetPhys(s, base);
    MapOutcome(s, phys, base, flags);
    MapRefinesFlat(s, phys, base, flags, w);
    NumberIsFrame(base, w);
    OffsetStays(Pte(s, i, j), base);
    PhysAddrByFrame(phys, Pte(s, i, j), w);
  }

  /** A new page leads to the lowest clear frame. */
  lemma FreshAlloc(s: Vm, base: bv32, flags: bv32, w: bv32)
    requires Owned(s) && GoodFlags(flags) && base < 0xF000_0000 && Translate(s, base) == None
    ensures var (r, ok) := AllocPage(s, base, flags);
            var f := AllocFrame(s.used, s.max);
            ok ==> f.Some? && f.value < 0x10_0000 && f.value in r.used &&
                   Translate(r, w) == if SamePage(base, w) then Some(PhysAddr(AddrOf(f.value), w)) else Translate(s, w)
  {
    hide PhysAddr, GetFrame, Number, DirIndex, TableIndex, Owned, Word, IsPresent, AllocPage, GoodFlags, AllocFrame,
        AddrOf, PageSet, Mapped, GetPhys;
    AllocOutcome(s, base, flags);
    AllocFrameIs(s.used, s.max);
    OwnedShape(s);
    var (r, ok) := AllocPage(s, base, flags);
    if ok {
      var f := AllocFrame(s.used, s.max).value;
      var s1 := s.(used := s.used + {f});
      SameMemory(s, s1);
      NumberIsFrame(base, w);
      TranslateEither(s1, r, DirIndex(base), TableIndex(base), AddrOf(f), w);
      UsedKept(s1, r, DirIndex(base), TableIndex(base), AddrOf(f));
      assert Translate(s1, w) == Translate(s, w) by { SameWalk(s, s1, w); }
    }
  }

  lemma UsedKept(s: Vm, r: Vm, i: nat, j: nat, phys: bv32)
    requires PageSet(s, r, i, j, phys)
    ensures s.used <= r.used
  {
    hide Number, Word, GetFrame, Pde, Pte, AllocFrame, IsPresent;
  }

  lemma SameWalk(s: Vm, r: Vm, w: bv32)
    requires s.mem == r.mem && s.dir == r.dir
    ensures Translate(r, w) == Translate(s, w)
  {
    hide Number, IsPresent, DirIndex, TableIndex, PhysAddr;
  }

  // ----- ownership

  /** The invariant as it is needed below: who uses a frame. */
  ghost predicate InUse(s: Vm, f: nat) {
    IsTable(s, f) || IsData(s, f)
  }

  /** vmmngr_alloc_page_f succeeds exactly when the page is there already, or a frame is left
      and, if a table is missing, one more for it. */
  lemma AllocOutcome(s: Vm, base: bv32, flags: bv32)
    requires Owned(s) && GoodFlags(flags) && base < 0xF000_0000
    ensures var (r, ok) := AllocPage(s, base, flags);
            var i, j := DirIndex(base), TableIndex(base);
            var f := AllocFrame(s.used, s.max);
            && (ok <==>
                Mapped(s, i, j) || (f.Some? && (IsPresent(Pde(s, i)) || AllocFrame(s.used + {f.value}, s.max).Some?)))
            && (!ok ==> r == s.(used := s.used + if f.Some? then {f.value} else {}))
            && (ok && Mapped(s, i, j) ==> PageSet(s, r, i, j, AddrOf(Data(s, i, j))) && r.used == s.used)
            && (ok && !Mapped(s, i, j) ==> PageSet(s.(used := s.used + {f.value}), r, i, j, AddrOf(f.value)))
  {
    hide GetFrame, DirIndex, TableIndex, Number, Word, SetWord, IsPresent, AllocFrame, GoodFlags, MapPage, PageSet,
        AddrOf, Offset, PhysAddr;
    var i, j := DirIndex(base), TableIndex(base);
    if Mapped(s, i, j) {
      MapOutcome(s, GetPhys(s, base), base, flags);
      PhysOfMapped(s, base, MapPage(s, GetPhys(s, base), base, flags).0);
    } else {
      AllocFrameIs(s.used, s.max);
      var f := AllocFrame(s.used, s.max);
      if f.Some? {
        var s1 := s.(used := s.used + {f.value});
        SameMemory(s, s1);
        UsedGrows(s, s1);
        MapOutcome(s1, AddrOf(f.value), base, flags);
      }
    }
  }

  lemma UsedGrows(s: Vm, r: Vm)
    requires TablesOk(s) && s.used <= r.used && r == s.(used := r.used)
    ensures TablesOk(r)
  {
    hide Number, IsPresent;
    SameMemory(s, r);
    TablesCarry(s, r);
  }

  lemma PhysOfMapped(s: Vm, base: bv32, r: Vm)
    requires Mapped(s, DirIndex(base), TableIndex(base))
    requires PageSet(s, r, DirIndex(base), TableIndex(base), GetPhys(s, base))
    ensures PageSet(s, r, DirIndex(base), TableIndex(base), AddrOf(Data(s, DirIndex(base), TableIndex(base))))
    ensures r.used == s.used
  {
    hide GetFrame, DirIndex, TableIndex, Number, Word, Pde, Pte, IsPresent, AllocFrame, AddrOf, Offset, PhysAddr,
        OthersSame, TablesOk;
    var e := Pte(s, DirIndex(base), TableIndex(base));
    var phys := GetPhys(s, base);
    OffsetStays(e, base);
    GetFrameNumber(e);
    NumberOfAddr(Number(e));
    NumberIsFrame(phys, e);
    NumberIsFrame(phys, AddrOf(Number(e)));
  }

  /** Allocation keeps ownership, also when it fails with a frame in hand. */
  lemma AllocKeepsOwned(s: Vm, base: bv32, flags: bv32)
    requires Owned(s) && GoodFlags(flags) && base < 0xF000_0000
    ensures Owned(AllocPage(s, base, flags).0)
  {
    hide GetFrame, DirIndex, TableIndex, Number, Word, IsPresent, AllocFrame, GoodFlags, AllocPage, PageSet, AddrOf,
        Owned;
    var i, j := DirIndex(base), TableIndex(base);
    var (r, ok) := AllocPage(s, base, flags);
    var f := AllocFrame(s.used, s.max);
    AllocOutcome(s, base, flags);
    AllocFrameIs(s.used, s.max);
    OwnedShape(s);
    if !ok {
      UsedGrowsOwned(s, r);
    } else if Mapped(s, i, j) {
      RemapKeepsOwned(s, r, i, j);
    } else {
      var s1 := s.(used := s.used + {f.value});
      UsedGrowsOwned(s, s1);
      SameMemory(s, s1);
      FreshFrame(s, s1, f.value);
      MapKeepsOwned(s1, r, i, j, f.value);
    }
  }

  lemma OwnedShape(s: Vm)
    requires Owned(s)
    ensures TablesOk(s) && |s.mem| == 1024 * s.max && s.max <= 0x10_0000 && 0 < s.dir < s.max
  {
  }

  lemma UsedGrowsOwned(s: Vm, r: Vm)
    requires Owned(s) && s.used <= r.used && r == s.(used := r.used)
    ensures Owned(r)
  {
    hide Number, IsPresent, TablesOk, Word;
    UsedGrows(s, r);
    SameMemory(s, r);
    assert forall i: nat :: Table(r, i) == Table(s, i);
    forall i, j | 0 <= i < 1024 && 0 <= j < 1024 && Mapped(r, i, j) ensures PageOk(r, i, j) {
      assert PageOk(s, i, j);
    }
  }

  /** A frame that was clear is nobody's. */
  lemma FreshFrame(s: Vm, r: Vm, f: nat)
    requires Owned(s) && 0 < f < s.max && f !in s.used && r == s.(used := s.used + {f})
    ensures Unowned(r, f)
  {
    hide Number, IsPresent, Word, Pde, Pte;
    SameMemory(s, r);
    ZeroNumber();
    assert forall k: nat :: Table(r, k) == Table(s, k);
    forall k, l | 0 <= k < 1024 && 0 <= l < 1024 && Mapped(r, k, l) ensures Data(r, k, l) != f {
      assert PageOk(s, k, l);
    }
  }

  ghost predicate Unowned(s: Vm, f: nat) {
    && 0 < f < s.max && f in s.used && f != s.dir
    && (forall k :: 0 <= k < 1024 ==> Table(s, k) != f)
    && (forall k, l :: 0 <= k < 1024 && 0 <= l < 1024 && Mapped(s, k, l) ==> Data(s, k, l) != f)
  }

  lemma MapKeepsOwned(s: Vm, r: Vm, i: nat, j: nat, f: nat)
    requires Owned(s) && i < 1024 && j < 1024 && !Mapped(s, i, j) && f < 0x10_0000 && Unowned(s, f)
    requires PageSet(s, r, i, j, AddrOf(f))
    ensures Owned(r)
  {
    hide Number, IsPresent, Word, AddrOf, AllocFrame, GetFrame, Pde, Pte;
    NumberOfAddr(f);
    AllocFrameIs(s.used, s.max);
    ZeroNumber();
    DataBounds(s, r, i, j, f);
    forall k, l | 0 <= k < 1024 && 0 <= l < 1024 && Mapped(r, k, l)
      ensures PageOk(r, k, l)
                && (!(k == i && l == j) ==> Mapped(s, k, l) && Data(r, k, l) == Data(s, k, l) && Data(r, k, l) != f)
    {
      if k == i && l == j {
        assert forall m :: 0 <= m < 1024 ==> Table(r, m) != f;
      } else {
        assert Mapped(s, k, l) && PageOk(s, k, l);
        assert Pte(r, k, l) == Pte(s, k, l);
        assert forall m :: 0 <= m < 1024 ==> Table(r, m) != Data(s, k, l);
      }
    }
  }

  lemma DataBounds(s: Vm, r: Vm, i: nat, j: nat, f: nat)
    requires Owned(s) && i < 1024 && j < 1024 && f < s.max && f < 0x10_0000
    requires PageSet(s, r, i, j, AddrOf(f))
    ensures forall k, l :: 0 <= k < 1024 && 0 <= l < 1024 && Table(r, k) != 0 ==> Data(r, k, l) < r.max
  {
    hide Number, IsPresent, Word, AddrOf, AllocFrame, GetFrame, Pde, Pte;
    NumberOfAddr(f);
    ZeroNumber();
    forall k, l | 0 <= k < 1024 && 0 <= l < 1024 && Table(r, k) != 0 ensures Data(r, k, l) < r.max {
      if !(k == i && l == j) {
        assert Pte(r, k, l) == if k == i && !IsPresent(Pde(s, i)) then 0 else Pte(s, k, l);
        if k == i && !IsPresent(Pde(s, i)) {
          assert Data(r, k, l) == 0;
        } else {
          assert Table(s, k) == Table(r, k) && Data(s, k, l) < s.max;
        }
      }
    }
  }

  lemma RemapKeepsOwned(s: Vm, r: Vm, i: nat, j: nat)
    requires Owned(s) && i < 1024 && j < 1024 && Mapped(s, i, j) && Data(s, i, j) < 0x10_0000
    requires PageSet(s, r, i, j, AddrOf(Data(s, i, j))) && r.used == s.used
    ensures Owned(r)
  {
    hide Number, IsPresent, Word, AddrOf, AllocFrame, GetFrame, Pte;
    var f := Data(s, i, j);
    NumberOfAddr(f);
    DataBounds(s, r, i, j, f);
    assert forall m :: 0 <= m < 1024 ==> Table(r, m) == Table(s, m);
    forall k, l | 0 <= k < 1024 && 0 <= l < 1024 && Mapped(r, k, l)
      ensures PageOk(r, k, l) && Mapped(s, k, l) && Data(r, k, l) == Data(s, k, l)
    {
      if !(k == i && l == j) { assert Mapped(s, k, l) && Pte(r, k, l) == Pte(s, k, l); }
      assert PageOk(s, k, l);
    }
  }

  // ----- freeing

  /** The frame a free gives up is used by nobody but the page that is freed. */
  ghost predicate FreeIsSafe(s: Vm, v: bv32) {
    var i, j := DirIndex(v), TableIndex(v);
    Table(s, i) == 0 || Mapped(s, i, j) || !InUse(s, Data(s, i, j))
  }

  /** free_page keeps ownership exactly when the page is present, or has no table, or the frame
      left in its entry by an earlier free has not been handed to anybody since. */
  lemma FreeKeepsOwned(s: Vm, v: bv32)
    requires Owned(s)
    ensures Owned(FreePage(s, v).0) <==> FreeIsSafe(s, v)
  {
    hide DirIndex, TableIndex, Number, Word, SetWord, IsPresent, Owned, PageFreed;
    OwnedShape(s);
    if Table(s, DirIndex(v)) != 0 {
      FreeReads(s, v);
      FreedOwned(s, FreePage(s, v).0, DirIndex(v), TableIndex(v));
    }
  }

  lemma FreedOwned(s: Vm, r: Vm, i: nat, j: nat)
    requires Owned(s) && i < 1024 && j < 1024 && PageFreed(s, r, i, j)
    ensures Owned(r) <==> Mapped(s, i, j) || !InUse(s, Data(s, i, j))
  {
    hide Number, Word, IsPresent, Owned, InUse, Mapped;
    if Mapped(s, i, j) {
      GoodFree(s, r, i, j);
    } else if InUse(s, Data(s, i, j)) {
      BadFree(s, r, i, j);
    } else {
      StaleFree(s, r, i, j);
    }
  }

  lemma GoodFree(s: Vm, r: Vm, i: nat, j: nat)
    requires Owned(s) && i < 1024 && j < 1024 && PageFreed(s, r, i, j) && Mapped(s, i, j)
    ensures Owned(r)
  {
    hide Number, IsPresent, Word, Pde, Pte, Mapped;
    var f := Data(s, i, j);
    assert PageOk(s, i, j);
    assert forall m :: 0 <= m < 1024 ==> Table(s, m) != f;
    FreedTables(s, r, f);
    forall k, l | 0 <= k < 1024 && 0 <= l < 1024 && Mapped(r, k, l)
      ensures PageOk(r, k, l) && Mapped(s, k, l) && Data(r, k, l) == Data(s, k, l)
    {
      EntryAfterFree(s, r, i, j, k, l);
      assert PageOk(s, k, l);
    }
    FreedBounds(s, r, i, j);
  }

  lemma StaleFree(s: Vm, r: Vm, i: nat, j: nat)
    requires Owned(s) && i < 1024 && j < 1024 && PageFreed(s, r, i, j) && !InUse(s, Data(s, i, j))
    ensures Owned(r)
  {
    hide Number, IsPresent, Word, Pde, Pte, Mapped;
    var f := Data(s, i, j);
    FreedTables(s, r, f);
    forall k, l | 0 <= k < 1024 && 0 <= l < 1024 && Mapped(r, k, l)
      ensures PageOk(r, k, l) && Mapped(s, k, l) && Data(r, k, l) == Data(s, k, l)
    {
      EntryAfterFree(s, r, i, j, k, l);
      assert PageOk(s, k, l);
    }
    FreedBounds(s, r, i, j);
  }

  lemma FreedTables(s: Vm, r: Vm, f: nat)
    requires TablesOk(s) && SameTables(s, r) && r.used == s.used - (if f != 0 then {f} else {})
    requires f != s.dir && forall m :: 0 <= m < 1024 ==> Table(s, m) != f || f == 0
    ensures TablesOk(r) && forall m :: 0 <= m < 1024 ==> Table(r, m) == Table(s, m)
  {
    hide Number, IsPresent, Pde;
    forall k | 0 <= k < 1024 ensures Pde(r, k) == Pde(s, k) && Table(r, k) == Table(s, k) {}
  }

  lemma FreedBounds(s: Vm, r: Vm, i: nat, j: nat)
    requires Owned(s) && i < 1024 && j < 1024 && PageFreed(s, r, i, j)
    ensures forall k, l :: 0 <= k < 1024 && 0 <= l < 1024 && Table(r, k) != 0 ==> Data(r, k, l) < r.max
  {
    hide Number, IsPresent, Word, Pde, Pte;
    forall k, l | 0 <= k < 1024 && 0 <= l < 1024 && Table(r, k) != 0 ensures Data(r, k, l) < r.max {
      assert Pde(r, k) == Pde(s, k) && Table(r, k) == Table(s, k);
      assert Data(s, k, l) < s.max;
      EntryAfterFree(s, r, i, j, k, l);
      assert Data(r, k, l) == Data(s, k, l);
    }
  }

  lemma BadFree(s: Vm, r: Vm, i: nat, j: nat)
    requires Owned(s) && i < 1024 && j < 1024 && PageFreed(s, r, i, j) && !Mapped(s, i, j) && InUse(s, Data(s, i, j))
    ensures !Owned(r)
  {
    hide Number, IsPresent, Word, Pde, Pte, Mapped;
    var f := Data(s, i, j);
    if f == s.dir {
    } else if f != 0 && exists k :: 0 <= k < 1024 && Table(s, k) == f {
      var k :| 0 <= k < 1024 && Table(s, k) == f;
      TableFreed(s, r, k);
    } else {
      var k, l :| 0 <= k < 1024 && 0 <= l < 1024 && Mapped(s, k, l) && Data(s, k, l) == f;
      assert PageOk(s, k, l);
      EntryAfterFree(s, r, i, j, k, l);
      assert Mapped(r, k, l) && Data(r, k, l) == f;
      assert !PageOk(r, k, l);
    }
  }

  lemma TableFreed(s: Vm, r: Vm, k: nat)
    requires TablesOk(s) && SameTables(s, r) && k < 1024 && Table(s, k) != 0 && Table(s, k) !in r.used
    ensures !TablesOk(r)
  {
    hide Number, Word;
    ZeroNumber();
    assert Pde(r, k) == Pde(s, k);
    assert IsPresent(Pde(s, k));
  }

  /** After a page is freed twice its frame can be handed out while another page still has it:
      the second free of page a breaks ownership as soon as page b got a's old frame. */
  lemma DoubleFreeBreaks(s: Vm, a: bv32, b: bv32, flags: bv32)
    requires Owned(s) && GoodFlags(flags) && b < 0xF000_0000 && !SamePage(a, b)
    requires Translate(s, a).Some? && Translate(s, b) == None && IsPresent(Pde(s, DirIndex(b)))
    requires var f := Data(s, DirIndex(a), TableIndex(a)); AllocFrame(s.used - {f}, s.max) == Some(f)
    ensures var once := FreePage(s, a).0;
            var (again, ok) := AllocPage(once, b, flags);
            ok && Owned(once) && Owned(again) && !Owned(FreePage(again, a).0)
  {
    hide DirIndex, TableIndex, Number, Word, SetWord, IsPresent, Owned, PageFreed, PageSet, AllocPage, FreePage,
        GoodFlags, AllocFrame, AddrOf, GetPhys;
    var i, j, k, l := DirIndex(a), TableIndex(a), DirIndex(b), TableIndex(b);
    var f := Data(s, i, j);
    NumberIsFrame(a, b);
    OwnedShape(s);
    FreeKeepsOwned(s, a);
    FreeReads(s, a);
    var once := FreePage(s, a).0;
    AfterFirstFree(s, once, i, j, k, l);
    AllocOutcome(once, b, flags);
    AllocKeepsOwned(once, b, flags);
    var again := AllocPage(once, b, flags).0;
    AfterHandOver(once, again, i, j, k, l, f);
    FreeKeepsOwned(again, a);
  }

  lemma AfterFirstFree(s: Vm, r: Vm, i: nat, j: nat, k: nat, l: nat)
    requires Owned(s) && i < 1024 && j < 1024 && k < 1024 && l < 1024 && !(i == k && j == l)
    requires PageFreed(s, r, i, j) && Mapped(s, i, j) && !Mapped(s, k, l) && IsPresent(Pde(s, k))
    ensures !Mapped(r, i, j) && !Mapped(r, k, l) && IsPresent(Pde(r, k)) && Data(r, i, j) == Data(s, i, j)
    ensures r.used == s.used - {Data(s, i, j)} && r.max == s.max && Table(r, i) != 0 && IsPresent(Pde(r, i))
  {
    hide Number, IsPresent, Word, Pde, Pte;
    assert PageOk(s, i, j);
    EntryAfterFree(s, r, i, j, k, l);
    assert Pde(r, k) == Pde(s, k) && Pde(r, i) == Pde(s, i);
  }

  lemma AfterHandOver(s: Vm, r: Vm, i: nat, j: nat, k: nat, l: nat, f: nat)
    requires i < 1024 && j < 1024 && k < 1024 && l < 1024 && !(i == k && j == l) && f < 0x10_0000
    requires !Mapped(s, i, j) && Table(s, i) != 0 && Data(s, i, j) == f && IsPresent(Pde(s, i)) && IsPresent(Pde(s, k))
    requires PageSet(s.(used := s.used + {f}), r, k, l, AddrOf(f))
    ensures !Mapped(r, i, j) && Table(r, i) != 0 && Data(r, i, j) == f && InUse(r, f)
  {
    hide Number, IsPresent, Word, Pde, Pte, AddrOf, GetFrame;
    SameMemory(s, s.(used := s.used + {f}));
    NumberOfAddr(f);
    assert Mapped(r, k, l) && Data(r, k, l) == f;
  }

  // ----- stores by programs

  /** No store through a present page changes the tables, or what any other present page or
      any other word of that page holds. */
  lemma StoreIsolated(s: Vm, v: bv32, x: bv32, w: bv32)
    requires Owned(s) && Translate(s, v).Some?
    ensures var r := Store(s, v, x);
            && Owned(r) && r.used == s.used && Translate(r, w) == Translate(s, w)
            && (Translate(s, w).Some? ==>
                 Load(r, w) == if SamePage(v, w) && WordIndex(v) == WordIndex(w) then x else Load(s, w))
  {
    hide DirIndex, TableIndex, Number, Word, SetWord, IsPresent, Owned, WordIndex, PhysAddr;
    var f := Data(s, DirIndex(v), TableIndex(v));
    NumberIsFrame(v, w);
    OwnedShape(s);
    DataPrivate(s, DirIndex(v), TableIndex(v));
    DataWrite(s, f, WordIndex(v), x);
    var r := Store(s, v, x);
    SameReadsOwned(s, r);
    var k, l := DirIndex(w), TableIndex(w);
    assert Translate(r, w) == Translate(s, w) && Data(r, k, l) == Data(s, k, l) by {
      hide Pde;
      assert Pte(r, k, l) == Pte(s, k, l);
    }
    if Translate(s, w).Some? {
      hide Pde, Pte, Data;
      DataDiffers(s, DirIndex(v), TableIndex(v), k, l);
      WordSet(s, f, WordIndex(v), x, Data(s, k, l), WordIndex(w));
    }
  }

  /** A load gives what was last stored in its word, through whichever address of it. */
  lemma StoreThenLoad(s: Vm, v: bv32, x: bv32, w: bv32)
    requires Owned(s) && Translate(s, v).Some? && Translate(s, w).Some?
    ensures Load(Store(s, v, x), w) == if WordOf(v) == WordOf(w) then x else Load(s, w)
  {
    hide Owned, Translate, Load, Store, WordOf, SamePage, WordIndex;
    StoreIsolated(s, v, x, w);
    SameWord(v, w);
  }

  lemma DataPrivate(s: Vm, i: nat, j: nat)
    requires Owned(s) && i < 1024 && j < 1024 && Mapped(s, i, j)
    ensures var f := Data(s, i, j); 0 < f < s.max && f != s.dir && forall k :: 0 <= k < 1024 ==> Table(s, k) != f
  {
    hide Number, IsPresent, Word, Pde, Pte;
    assert PageOk(s, i, j);
  }

  lemma DataDiffers(s: Vm, i: nat, j: nat, k: nat, l: nat)
    requires Owned(s) && i < 1024 && j < 1024 && k < 1024 && l < 1024 && Mapped(s, i, j) && Mapped(s, k, l)
    ensures Data(s, i, j) == Data(s, k, l) <==> i == k && j == l
  {
    hide Number, IsPresent, Word, Pde, Pte;
  }

  /** The same entries everywhere. */
  ghost predicate SameEntries(s: Vm, r: Vm) {
    && SameTables(s, r) && r.used == s.used
    && forall k, l :: 0 <= k < 1024 && 0 <= l < 1024 ==> Pte(r, k, l) == Pte(s, k, l)
  }

  lemma DataWrite(s: Vm, f: nat, w: nat, x: bv32)
    requires |s.mem| == 1024 * s.max && f < s.max && f != s.dir && w < 1024
    requires forall k :: 0 <= k < 1024 ==> Table(s, k) != f
    ensures SameEntries(s, SetWord(s, f, w, x))
  {
    hide Number, IsPresent, Word, SetWord;
    var r := SetWord(s, f, w, x);
    SetShape(s, f, w, x);
    forall k | 0 <= k < 1024 ensures Pde(r, k) == Pde(s, k) && Table(r, k) == Table(s, k) {
      WordSet(s, f, w, x, s.dir, k);
    }
    forall k, l | 0 <= k < 1024 && 0 <= l < 1024 ensures Pte(r, k, l) == Pte(s, k, l) {
      WordSet(s, f, w, x, Table(s, k), l);
    }
  }

  lemma SameReadsOwned(s: Vm, r: Vm)
    requires Owned(s) && SameEntries(s, r)
    ensures Owned(r)
    ensures forall k, l :: 0 <= k < 1024 && 0 <= l < 1024 ==>
              (Mapped(r, k, l) <==> Mapped(s, k, l)) && Table(r, k) == Table(s, k)
  {
    hide Number, IsPresent, Word, Pde, Pte;
    TablesCarry(s, r);
    forall k, l | 0 <= k < 1024 && 0 <= l < 1024
      ensures (Mapped(r, k, l) <==> Mapped(s, k, l)) && Table(r, k) == Table(s, k) && Data(r, k, l) == Data(s, k, l)
    {
      assert Pde(r, k) == Pde(s, k) && Pte(r, k, l) == Pte(s, k, l);
    }
    forall m | 0 <= m < 1024 ensures Table(r, m) == Table(s, m) { assert Pde(r, m) == Pde(s, m); }
    forall k, l | 0 <= k < 1024 && 0 <= l < 1024 && Mapped(r, k, l) ensures PageOk(r, k, l) {
      assert PageOk(s, k, l);
    }
  }

  // ----- whole runs

  datatype PageOp = AllocOp(base: bv32, flags: bv32) | FreeOp(v: bv32) | StoreOp(v: bv32, w: bv32)

  /** What the callers owe: good flags, no device addresses, no dangerous second free, and
      stores through present pages only. */
  ghost predicate Legal(s: Vm, op: PageOp) {
    match op
    case AllocOp(base, flags) => GoodFlags(flags) && base < 0xF000_0000
    case FreeOp(v) => FreeIsSafe(s, v)
    case StoreOp(v, w) => Translate(s, v).Some?
  }

  ghost function Apply(s: Vm, op: PageOp): Vm {
    match op
    case AllocOp(base, flags) => AllocPage(s, base, flags).0
    case FreeOp(v) => FreePage(s, v).0
    case StoreOp(v, w) => Store(s, v, w)
  }

  ghost predicate IsRun(states: seq<Vm>, ops: seq<PageOp>) {
    && |states| == |ops| + 1
    && forall k :: 0 <= k < |ops| ==> Legal(states[k], ops[k]) && states[k + 1] == Apply(states[k], ops[k])
  }

  /** vmmngr_create_address_space: a zeroed directory in a newly allocated frame. */
  ghost function NewSpace(mem: seq<bv32>, used: set<nat>, max: nat, dir: nat): Vm {
    ZeroFrame(Vm(mem, used + {dir}, max, dir), dir)
  }

  lemma NewSpaceOwned(mem: seq<bv32>, used: set<nat>, max: nat, dir: nat)
    requires |mem| == 1024 * max && max <= 0x10_0000 && AllocFrame(used, max) == Some(dir)
    ensures var s := NewSpace(mem, used, max, dir); Owned(s) && forall v :: Translate(s, v) == None
  {
    hide Number, IsPresent, Word, ZeroFrame, AllocFrame, DirIndex, TableIndex;
    AllocFrameIs(used, max);
    ZeroNumber();
    AbsentZero();
    var e := Vm(mem, used + {dir}, max, dir);
    var s := ZeroFrame(e, dir);
    ZeroShape(e, dir);
    forall k | 0 <= k < 1024 ensures Pde(s, k) == 0 {
      WordZero(e, dir, dir, k);
      assert s.dir == dir;
    }
  }

  lemma StepKeepsOwned(s: Vm, op: PageOp)
    requires Owned(s) && Legal(s, op)
    ensures Owned(Apply(s, op))
  {
    hide AllocPage, FreePage, Store, Owned, FreeIsSafe, GoodFlags, Translate;
    match op
    case AllocOp(base, flags) => AllocKeepsOwned(s, base, flags);
    case FreeOp(v) => FreeKeepsOwned(s, v);
    case StoreOp(v, w) => StoreIsolated(s, v, w, v);
  }

  /** Over every run from an empty directory, out-of-memory failures included, ownership holds
      in every state. */
  lemma {:induction false} RunKeepsOwned(states: seq<Vm>, ops: seq<PageOp>, n: nat)
    requires IsRun(states, ops) && Owned(states[0]) && n < |states|
    ensures Owned(states[n])
  {
    hide Owned, Legal, Apply;
    if n > 0 {
      RunKeepsOwned(states, ops, n - 1);
      StepKeepsOwned(states[n - 1], ops[n - 1]);
    }
  }

  // ----- the double free is reachable

  /** Right after a fresh allocation of page a, every unmapped page b under the same table meets
      what DoubleFreeBreaks asks for. */
  lemma FreshPageIsDoubleFreeable(s: Vm, a: bv32, b: bv32, flags: bv32)
    requires Owned(s) && GoodFlags(flags) && a < 0xF000_0000 && DirIndex(a) == DirIndex(b) && !SamePage(a, b)
    requires Translate(s, a) == None && Translate(s, b) == None && AllocPage(s, a, flags).1
    ensures var r := AllocPage(s, a, flags).0;
            && Owned(r) && Translate(r, a).Some? && Translate(r, b) == None && IsPresent(Pde(r, DirIndex(b)))
            && AllocFrame(r.used - {Data(r, DirIndex(a), TableIndex(a))}, r.max) ==
                Some(Data(r, DirIndex(a), TableIndex(a)))
  {
    hide DirIndex, TableIndex, Number, Word, IsPresent, Owned, PageSet, AllocPage, GoodFlags, AllocFrame, AddrOf,
        GetPhys;
    var i, j := DirIndex(a), TableIndex(a);
    NumberIsFrame(a, b);
    OwnedShape(s);
    AllocOutcome(s, a, flags);
    AllocKeepsOwned(s, a, flags);
    AllocFrameIs(s.used, s.max);
    var f := AllocFrame(s.used, s.max).value;
    var s1 := s.(used := s.used + {f});
    var r := AllocPage(s, a, flags).0;
    SameMemory(s, s1);
    NumberOfAddr(f);
    SetFacts(s1, r, i, j, TableIndex(b), AddrOf(f));
    LowestAgain(s.used, s.max, f, r.used);
  }

  lemma SetFacts(s: Vm, r: Vm, i: nat, j: nat, l: nat, phys: bv32)
    requires i < 1024 && j < 1024 && l < 1024 && l != j && PageSet(s, r, i, j, phys)
    ensures IsPresent(Pde(r, i)) && Mapped(r, i, j) && (Mapped(r, i, l) <==> Mapped(s, i, l))
              && Data(r, i, j) == Number(phys)
    ensures r.max == s.max && s.used <= r.used
  {
    hide Number, Word, GetFrame, Pde, Pte, AllocFrame, IsPresent;
  }

  lemma LowestAgain(used: set<nat>, max: nat, f: nat, more: set<nat>)
    requires AllocFrame(used, max) == Some(f) && used + {f} <= more
    ensures AllocFrame(more - {f}, max) == Some(f)
  {
    FirstClearIs(used, 0, max, f);
    FirstClearIs(more - {f}, 0, max, f);
  }

  lemma {:induction false} FirstClearIs(used: set<nat>, i: nat, max: nat, f: nat)
    requires i <= f < max && f !in used && forall g :: i <= g < f ==> g in used
    ensures FirstClear(used, i, max) == Some(f)
    decreases f - i
  {
    if i < f { FirstClearIs(used, i + 1, max, f); }
  }

  /** In a new address space with two frames to spare: allocate a, free it, allocate b, free a
      again.  The first three calls are legal and keep ownership; after the fourth, b's frame is
      marked free while b is present. */
  lemma DoubleFreeRun(mem: seq<bv32>, used: set<nat>, max: nat, dir: nat, a: bv32, b: bv32, flags: bv32)
    requires |mem| == 1024 * max && max <= 0x10_0000 && AllocFrame(used, max) == Some(dir)
    requires GoodFlags(flags) && a < 0xF000_0000 && b < 0xF000_0000 && DirIndex(a) == DirIndex(b) && !SamePage(a, b)
    requires AllocPage(NewSpace(mem, used, max, dir), a, flags).1
    ensures var s1 := AllocPage(NewSpace(mem, used, max, dir), a, flags).0;
            var s2 := FreePage(s1, a).0;
            var (s3, ok) := AllocPage(s2, b, flags);
            && Owned(s1) && FreeIsSafe(s1, a) && Owned(s2) && ok && Owned(s3)
            && !FreeIsSafe(s3, a) && !Owned(FreePage(s3, a).0)
  {
    hide DirIndex, TableIndex, Number, Word, IsPresent, Owned, AllocPage, FreePage, GoodFlags, AllocFrame, NewSpace,
        GetPhys;
    NewSpaceOwned(mem, used, max, dir);
    var s := NewSpace(mem, used, max, dir);
    FreshPageIsDoubleFreeable(s, a, b, flags);
    var s1 := AllocPage(s, a, flags).0;
    DoubleFreeBreaks(s1, a, b, flags);
    var s3 := AllocPage(FreePage(s1, a).0, b, flags).0;
    FreeKeepsOwned(s3, a);
  }
}
