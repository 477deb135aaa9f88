/** What one paging operation does to the tables. */
module PagingSafety {
  import opened Options
  import opened FrameBitmap
  import opened PageEntry
  import opened PagingSpec

  /** Every entry of a present page but (i, j) is as it was. */
  ghost predicate OthersSame(s: Vm, r: Vm, i: nat, j: nat) {
    forall k, l :: 0 <= k < 1024 && 0 <= l < 1024 && !(k == i && l == j) ==>
      (Mapped(r, k, l) <==> Mapped(s, k, l)) && (Mapped(s, k, l) ==> Pte(r, k, l) == Pte(s, k, l))
  }

  /** `r` has the tables of `s`. */
  ghost predicate SameTables(s: Vm, r: Vm) {
    && |r.mem| == |s.mem| && r.max == s.max && r.dir == s.dir
    && forall k :: 0 <= k < 1024 ==> Pde(r, k) == Pde(s, k)
  }

  // ----- writing one page-table entry

  lemma SetPteReads(s: Vm, i: nat, j: nat, e: bv32)
    requires TablesOk(s) && i < 1024 && j < 1024 && Table(s, i) != 0
    ensures var r := SetWord(s, Table(s, i), j, e); SameTables(s, r) && r.used == s.used && TablesOk(r)
    ensures var r := SetWord(s, Table(s, i), j, e);
            forall k, l :: 0 <= k < 1024 && 0 <= l < 1024 ==>
                Pte(r, k, l) == if k == i && l == j then e else Pte(s, k, l)
  {
    hide Word, SetWord, Number, IsPresent;
    var t := Table(s, i);
    var r := SetWord(s, t, j, e);
    SetShape(s, t, j, e);
    ZeroNumber();
    forall k | 0 <= k < 1024 ensures Pde(r, k) == Pde(s, k) {
      WordSet(s, t, j, e, s.dir, k);
    }
    assert SameTables(s, r);
    forall k, l | 0 <= k < 1024 && 0 <= l < 1024
      ensures Pte(r, k, l) == if k == i && l == j then e else Pte(s, k, l)
    {
      assert Pde(r, k) == Pde(s, k);
      WordSet(s, t, j, e, Table(s, k), l);
    }
    TablesCarry(s, r);
  }

  lemma TablesCarry(s: Vm, r: Vm)
    requires TablesOk(s) && SameTables(s, r) && s.used <= r.used
    ensures TablesOk(r)
  {
    hide Pde, Number, IsPresent;
    forall k | 0 <= k < 1024 ensures Pde(r, k) == Pde(s, k) && Table(r, k) == Table(s, k) {}
  }

  // ----- adding a table

  /** The state after a table in frame t has been entered for directory index i. */
  ghost predicate TableAdded(s: Vm, r: Vm, i: nat, t: nat) {
    && |r.mem| == |s.mem| && r.max == s.max && r.dir == s.dir && r.used == s.used + {t}
    && IsPresent(Pde(r, i)) && Table(r, i) == t
    && (forall k :: 0 <= k < 1024 && k != i ==> Pde(r, k) == Pde(s, k))
    && (forall l :: 0 <= l < 1024 ==> Pte(r, i, l) == 0)
    && (forall k, l :: 0 <= k < 1024 && 0 <= l < 1024 && k != i ==> Pte(r, k, l) == Pte(s, k, l))
  }

  lemma AllocFrameIs(used: set<nat>, max: nat)
    ensures AllocFrame(used, max).Some? ==>
              0 < AllocFrame(used, max).value < max && AllocFrame(used, max).value !in used
  {
  }

  lemma AddTable(s: Vm, v: bv32, flags: bv32)
    requires TablesOk(s) && GoodFlags(flags) && !IsPresent(Pde(s, DirIndex(v))) && AllocFrame(s.used, s.max).Some?
    ensures var t := AllocFrame(s.used, s.max).value;
            0 < t < s.max && t !in s.used && TableAdded(s, CreateTable(s, v, flags).0, DirIndex(v), t)
  {
    hide Word, SetWord, ZeroFrame, Number, IsPresent, GoodFlags, AddrOf, AddAttrib, SetFrame, AllocFrame, DirIndex;
    var i, t := DirIndex(v), AllocFrame(s.used, s.max).value;
    AllocFrameIs(s.used, s.max);
    var z := ZeroFrame(s.(used := s.used + {t}), t);
    var e := TableWord(Pde(z, i), t, flags);
    var r := SetWord(z, z.dir, i, e);
    ZeroShape(s.(used := s.used + {t}), t);
    SetShape(z, z.dir, i, e);
    TableEntry(Pde(z, i), flags, AddrOf(t));
    NumberOfAddr(t);
    ZeroNumber();
    AddedReads(s, r, i, t, e);
  }

  lemma AddedReads(s: Vm, r: Vm, i: nat, t: nat, e: bv32)
    requires TablesOk(s) && i < 1024 && !IsPresent(Pde(s, i)) && 0 < t < s.max && t !in s.used
    requires r == SetWord(ZeroFrame(s.(used := s.used + {t}), t), s.dir, i, e) && IsPresent(e) && Number(e) == t
    requires |r.mem| == |s.mem| && r.max == s.max && r.dir == s.dir && r.used == s.used + {t}
    ensures TableAdded(s, r, i, t)
  {
    hide Word, SetWord, ZeroFrame, Number, IsPresent;
    var y := s.(used := s.used + {t});
    ZeroNumber();
    ZeroShape(y, t);
    forall g: nat, k: nat | k < 1024
      ensures Word(r, g, k) == if g == s.dir && k == i then e else if g == t then 0 else Word(s, g, k)
    {
      WordZero(y, t, g, k);
      WordSet(ZeroFrame(y, t), s.dir, i, e, g, k);
      assert Word(y, g, k) == Word(s, g, k) by { SameMem(y, s, g, k); }
    }
    forall k | 0 <= k < 1024 && k != i ensures Pde(r, k) == Pde(s, k) && Table(s, k) != t && Table(s, k) != s.dir {}
  }

  lemma SameMem(s: Vm, r: Vm, g: nat, k: nat)
    requires s.mem == r.mem
    ensures Word(s, g, k) == Word(r, g, k)
  {
  }

  lemma AddedTablesOk(s: Vm, r: Vm, i: nat, t: nat)
    requires TablesOk(s) && i < 1024 && !IsPresent(Pde(s, i)) && 0 < t < s.max && t !in s.used && TableAdded(s, r, i, t)
    ensures TablesOk(r)
  {
    hide Pde, Number, IsPresent;
    ZeroNumber();
    forall k | 0 <= k < 1024 && k != i
      ensures Pde(r, k) == Pde(s, k) && Table(r, k) == Table(s, k) && Table(r, k) != t {}
  }

  // ----- mapping a page

  /** What map_page does when it succeeds: the entry holds the frame, nothing else is touched,
      and at most one frame, for a table, has been taken. */
  ghost predicate PageSet(s: Vm, r: Vm, i: nat, j: nat, phys: bv32) {
    && TablesOk(r) && |r.mem| == |s.mem| && r.max == s.max && r.dir == s.dir
    && Mapped(r, i, j) && GetFrame(Pte(r, i, j)) == GetFrame(phys) && Data(r, i, j) == Number(phys)
    && OthersSame(s, r, i, j)
    && (forall k :: 0 <= k < 1024 && k != i ==> Table(r, k) == Table(s, k))
    && (forall k, l :: 0 <= k < 1024 && 0 <= l < 1024 && !(k == i && l == j) ==>
          Pte(r, k, l) == if k == i && !IsPresent(Pde(s, i)) then 0 else Pte(s, k, l))
    && if IsPresent(Pde(s, i)) then r.used == s.used && Table(r, i) == Table(s, i)
       else AllocFrame(s.used, s.max) == Some(Table(r, i)) && r.used == s.used + {Table(r, i)}
  }

  lemma SetPage(s: Vm, phys: bv32, v: bv32, flags: bv32)
    requires TablesOk(s) && GoodFlags(flags) && IsPresent(Pde(s, DirIndex(v)))
    ensures var (r, ok) := MapPage(s, phys, v, flags); ok && PageSet(s, r, DirIndex(v), TableIndex(v), phys)
  {
    hide Word, SetWord, Number, IsPresent, GoodFlags, AddrOf, AddAttrib, SetFrame, AllocFrame, DirIndex, TableIndex,
        GetFrame;
    var i, j := DirIndex(v), TableIndex(v);
    var e := SetFrame(AddAttrib(Pte(s, i, j), flags), phys);
    MappedEntry(Pte(s, i, j), flags, phys);
    NumberIsFrame(e, phys);
    SetPteReads(s, i, j, e);
  }

  lemma SetNewPage(s: Vm, phys: bv32, v: bv32, flags: bv32)
    requires TablesOk(s) && GoodFlags(flags) && !IsPresent(Pde(s, DirIndex(v))) && AllocFrame(s.used, s.max).Some?
    ensures var (r, ok) := MapPage(s, phys, v, flags); ok && PageSet(s, r, DirIndex(v), TableIndex(v), phys)
  {
    hide Word, SetWord, Number, IsPresent, GoodFlags, AddrOf, AddAttrib, SetFrame, AllocFrame, DirIndex, TableIndex,
        GetFrame;
    var i, j, t := DirIndex(v), TableIndex(v), AllocFrame(s.used, s.max).value;
    AddTable(s, v, flags);
    var c := CreateTable(s, v, flags).0;
    AddedTablesOk(s, c, i, t);
    SetPage(c, phys, v, flags);
    AddedThenSet(s, c, MapPage(c, phys, v, flags).0, i, j, t, phys);
  }

  lemma AddedThenSet(s: Vm, c: Vm, r: Vm, i: nat, j: nat, t: nat, phys: bv32)
    requires i < 1024 && j < 1024 && !IsPresent(Pde(s, i)) && AllocFrame(s.used, s.max) == Some(t)
    requires TablesOk(s) && TableAdded(s, c, i, t) && PageSet(c, r, i, j, phys)
    ensures PageSet(s, r, i, j, phys)
  {
    hide Word, Number, IsPresent, AllocFrame, GetFrame, Pde;
    AbsentZero();
    ZeroNumber();
    forall k, l | 0 <= k < 1024 && 0 <= l < 1024 && !(k == i && l == j)
      ensures (Mapped(r, k, l) <==> Mapped(s, k, l)) && (Mapped(s, k, l) ==> Pte(r, k, l) == Pte(s, k, l))
      ensures Pte(r, k, l) == if k == i then 0 else Pte(s, k, l)
    {
      assert Mapped(r, k, l) <==> Mapped(c, k, l);
      if k != i { assert Pde(c, k) == Pde(s, k) && Pte(c, k, l) == Pte(s, k, l); }
    }
  }

  lemma AbsentZero()
    ensures !IsPresent(0)
  {
  }

  /** vmmngr_map_page succeeds exactly when the table is there or a frame is left for one; when
      it fails nothing has changed. */
  lemma MapOutcome(s: Vm, phys: bv32, v: bv32, flags: bv32)
    requires TablesOk(s) && GoodFlags(flags)
    ensures var (r, ok) := MapPage(s, phys, v, flags);
            && (ok <==> IsPresent(Pde(s, DirIndex(v))) || AllocFrame(s.used, s.max).Some?)
            && (if ok then PageSet(s, r, DirIndex(v), TableIndex(v), phys) else r == s)
  {
    hide IsPresent, GoodFlags, AllocFrame, DirIndex, TableIndex, PageSet, Pde, TablesOk;
    if IsPresent(Pde(s, DirIndex(v))) {
      SetPage(s, phys, v, flags);
    } else if AllocFrame(s.used, s.max).Some? {
      SetNewPage(s, phys, v, flags);
    }
  }
}
