/** The page cache together with the page tables that back its buffers: reserving a buffer
    allocates its page, releasing it frees that page (MeOS/page_cache.cpp:130-260 over
    MeOS/mmngr_virtual.cpp:274-321). */
module PageCacheFrames {
  import opened Options
  import opened FrameBitmap
  import opened PageEntry
  import opened PagingSpec
  import opened PagingSafety
  import opened PagingRuns
  import C = PageCacheSpec

  /** Present and writable. */
  const DEFAULT_FLAGS: bv32 := 3

  datatype System = System(cache: C.Cache, vm: Vm)

  /** The address of a buffer, as the paging functions take it. */
  function BufferWord(c: C.Cache, i: nat): bv32 {
    Word32(C.AddrByIndex(c, i))
  }

  // ----- operations

  /** The page allocation in page_cache_reserve_anonymous, for the buffer it found. */
  ghost function BackFree(s: System): (Vm, bool) {
    AllocPage(s.vm, BufferWord(s.cache, C.FirstFree(s.cache.bitmap, 0)), DEFAULT_FLAGS)
  }

  ghost function ReserveAnonymous(s: System): (System, nat) {
    if C.FirstFree(s.cache.bitmap, 0) >= C.Buffers(s.cache) then (s, 0)
    else
      var (vm, ok) := BackFree(s);
      var (cache, a) := C.ReserveAnonymous(s.cache, ok);
      (System(cache, vm), a)
  }

  ghost function ReserveBuffer(s: System, gfd: nat, page: nat): (System, nat)
    requires gfd < |s.cache.files|
  {
    if C.FirstFree(s.cache.bitmap, 0) >= C.Buffers(s.cache) then (s, 0)
    else
      var (vm, ok) := BackFree(s);
      var (cache, a) := C.ReserveBuffer(s.cache, gfd, page, ok);
      (System(cache, vm), a)
  }

  ghost function ReleaseAnonymous(s: System, a: nat): System
    requires a < C.ADDRESSES
  {
    if C.IndexByAddr(s.cache, a) >= C.Buffers(s.cache) then s
    else System(C.ReleaseAnonymous(s.cache, a), FreePage(s.vm, Word32(a)).0)
  }

  ghost function ReleaseBuffer(s: System, gfd: nat, page: nat): (System, bool)
    requires gfd < |s.cache.files|
  {
    match C.BufferOf(s.cache.files[gfd].pages, page)
    case None => (s, false)
    case Some(i) =>
      var (cache, ok) := C.ReleaseBuffer(s.cache, gfd, page);
      (System(cache, if i < C.Buffers(s.cache) then FreePage(s.vm, BufferWord(s.cache, i)).0 else s.vm), ok)
  }

  // ----- the joint invariant

  ghost predicate Backs(c: C.Cache, vm: Vm, i: nat) {
    Translate(vm, BufferWord(c, i)).Some?
  }

  /** The cache is page aligned and below the device addresses. */
  predicate Aligned(c: C.Cache) {
    c.base % C.PAGE_SIZE == 0 && c.base + C.Buffers(c) * C.PAGE_CACHE_SIZE <= 0xF000_0000
  }

  /** Every buffer in use, the last with the bitmap among them, has a present page, and with it, by
      ownership, a frame of its own. */
  ghost predicate Inv(s: System) {
    && C.Inv(s.cache) && Owned(s.vm) && Aligned(s.cache)
    && forall i: nat :: i < C.Buffers(s.cache) && s.cache.bitmap[i] ==> Backs(s.cache, s.vm, i)
  }

  // ----- pages of buffers

  lemma BufferAddr(c: C.Cache, i: nat)
    requires C.Placed(c) && Aligned(c) && i < C.Buffers(c)
    ensures C.AddrByIndex(c, i) == c.base + i * C.PAGE_CACHE_SIZE < 0xF000_0000
    ensures Number(BufferWord(c, i)) == c.base / C.PAGE_SIZE + i
    ensures BufferWord(c, i) < 0xF000_0000
  {
    hide Number, Word32;
    C.IndexOfAddr(c, i);
    Word32Page(C.AddrByIndex(c, i));
    Word32Below(C.AddrByIndex(c, i));
    PageOfSum(c.base, i);
  }

  lemma PageOfSum(base: nat, i: nat)
    requires base % 4096 == 0
    ensures (base + i * 4096) / 4096 == base / 4096 + i
  {
  }

  /** Different buffers, different pages. */
  lemma BuffersApart(c: C.Cache, i: nat, j: nat)
    requires C.Placed(c) && Aligned(c) && i < C.Buffers(c) && j < C.Buffers(c)
    ensures SamePage(BufferWord(c, i), BufferWord(c, j)) <==> i == j
  {
    hide Number, BufferWord;
    BufferAddr(c, i);
    BufferAddr(c, j);
  }

  /** An address lies on the page of the buffer it names. */
  lemma NamedPage(c: C.Cache, a: nat)
    requires C.Placed(c) && Aligned(c) && a < C.ADDRESSES && C.IndexByAddr(c, a) < C.Buffers(c)
    ensures SamePage(Word32(a), BufferWord(c, C.IndexByAddr(c, a)))
  {
    hide Number, Word32, BufferWord;
    var i := C.IndexByAddr(c, a);
    BufferAddr(c, i);
    Word32Page(a);
    NamedNumber(c.base, a, i, C.Buffers(c));
  }

  lemma NamedNumber(base: nat, a: nat, i: nat, n: nat)
    requires base % 4096 == 0 && base + n * 4096 <= 0xF000_0000 && a < 0x1_0000_0000
    requires i == ((a - base) % 0x1_0000_0000) / 4096 && i < n
    ensures a / 4096 == base / 4096 + i
  {
    assert (a - base) % 0x1_0000_0000 == if a >= base then a - base else a - base + 0x1_0000_0000;
  }

  lemma DefaultsGood()
    ensures GoodFlags(DEFAULT_FLAGS)
  {
  }

  lemma SamePageSame(vm: Vm, v: bv32, w: bv32)
    requires SamePage(v, w)
    ensures Translate(vm, v).Some? <==> Translate(vm, w).Some?
    ensures FreeIsSafe(vm, v) <==> FreeIsSafe(vm, w)
    ensures FreePage(vm, v) == FreePage(vm, w)
  {
    hide DirIndex, TableIndex, Number, Mapped, InUse, GetPhys, Table, Data, Pte, SetWord, DelAttrib, GetFrame;
    NumberIsFrame(v, w);
  }

  // ----- reserving

  /** Backing a buffer keeps ownership and every page that is present. */
  lemma BackKeeps(vm: Vm, v: bv32, w: bv32)
    requires Owned(vm) && v < 0xF000_0000
    ensures var (r, ok) := AllocPage(vm, v, DEFAULT_FLAGS);
            && Owned(r) && (ok ==> Translate(r, v).Some?)
            && (Translate(vm, w).Some? ==> Translate(r, w) == Translate(vm, w))
  {
    hide Owned, AllocPage, Mapped, DirIndex, TableIndex, Number, AllocFrame, PageSet, AddrOf, PhysAddr, GetFrame, Word,
        GetPhys;
    DefaultsGood();
    AllocKeepsOwned(vm, v, DEFAULT_FLAGS);
    AllocOutcome(vm, v, DEFAULT_FLAGS);
    var (r, ok) := AllocPage(vm, v, DEFAULT_FLAGS);
    var i, j := DirIndex(v), TableIndex(v);
    OwnedShape(vm);
    AllocFrameIs(vm.used, vm.max);
    if !ok {
      SameMemory(vm, r);
      SameWalk(vm, r, w);
    } else if Mapped(vm, i, j) {
      DataInRange(vm, i, j);
      TranslateSet(vm, vm, r, v, AddrOf(Data(vm, i, j)), w);
      RemappedSame(vm, r, v, w);
    } else {
      var f := AllocFrame(vm.used, vm.max).value;
      var vm1 := vm.(used := vm.used + {f});
      SameMemory(vm, vm1);
      SameWalk(vm, vm1, w);
      TranslateSet(vm, vm1, r, v, AddrOf(f), w);
      if SamePage(v, w) { SamePageSame(vm, v, w); SamePageSame(r, v, w); }
    }
  }

  lemma DataInRange(vm: Vm, i: nat, j: nat)
    requires Owned(vm) && i < 1024 && j < 1024 && Mapped(vm, i, j)
    ensures Data(vm, i, j) < vm.max <= 0x10_0000
  {
    hide Number, IsPresent, Word;
  }

  lemma TranslateSet(s: Vm, s1: Vm, r: Vm, v: bv32, phys: bv32, w: bv32)
    requires PageSet(s1, r, DirIndex(v), TableIndex(v), phys) && Translate(s1, w) == Translate(s, w)
    ensures Translate(r, v).Some?
    ensures !SamePage(v, w) ==> Translate(r, w) == Translate(s, w)
    ensures SamePage(v, w) ==> Translate(r, w) == Some(PhysAddr(phys, w))
  {
    hide PageSet, Translate, DirIndex, TableIndex, Number, PhysAddr;
    NumberIsFrame(v, w);
    TranslateEither(s1, r, DirIndex(v), TableIndex(v), phys, v);
    TranslateEither(s1, r, DirIndex(v), TableIndex(v), phys, w);
  }

  /** Allocating a page that is there maps it to the frame it has. */
  lemma RemappedSame(vm: Vm, r: Vm, v: bv32, w: bv32)
    requires Mapped(vm, DirIndex(v), TableIndex(v)) && Data(vm, DirIndex(v), TableIndex(v)) < 0x10_0000
    ensures SamePage(v, w) ==> Translate(vm, w) == Some(PhysAddr(AddrOf(Data(vm, DirIndex(v), TableIndex(v))), w))
  {
    hide DirIndex, TableIndex, PhysAddr, GetFrame, AddrOf, Word, IsPresent, Number;
    NumberIsFrame(v, w);
    if SamePage(v, w) {
      var e := Pte(vm, DirIndex(v), TableIndex(v));
      NumberOfAddr(Number(e));
      NumberIsFrame(e, AddrOf(Number(e)));
      PhysAddrByFrame(e, AddrOf(Number(e)), w);
    }
  }

  lemma FirstFreeInside(s: System)
    requires Inv(s) && C.FirstFree(s.cache.bitmap, 0) < C.Buffers(s.cache)
    ensures C.FirstFree(s.cache.bitmap, 0) < C.Buffers(s.cache) - 1
    ensures BufferWord(s.cache, C.FirstFree(s.cache.bitmap, 0)) < 0xF000_0000
  {
    hide BufferWord;
    BufferAddr(s.cache, C.FirstFree(s.cache.bitmap, 0));
  }

  /** Reserving, out of memory or not, keeps the lists, the bitmap, ownership of frames and the
      backing of every buffer in use. */
  lemma ReserveAnonymousKeeps(s: System)
    requires Inv(s)
    ensures Inv(ReserveAnonymous(s).0)
  {
    hide BufferWord, AllocPage, Owned, C.Injective, C.BitmapExact;
    if C.FirstFree(s.cache.bitmap, 0) < C.Buffers(s.cache) {
      C.ReserveAnonymousKeeps(s.cache, BackFree(s).1);
      StillBacked(s, ReserveAnonymous(s).0);
    }
  }

  /** Some buffer but the last is free, and the page of the lowest is present, or a frame is left
      for it and, if its table is missing, one for that. */
  ghost predicate CanReserve(s: System) {
    var i := C.FirstFree(s.cache.bitmap, 0);
    var v := BufferWord(s.cache, i);
    var f := AllocFrame(s.vm.used, s.vm.max);
    && i < C.Buffers(s.cache) - 1
    && (Translate(s.vm, v).Some? ||
        (f.Some? && (IsPresent(Pde(s.vm, DirIndex(v))) || AllocFrame(s.vm.used + {f.value}, s.vm.max).Some?)))
  }

  lemma ReserveSucceedsIff(s: System)
    requires Inv(s)
    ensures ReserveAnonymous(s).1 != 0 <==> CanReserve(s)
  {
    hide BufferWord, AllocPage, Owned, AllocFrame, DirIndex, TableIndex, Mapped, IsPresent, GetPhys, PageSet,
        C.Injective, C.BitmapExact;
    var i := C.FirstFree(s.cache.bitmap, 0);
    LastSet(s.cache);
    if i < C.Buffers(s.cache) {
      FirstFreeInside(s);
      DefaultsGood();
      AllocOutcome(s.vm, BufferWord(s.cache, i), DEFAULT_FLAGS);
      C.TakenAddress(s.cache, BackFree(s).1);
    }
  }

  lemma LastSet(c: C.Cache)
    requires C.Inv(c)
    ensures C.FirstFree(c.bitmap, 0) != C.Buffers(c) - 1
  {
  }

  /** Reserving for a page of a file keeps everything sound exactly when the page was not cached or
      nothing can be had. */
  lemma ReserveBufferKeepsIff(s: System, gfd: nat, page: nat)
    requires Inv(s) && gfd < |s.cache.files|
    ensures Inv(ReserveBuffer(s, gfd, page).0) <==> C.Find(s.cache.files[gfd].pages, page) == None || !CanReserve(s)
  {
    hide BufferWord, AllocPage, Owned, C.Injective, C.BitmapExact, C.Find, CanReserve;
    ReserveSucceedsIff(s);
    if C.FirstFree(s.cache.bitmap, 0) < C.Buffers(s.cache) {
      C.ReserveKeepsIff(s.cache, gfd, page, BackFree(s).1);
      C.TakenAddress(s.cache, BackFree(s).1);
      C.TakeExact(s.cache, BackFree(s).1);
      StillBacked(s, ReserveBuffer(s, gfd, page).0);
    }
  }

  lemma StillBacked(s: System, r: System)
    requires Inv(s) && C.FirstFree(s.cache.bitmap, 0) < C.Buffers(s.cache)
    requires var i := C.FirstFree(s.cache.bitmap, 0);
             && r.vm == BackFree(s).0 && r.cache.base == s.cache.base
             && r.cache.bitmap == if BackFree(s).1 then s.cache.bitmap[i := true] else s.cache.bitmap
    ensures Owned(r.vm) && Aligned(r.cache)
    ensures forall j: nat :: j < C.Buffers(r.cache) && r.cache.bitmap[j] ==> Backs(r.cache, r.vm, j)
  {
    hide AllocPage, Translate, Word32, C.FirstFree, Owned, C.Inv;
    var i := C.FirstFree(s.cache.bitmap, 0);
    FirstFreeInside(s);
    BackKeeps(s.vm, BufferWord(s.cache, i), 0);
    forall j: nat | j < C.Buffers(r.cache) && r.cache.bitmap[j] ensures Backs(r.cache, r.vm, j) {
      BackKeeps(s.vm, BufferWord(s.cache, i), BufferWord(s.cache, j));
      assert BufferWord(r.cache, j) == BufferWord(s.cache, j);
      if j != i { assert Backs(s.cache, s.vm, j); }
    }
  }

  // ----- releasing

  /** Freeing one buffer's page leaves the pages of the others. */
  lemma OthersStayBacked(s: System, i: nat, r: System)
    requires Inv(s) && i < C.Buffers(s.cache) && r.vm == FreePage(s.vm, BufferWord(s.cache, i)).0
    requires r.cache.base == s.cache.base && r.cache.bitmap == s.cache.bitmap[i := false]
    ensures forall j: nat :: j < C.Buffers(r.cache) && r.cache.bitmap[j] ==> Backs(r.cache, r.vm, j)
    ensures forall j: nat :: j < C.Buffers(s.cache) && j != i ==>
              Translate(r.vm, BufferWord(s.cache, j)) == Translate(s.vm, BufferWord(s.cache, j))
  {
    hide FreePage, Translate, Word32, Owned, C.Injective, C.BitmapExact;
    OwnedShape(s.vm);
    forall j: nat | j < C.Buffers(s.cache) && j != i
      ensures Translate(r.vm, BufferWord(s.cache, j)) == Translate(s.vm, BufferWord(s.cache, j))
    {
      BuffersApart(s.cache, i, j);
      FreeRefinesFlat(s.vm, BufferWord(s.cache, i), BufferWord(s.cache, j));
    }
    forall j: nat | j < C.Buffers(r.cache) && r.cache.bitmap[j] ensures Backs(r.cache, r.vm, j) {
      assert Backs(s.cache, s.vm, j) && BufferWord(r.cache, j) == BufferWord(s.cache, j);
    }
  }

  lemma BackedFreeIsSafe(s: System, i: nat)
    requires Backs(s.cache, s.vm, i)
    ensures FreeIsSafe(s.vm, BufferWord(s.cache, i))
  {
    hide Mapped, DirIndex, TableIndex, Word32;
  }

  /** Releasing by address keeps lists, bitmap and frames sound exactly when the address names no
      buffer, or one a caller holds; or a free one whose page can be freed once more without
      taking a frame from its present owner. */
  lemma ReleaseAnonymousKeepsIff(s: System, a: nat)
    requires Inv(s) && a < C.ADDRESSES
    ensures var i := C.IndexByAddr(s.cache, a);
            Inv(ReleaseAnonymous(s, a)) <==>
              i >= C.Buffers(s.cache) || i in s.cache.anon || (!s.cache.bitmap[i] && FreeIsSafe(s.vm, Word32(a)))
  {
    hide C.IndexByAddr, FreePage, Owned, FreeIsSafe, Word32, C.Injective, C.BitmapExact, Translate;
    var i := C.IndexByAddr(s.cache, a);
    if i < C.Buffers(s.cache) {
      var r := ReleaseAnonymous(s, a);
      NamedPage(s.cache, a);
      SamePageSame(s.vm, Word32(a), BufferWord(s.cache, i));
      C.ReleaseAnonymousKeepsIff(s.cache, a);
      FreeKeepsOwned(s.vm, Word32(a));
      OthersStayBacked(s, i, r);
      if i in s.cache.anon {
        C.AnonMarked(s.cache, i);
        assert Backs(s.cache, s.vm, i);
        BackedFreeIsSafe(s, i);
      }
    }
  }

  /** Releasing a cached page keeps everything sound. */
  lemma ReleaseBufferKeeps(s: System, gfd: nat, page: nat)
    requires Inv(s) && gfd < |s.cache.files|
    ensures Inv(ReleaseBuffer(s, gfd, page).0)
  {
    hide FreePage, Owned, FreeIsSafe, Word32, C.Injective, C.BitmapExact, Translate, C.Find, C.Dropped;
    C.ReleaseKeeps(s.cache, gfd, page);
    C.CachedMarked(s.cache, gfd, page);
    match C.BufferOf(s.cache.files[gfd].pages, page)
    case None =>
    case Some(i) =>
      assert Backs(s.cache, s.vm, i);
      BackedFreeIsSafe(s, i);
      FreeKeepsOwned(s.vm, BufferWord(s.cache, i));
      OthersStayBacked(s, i, ReleaseBuffer(s, gfd, page).0);
  }

  // ----- what callers get

  /** An address that was reserved names the lowest free buffer, which is the caller's from then on,
      on a present page; every page that was present leads where it led. */
  lemma ReservedAddress(s: System, w: bv32)
    requires Inv(s)
    ensures var (r, a) := ReserveAnonymous(s);
            && (a != 0 <==> CanReserve(s))
            && (a == 0 ==> r.cache == s.cache)
            && (a != 0 ==>
                 a < C.ADDRESSES && Translate(r.vm, Word32(a)).Some? &&
                 C.IndexByAddr(s.cache, a) == C.FirstFree(s.cache.bitmap, 0) < C.Buffers(s.cache) &&
                 r.cache.anon == s.cache.anon + {C.IndexByAddr(s.cache, a)})
            && (Translate(s.vm, w).Some? ==> Translate(r.vm, w) == Translate(s.vm, w))
  {
    hide AllocPage, Owned, Translate, Word32, CanReserve, C.IndexByAddr, C.Injective, C.BitmapExact;
    ReserveSucceedsIff(s);
    var i := C.FirstFree(s.cache.bitmap, 0);
    if i < C.Buffers(s.cache) {
      FirstFreeInside(s);
      BackKeeps(s.vm, BufferWord(s.cache, i), w);
      C.TakenAddress(s.cache, BackFree(s).1);
      C.IndexOfAddr(s.cache, i);
    }
  }

  /** A page reserved for an open file is found at the address that was returned, which is present;
      every other page is found where it was. */
  lemma ReservedPage(s: System, gfd: nat, page: nat, g: nat, p: nat)
    requires Inv(s) && gfd < |s.cache.files| && s.cache.files[gfd].open && C.Lookup(s.cache, gfd, page) == None
    ensures var (r, a) := ReserveBuffer(s, gfd, page);
            && (a != 0 <==> CanReserve(s))
            && (a != 0 ==> a < C.ADDRESSES && Translate(r.vm, Word32(a)).Some?)
            && C.GetBuffer(r.cache, g, p) == if a != 0 && g == gfd && p == page then a else C.GetBuffer(s.cache, g, p)
  {
    hide AllocPage, Owned, Translate, Word32, CanReserve, C.Lookup, C.Injective, C.BitmapExact;
    ReserveSucceedsIff(s);
    var i := C.FirstFree(s.cache.bitmap, 0);
    if i < C.Buffers(s.cache) {
      FirstFreeInside(s);
      BackKeeps(s.vm, BufferWord(s.cache, i), 0);
      C.TakenAddress(s.cache, BackFree(s).1);
      C.ReserveThenGet(s.cache, gfd, page, BackFree(s).1, g, p);
      C.ReserveExact(s.cache, gfd, page, BackFree(s).1, g, p);
    }
  }

  /** Releasing an address of a buffer takes its page away and its frame back, and no other page. */
  lemma ReleasedAddress(s: System, a: nat, w: bv32)
    requires Inv(s) && a < C.ADDRESSES && C.IndexByAddr(s.cache, a) < C.Buffers(s.cache)
    ensures var r := ReleaseAnonymous(s, a);
            && r.cache == C.ReleaseAnonymous(s.cache, a)
            && Translate(r.vm, w) == (if SamePage(Word32(a), w) then None else Translate(s.vm, w))
            && (Translate(s.vm, Word32(a)).Some? ==>
                 FrameOf(s.vm, Word32(a)) in s.vm.used && r.vm.used == s.vm.used - {FrameOf(s.vm, Word32(a))})
  {
    hide FreePage, Translate, Word32, Number, DirIndex, TableIndex, C.IndexByAddr, C.Inv;
    OwnedShape(s.vm);
    FreedPage(s.vm, Word32(a), w);
  }

  lemma FreedPage(vm: Vm, v: bv32, w: bv32)
    requires Owned(vm)
    ensures var r := FreePage(vm, v).0;
            && Translate(r, w) == (if SamePage(v, w) then None else Translate(vm, w))
            && (Translate(vm, v).Some? ==> FrameOf(vm, v) in vm.used && r.used == vm.used - {FrameOf(vm, v)})
  {
    hide FreePage, Number, DirIndex, TableIndex, PhysAddr, IsPresent, Word;
    OwnedShape(vm);
    FreeRefinesFlat(vm, v, w);
    NumberIsFrame(v, w);
    if Table(vm, DirIndex(v)) != 0 { FreeReads(vm, v); }
    if Translate(vm, v).Some? { assert PageOk(vm, DirIndex(v), TableIndex(v)); }
  }

  /** Releasing a cached page takes its buffer's page away; it is found nowhere afterwards, and every
      other page where it was. */
  lemma ReleasedPage(s: System, gfd: nat, page: nat, g: nat, p: nat)
    requires Inv(s) && gfd < |s.cache.files| && s.cache.files[gfd].open
    ensures var (r, ok) := ReleaseBuffer(s, gfd, page);
            && (ok <==> C.GetBuffer(s.cache, gfd, page) != 0)
            && (!ok ==> r == s)
            && (ok ==> Translate(r.vm, Word32(C.GetBuffer(s.cache, gfd, page))) == None)
            && C.GetBuffer(r.cache, g, p) == if g == gfd && p == page then 0 else C.GetBuffer(s.cache, g, p)
  {
    hide FreePage, Translate, Word32, Owned, C.Inv, SamePage;
    C.GetBufferExact(s.cache, gfd, page);
    C.CachedMarked(s.cache, gfd, page);
    C.ReleaseThenGet(s.cache, gfd, page, g, p);
    C.ListsExact(s.cache, gfd, page, false, gfd, page);
    match C.BufferOf(s.cache.files[gfd].pages, page)
    case None =>
    case Some(i) =>
      FreedPage(s.vm, BufferWord(s.cache, i), BufferWord(s.cache, i));
      SameAsItself(BufferWord(s.cache, i));
  }

  lemma SameAsItself(v: bv32)
    ensures SamePage(v, v)
  {
  }

  // ----- whole runs

  datatype Op =
    | TakeOp
    | GiveOp(address: nat)
    | CacheOp(gfd: nat, page: nat)
    | DropOp(gfd: nat, page: nat)
    | PagingOp(op: PageOp)

  /** The page lies in no buffer that is in use. */
  ghost predicate Outside(s: System, v: bv32) {
    forall i: nat :: i < C.Buffers(s.cache) && s.cache.bitmap[i] ==> !SamePage(v, BufferWord(s.cache, i))
  }

  /** What callers owe: addresses they hold, pages not cached yet while there is room, and elsewhere in the kernel no
      dangerous free and none of a buffer's page. */
  ghost predicate Legal(s: System, op: Op) {
    match op
    case TakeOp => true
    case GiveOp(a) =>
        a < C.ADDRESSES
        && (C.IndexByAddr(s.cache, a) >= C.Buffers(s.cache) || C.IndexByAddr(s.cache, a) in s.cache.anon)
    case CacheOp(g, p) => g < |s.cache.files| && (C.Find(s.cache.files[g].pages, p) == None || !CanReserve(s))
    case DropOp(g, p) => g < |s.cache.files|
    case PagingOp(o) => PagingRuns.Legal(s.vm, o) && (o.FreeOp? ==> Outside(s, o.v))
  }

  ghost function Apply(s: System, op: Op): System
    requires Legal(s, op)
  {
    match op
    case TakeOp => ReserveAnonymous(s).0
    case GiveOp(a) => ReleaseAnonymous(s, a)
    case CacheOp(g, p) => ReserveBuffer(s, g, p).0
    case DropOp(g, p) => ReleaseBuffer(s, g, p).0
    case PagingOp(o) => s.(vm := PagingRuns.Apply(s.vm, o))
  }

  lemma PagingKeeps(s: System, o: PageOp)
    requires Inv(s) && PagingRuns.Legal(s.vm, o) && (o.FreeOp? ==> Outside(s, o.v))
    ensures Inv(s.(vm := PagingRuns.Apply(s.vm, o)))
  {
    hide Owned, C.Inv, Translate, Word32, AllocPage, FreePage, Store, FreeIsSafe, GoodFlags;
    StepKeepsOwned(s.vm, o);
    var r := s.(vm := PagingRuns.Apply(s.vm, o));
    OwnedShape(s.vm);
    forall i: nat | i < C.Buffers(s.cache) && s.cache.bitmap[i] ensures Backs(r.cache, r.vm, i) {
      var w := BufferWord(s.cache, i);
      assert Backs(s.cache, s.vm, i);
      match o
      case AllocOp(base, flags) => AllocKeepsPresent(s.vm, base, flags, w);
      case FreeOp(v) => FreeRefinesFlat(s.vm, v, w);
      case StoreOp(v, x) => StoreIsolated(s.vm, v, x, w);
    }
  }

  lemma AllocKeepsPresent(vm: Vm, base: bv32, flags: bv32, w: bv32)
    requires Owned(vm) && GoodFlags(flags) && base < 0xF000_0000 && Translate(vm, w).Some?
    ensures Translate(AllocPage(vm, base, flags).0, w).Some?
  {
    hide Owned, AllocPage, Mapped, DirIndex, TableIndex, Number, AllocFrame, PageSet, AddrOf, PhysAddr, GetFrame, Word,
        GetPhys, GoodFlags;
    AllocOutcome(vm, base, flags);
    var (r, ok) := AllocPage(vm, base, flags);
    OwnedShape(vm);
    AllocFrameIs(vm.used, vm.max);
    if !ok {
      SameWalk(vm, r, w);
    } else if Mapped(vm, DirIndex(base), TableIndex(base)) {
      DataInRange(vm, DirIndex(base), TableIndex(base));
      TranslateSet(vm, vm, r, base, AddrOf(Data(vm, DirIndex(base), TableIndex(base))), w);
    } else {
      var f := AllocFrame(vm.used, vm.max).value;
      SameWalk(vm, vm.(used := vm.used + {f}), w);
      TranslateSet(vm, vm.(used := vm.used + {f}), r, base, AddrOf(f), w);
    }
  }

  lemma StepKeeps(s: System, op: Op)
    requires Inv(s) && Legal(s, op)
    ensures Inv(Apply(s, op))
  {
    hide Inv, CanReserve, ReserveAnonymous, ReserveBuffer, ReleaseAnonymous, ReleaseBuffer, C.IndexByAddr, C.Find,
        FreeIsSafe, Outside;
    match op
    case TakeOp => ReserveAnonymousKeeps(s);
    case GiveOp(a) => ReleaseAnonymousKeepsIff(s, a);
    case CacheOp(g, p) => ReserveBufferKeepsIff(s, g, p);
    case DropOp(g, p) => ReleaseBufferKeeps(s, g, p);
    case PagingOp(o) => PagingKeeps(s, o);
  }

  ghost predicate IsRun(states: seq<System>, ops: seq<Op>) {
    && |states| == |ops| + 1
    && forall k :: 0 <= k < |ops| ==> Legal(states[k], ops[k]) && states[k + 1] == Apply(states[k], ops[k])
  }

  /** Over every run of the cache and of the rest of the kernel's paging: lists, bitmap and frames
      are sound, every buffer in use is present, and no two of them share a frame. */
  lemma {:induction false} RunInv(states: seq<System>, ops: seq<Op>, n: nat)
    requires IsRun(states, ops) && Inv(states[0]) && n < |states|
    ensures Inv(states[n])
    ensures var s := states[n];
            forall i: nat, j: nat :: i < j < C.Buffers(s.cache) && s.cache.bitmap[i] && s.cache.bitmap[j] ==>
              FrameOf(s.vm, BufferWord(s.cache, i)) != FrameOf(s.vm, BufferWord(s.cache, j))
  {
    hide Inv, Apply, Legal, FrameOf, BufferWord;
    if n > 0 {
      RunInv(states, ops, n - 1);
      StepKeeps(states[n - 1], ops[n - 1]);
    }
    var s := states[n];
    forall i: nat, j: nat | i < j < C.Buffers(s.cache) && s.cache.bitmap[i] && s.cache.bitmap[j]
      ensures FrameOf(s.vm, BufferWord(s.cache, i)) != FrameOf(s.vm, BufferWord(s.cache, j))
    {
      FramesApart(s, i, j);
    }
  }

  /** The frame behind an address. */
  ghost function FrameOf(vm: Vm, v: bv32): nat {
    Data(vm, DirIndex(v), TableIndex(v))
  }

  lemma FramesApart(s: System, i: nat, j: nat)
    requires Inv(s) && i < j < C.Buffers(s.cache) && s.cache.bitmap[i] && s.cache.bitmap[j]
    ensures FrameOf(s.vm, BufferWord(s.cache, i)) != FrameOf(s.vm, BufferWord(s.cache, j))
  {
    hide Owned, C.Injective, C.BitmapExact, Word32, DirIndex, TableIndex, Number, Mapped, GetPhys, Data;
    assert Backs(s.cache, s.vm, i) && Backs(s.cache, s.vm, j);
    BuffersApart(s.cache, i, j);
    var v, w := BufferWord(s.cache, i), BufferWord(s.cache, j);
    NumberIsFrame(v, w);
    DataDiffers(s.vm, DirIndex(v), TableIndex(v), DirIndex(w), TableIndex(w));
  }
}
