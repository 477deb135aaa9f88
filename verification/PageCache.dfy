/** The page cache edited in place, over the page tables in memory (MeOS/page_cache.cpp). */
module PageCacheState {
  import opened Options
  import opened PageCacheSpec
  import opened SList
  import F = PageCacheFrames
  import P = Paging
  import PageEntry
  import V = PagingSpec
  import R = PagingRuns

  class PageCache {
    const base: nat
    const alloced: array<bool>
    const lists: seq<List<Info>>
    const open: seq<bool>
    const space: P.AddressSpace
    ghost var anon: set<nat>

    ghost function Files(): (r: seq<File>)
      requires |open| == |lists|
      reads lists
      ensures |r| == |lists| && forall g :: 0 <= g < |lists| ==> r[g] == File(open[g], lists[g].Items())
    {
      seq(|lists|, g requires 0 <= g < |lists| reads lists => File(open[g], lists[g].Items()))
    }

    ghost function State(): Cache
      requires |open| == |lists|
      reads this, alloced, lists
    {
      Cache(base, alloced[..], Files(), anon)
    }

    ghost function System(): F.System
      requires |open| == |lists|
      reads this, alloced, lists, space.ram, space.phys.bitmap
    {
      F.System(State(), space.State())
    }

    ghost predicate Shape()
      reads lists, set g, k | 0 <= g < |lists| && 0 <= k < |lists[g].Nodes| :: lists[g].Nodes[k]
      reads space.phys, space.phys.bitmap
    {
      && |open| == |lists| && Separate(lists) && space.Shape()
      && alloced as object != space.ram && alloced as object != space.phys.bitmap
    }

    ghost predicate Valid()
      reads this, alloced, lists, set g, k | 0 <= g < |lists| && 0 <= k < |lists[g].Nodes| :: lists[g].Nodes[k]
      reads space.ram, space.phys, space.phys.bitmap
    {
      Shape() && F.Inv(System())
    }

    /** page_cache_init over `n` buffers, the last of them on a present page, for files that have
        nothing cached. */
    constructor (start: nat, n: nat, pages: seq<List<Info>>, isOpen: seq<bool>, tables: P.AddressSpace)
      requires 0 < n <= PAGE_CACHE_SIZE && 0 < start && start % PAGE_SIZE == 0
                 && start + n * PAGE_CACHE_SIZE <= 0xF000_0000
      requires |pages| == |isOpen| && Separate(pages) && forall g :: 0 <= g < |pages| ==> pages[g].Nodes == []
      requires tables.Shape() && V.Owned(tables.State())
      requires F.Backs(Initial(start, n, []), tables.State(), n - 1)
      ensures Valid() && fresh(alloced) && lists == pages && open == isOpen && space == tables
      ensures System() == F.System(Initial(start, n, Files()), tables.State())
    {
      hide V.Owned, V.TablesOk, Separate, Inv, F.Inv;
      base, lists, open, space, anon := start, pages, isOpen, tables, {};
      alloced := new bool[n](i => i == n - 1);
      new;
      Started();
    }

    lemma Started()
      requires 0 < alloced.Length <= PAGE_CACHE_SIZE && 0 < base && base % PAGE_SIZE == 0
      requires base + alloced.Length * PAGE_CACHE_SIZE <= 0xF000_0000 && anon == {}
      requires |open| == |lists| && forall g :: 0 <= g < |lists| ==> lists[g].Nodes == []
      requires forall i :: 0 <= i < alloced.Length ==> alloced[i] == (i == alloced.Length - 1)
      requires V.Owned(space.State()) && F.Backs(Initial(base, alloced.Length, []), space.State(), alloced.Length - 1)
      ensures System() == F.System(Initial(base, alloced.Length, Files()), space.State()) && F.Inv(System())
    {
      hide V.Owned, Inv, F.Inv;
      InitialSystem(base, alloced.Length, Files(), space.State());
      assert alloced[..] == Initial(base, alloced.Length, Files()).bitmap;
    }

    // ----- the bitmap

    /** page_cache_index_free_buffer */
    method IndexFreeBuffer() returns (i: nat)
      ensures i == FirstFree(alloced[..], 0)
    {
      i := 0;
      while i < alloced.Length && alloced[i]
        invariant i <= alloced.Length && FirstFree(alloced[..], i) == FirstFree(alloced[..], 0)
      {
        i := i + 1;
      }
    }

    lemma ShapeFacts()
      requires Shape()
      ensures |open| == |lists|
    {
    }

    /** page_cache_index_reserve_buffer and page_cache_index_release_buffer */
    method Mark(i: nat, reserved: bool)
      requires Shape() && i < alloced.Length
      modifies alloced
      ensures Shape() && State() == old(State()).(bitmap := old(alloced[..])[i := reserved])
                && space.State() == old(space.State())
    {
      hide Separate, Files, V.TablesOk;
      alloced[i] := reserved;
      assert alloced[..] == old(alloced[..])[i := reserved];
    }

    /** vmmngr_alloc_page */
    method BackPage(address: nat) returns (ok: bool)
      requires Shape() && address < ADDRESSES && V.TablesOk(space.State())
      modifies space.ram, space.phys`usedBlocks, space.phys.bitmap
      ensures Shape() && State() == old(State())
      ensures (space.State(), ok) == V.AllocPage(old(space.State()), PageEntry.Word32(address), F.DEFAULT_FLAGS)
    {
      hide Separate, Files, V.TablesOk, V.AllocPage, PageEntry.Word32;
      F.DefaultsGood();
      ok := space.AllocPage(PageEntry.Word32(address), F.DEFAULT_FLAGS);
    }

    /** vmmngr_free_page_addr */
    method UnbackPage(address: nat)
      requires Shape() && address < ADDRESSES && V.Owned(space.State())
      modifies space.ram, space.phys`usedBlocks, space.phys.bitmap
      ensures Shape() && State() == old(State())
      ensures space.State() == V.FreePage(old(space.State()), PageEntry.Word32(address)).0
    {
      hide Separate, Files, V.Owned, V.TablesOk, V.FreePage, PageEntry.Word32, V.Data, V.Table;
      TablesSound(space.State());
      EntriesInMemory(space.State(), PageEntry.Word32(address));
      var freed := space.FreePageAddr(PageEntry.Word32(address));
    }

    /** page_cache_reserve_anonymous */
    method ReserveAnonymous() returns (address: nat)
      requires Valid()
      modifies this`anon, alloced, space.ram, space.phys`usedBlocks, space.phys.bitmap
      ensures Valid() && (System(), address) == F.ReserveAnonymous(old(System()))
    {
      hide Inv, Separate, Files, FirstFree, V.Owned, V.TablesOk, V.AllocPage, F.Inv, F.ReserveAnonymous, F.BackFree,
          PageEntry.Word32;
      ShapeFacts();
      hide Shape;
      ghost var s := System();
      SystemParts(s);
      TablesSound(s.vm);
      var free := IndexFreeBuffer();
      if free >= alloced.Length {
        NothingReserved(s);
        return 0;
      }
      address := (base + free * PAGE_CACHE_SIZE) % ADDRESSES;
      var ok := TakeBuffer(free, address);
      Reserved(s, free, ok, System());
      if !ok { address := 0; }
    }

    /** Reserving a free buffer: marked, and unmarked again when it gets no page. */
    method TakeBuffer(free: nat, address: nat) returns (ok: bool)
      requires Shape() && free < alloced.Length && address < ADDRESSES && V.TablesOk(space.State())
      modifies this`anon, alloced, space.ram, space.phys`usedBlocks, space.phys.bitmap
      ensures Shape()
                && (space.State(), ok) == V.AllocPage(old(space.State()), PageEntry.Word32(address), F.DEFAULT_FLAGS)
      ensures State() == if ok then old(State()).(bitmap := old(alloced[..])[free := true], anon := old(anon) + {free})
                         else old(State()).(bitmap := old(alloced[..])[free := true][free := false])
    {
      hide Separate, Files, V.TablesOk, V.AllocPage, PageEntry.Word32;
      ShapeFacts();
      hide Shape;
      Mark(free, true);
      ok := BackPage(address);
      if ok {
        anon := anon + {free};
      } else {
        Mark(free, false);
      }
    }

    /** page_cache_release_anonymous, for any address. */
    method ReleaseAnonymous(address: nat)
      requires Valid() && address < ADDRESSES
      modifies this`anon, alloced, space.ram, space.phys`usedBlocks, space.phys.bitmap
      ensures Shape() && System() == F.ReleaseAnonymous(old(System()), address)
      ensures var i := IndexByAddr(old(State()), address);
              Valid() <==>
                  i >= alloced.Length || i in old(anon)
                  || (!old(alloced[..])[i] && old(R.FreeIsSafe(space.State(), PageEntry.Word32(address))))
    {
      hide Inv, Separate, Files, FirstFree, V.Owned, V.TablesOk, V.FreePage, R.FreeIsSafe, F.Inv, F.Backs,
          PageEntry.Word32;
      ghost var s := System();
      F.ReleaseAnonymousKeepsIff(s, address);
      SystemParts(s);
      var index := ((address - base) % ADDRESSES) / PAGE_CACHE_SIZE;
      if index >= alloced.Length { return; }
      Mark(index, false);
      anon := anon - {index};
      UnbackPage(address);
    }

    // ----- pages of files

    /** page_cache_get_finfo, and the address page_cache_get_buffer makes of it. */
    method GetBuffer(gfd: nat, page: nat) returns (address: nat)
      requires Shape()
      ensures address == PageCacheSpec.GetBuffer(State(), gfd, page)
    {
      hide Find, Apart;
      if gfd >= |lists| || !open[gfd] { return 0; }
      var index := FileInfo(lists[gfd], page);
      if index == None { return 0; }
      return (base + index.value * PAGE_CACHE_SIZE) % ADDRESSES;
    }

    /** list_insert_back on the pages of one file; the other files' lists are untouched. */
    method Append(gfd: nat, info: Info)
      requires |open| == |lists| && Separate(lists) && gfd < |lists|
      modifies lists[gfd], lists[gfd].Nodes
      ensures Separate(lists)
      ensures Files() == old(Files())[gfd := old(Files())[gfd].(pages := old(Files())[gfd].pages + [info])]
    {
      hide DataOf;
      lists[gfd].InsertBack(info);
      forall h | 0 <= h < |lists| && h != gfd
        ensures lists[h].Nodes == old(lists[h].Nodes) && lists[h].Valid() && Apart(lists[h].Nodes, lists[gfd].Nodes)
      {
        ghost var was := old(lists[h].Nodes);
        assert old(lists[h].Valid()) && Apart(was, old(lists[gfd].Nodes));
        assert forall k :: 0 <= k < |was| ==> was[k] in was && was[k] !in old(lists[gfd].Nodes);
        assert forall k :: 0 <= k < |was| ==> was[k].next == old(was[k].next);
      }
      SeparateAgain(lists, gfd);
    }

    /** page_cache_reserve_buffer, for an entry of the file table. */
    method ReserveBuffer(gfd: nat, page: nat) returns (address: nat)
      requires Valid() && gfd < |lists|
      modifies this`anon, alloced, lists[gfd], lists[gfd].Nodes, space.ram, space.phys`usedBlocks, space.phys.bitmap
      ensures Shape() && (System(), address) == F.ReserveBuffer(old(System()), gfd, page)
      ensures Valid() <==> Find(old(lists[gfd].Items()), page) == None || !old(F.CanReserve(System()))
    {
      hide Inv, FirstFree, Find, Separate, Files, V.Owned, V.TablesOk, V.AllocPage, F.Inv, F.CanReserve,
          F.ReserveAnonymous, F.ReserveBuffer, PageEntry.Word32;
      ghost var s := System();
      assert s.cache.files[gfd].pages == lists[gfd].Items();
      F.ReserveBufferKeepsIff(s, gfd, page);
      address := ReserveAnonymous();
      ReservedForFile(s, gfd, page);
      if address == 0 { return; }
      var index := ((address - base) % ADDRESSES) / PAGE_CACHE_SIZE;
      anon := anon - {index};
      Append(gfd, Info(page, index));
    }

    // ----- releasing

    /** The search of page_cache_release_buffer: the entry for the page is unlinked and its buffer
        returned; None when the list has no such entry. */
    method Unlink(gfd: nat, page: nat) returns (index: Option<nat>)
      requires |open| == |lists| && Separate(lists) && gfd < |lists|
      modifies lists[gfd], lists[gfd].Nodes
      ensures Separate(lists)
      ensures var f := old(Files())[gfd];
              && index == BufferOf(f.pages, page)
              && Files() == if index == None then old(Files())
                            else old(Files())[gfd := f.(pages := Dropped(f.pages, Find(f.pages, page).value))]
    {
      hide Find, Dropped, BufferOf, DataOf;
      index := UnlinkFrom(lists[gfd], page);
      forall h | 0 <= h < |lists| && h != gfd
        ensures lists[h].Nodes == old(lists[h].Nodes) && lists[h].Valid() && Apart(lists[h].Nodes, lists[gfd].Nodes)
      {
        ghost var was := old(lists[h].Nodes);
        assert old(lists[h].Valid()) && Apart(was, old(lists[gfd].Nodes));
        assert forall k :: 0 <= k < |was| ==> was[k] in was && was[k] !in old(lists[gfd].Nodes);
        assert forall k :: 0 <= k < |was| ==> was[k].next == old(was[k].next);
      }
      SeparateAgain(lists, gfd);
    }

    /** page_cache_release_buffer */
    method ReleaseBuffer(gfd: nat, page: nat) returns (ok: bool)
      requires Valid() && gfd < |lists|
      modifies this`anon, alloced, lists[gfd], lists[gfd].Nodes, space.ram, space.phys`usedBlocks, space.phys.bitmap
      ensures Valid() && (System(), ok) == F.ReleaseBuffer(old(System()), gfd, page)
    {
      hide Inv, Find, Separate, Files, Dropped, V.Owned, V.TablesOk, V.FreePage, F.Inv, F.ReleaseBuffer, BufferOf,
          PageEntry.Word32;
      ghost var s := System();
      F.ReleaseBufferKeeps(s, gfd, page);
      SystemParts(s);
      var index := Unlink(gfd, page);
      ReleasedForFile(s, gfd, page);
      if index == None { return false; }
      var address := (base + index.value * PAGE_CACHE_SIZE) % ADDRESSES;
      // page_cache_release_anonymous on the buffer's address
      Mark((address - base) % ADDRESSES / PAGE_CACHE_SIZE, false);
      UnbackPage(address);
      return true;
    }
  }

  lemma SystemParts(s: F.System)
    requires F.Inv(s)
    ensures Inv(s.cache) && V.Owned(s.vm)
  {
  }

  lemma TablesSound(vm: V.Vm)
    requires V.Owned(vm)
    ensures V.TablesOk(vm) && vm.max <= 0x10_0000
  {
  }

  lemma InitialSystem(start: nat, n: nat, files: seq<File>, vm: V.Vm)
    requires 0 < n <= PAGE_CACHE_SIZE && 0 < start && start % PAGE_SIZE == 0
               && start + n * PAGE_CACHE_SIZE <= 0xF000_0000
    requires V.Owned(vm) && forall g :: 0 <= g < |files| ==> files[g].pages == []
    requires F.Backs(Initial(start, n, []), vm, n - 1)
    ensures F.Inv(F.System(Initial(start, n, files), vm))
  {
    hide V.Owned, V.Translate, PageEntry.Word32, Inv;
    InitialOk(start, n, files);
  }

  /** What a reservation comes to when no buffer is free, ... */
  lemma NothingReserved(s: F.System)
    requires FirstFree(s.cache.bitmap, 0) >= |s.cache.bitmap|
    ensures F.ReserveAnonymous(s) == (s, 0)
  {
  }

  /** ... when the page was or was not had, ... */
  lemma Reserved(s: F.System, i: nat, ok: bool, r: F.System)
    requires F.Inv(s) && i == FirstFree(s.cache.bitmap, 0) < |s.cache.bitmap|
    requires (r.vm, ok) == V.AllocPage(s.vm, F.BufferWord(s.cache, i), F.DEFAULT_FLAGS)
    requires r.cache == if ok then s.cache.(bitmap := s.cache.bitmap[i := true], anon := s.cache.anon + {i})
                        else s.cache.(bitmap := s.cache.bitmap[i := true][i := false])
    ensures F.ReserveAnonymous(s) == (r, if ok then AddrByIndex(s.cache, i) else 0) && F.Inv(r)
  {
    hide V.Owned, V.AllocPage, F.Inv, F.BufferWord;
    F.ReserveAnonymousKeeps(s);
    if !ok { assert s.cache.bitmap[i := true][i := false] == s.cache.bitmap; }
  }

  /** ... and for a page of a file. */
  lemma ReservedForFile(s: F.System, gfd: nat, page: nat)
    requires F.Inv(s) && gfd < |s.cache.files|
    ensures var (m, a) := F.ReserveAnonymous(s);
            var i := IndexByAddr(s.cache, a);
            var f := s.cache.files[gfd];
            F.ReserveBuffer(s, gfd, page) ==
              if a == 0 then (m, 0)
              else (m.(cache := m.cache.(anon := m.cache.anon - {i},
                                         files := s.cache.files[gfd := f.(pages := f.pages + [Info(page, i)])])), a)
    ensures F.ReserveAnonymous(s).0.cache.files == s.cache.files && F.ReserveAnonymous(s).0.cache.base == s.cache.base
  {
    hide V.Owned, F.BackFree, IndexByAddr;
    AddressExact(s.cache, F.BackFree(s).1);
  }

  lemma ReleasedForFile(s: F.System, gfd: nat, page: nat)
    requires F.Inv(s) && gfd < |s.cache.files|
    ensures match BufferOf(s.cache.files[gfd].pages, page)
            case None => F.ReleaseBuffer(s, gfd, page) == (s, false)
            case Some(b) =>
              var f := s.cache.files[gfd];
              var i := IndexByAddr(s.cache, AddrByIndex(s.cache, b));
              && Find(f.pages, page).Some? && i < |s.cache.bitmap|
              && F.ReleaseBuffer(s, gfd, page) ==
                   (F.System(s.cache.(bitmap := s.cache.bitmap[i := false],
                                      files := s.cache.files[gfd := f.(pages :=
                                        Dropped(f.pages, Find(f.pages, page).value))]),
                             V.FreePage(s.vm, PageEntry.Word32(AddrByIndex(s.cache, b))).0), true)
  {
    hide V.Owned, V.FreePage, IndexByAddr, PageEntry.Word32;
    if BufferOf(s.cache.files[gfd].pages, page).Some? {
      ReleasedAddress(s.cache, gfd, page, BufferOf(s.cache.files[gfd].pages, page).value);
    }
  }

  /** Freeing looks at an entry that holds a frame of memory. */
  lemma EntriesInMemory(vm: V.Vm, v: bv32)
    requires V.Owned(vm)
    ensures V.Table(vm, PageEntry.DirIndex(v)) != 0 ==>
              V.Data(vm, PageEntry.DirIndex(v), PageEntry.TableIndex(v)) < vm.max
  {
    hide V.Word, PageEntry.Number;
  }

  /** The walk of page_cache_get_finfo: the buffer of the first entry for the page. */
  method FileInfo(list: List<Info>, page: nat) returns (index: Option<nat>)
    requires list.Valid()
    ensures index == BufferOf(list.Items(), page)
  {
    hide Find;
    ghost var items := list.Items();
    var temp := list.head;
    ghost var k := 0;
    while temp != null
      invariant k <= |list.Nodes| && temp == if k < |list.Nodes| then list.Nodes[k] else null
      invariant forall m :: 0 <= m < k ==> items[m].page != page
      decreases |list.Nodes| - k
    {
      assert items[k] == temp.data;
      if temp.data.page == page {
        FoundAt(items, page, k);
        return Some(temp.data.index);
      }
      temp, k := temp.next, k + 1;
    }
    NotFound(items, page);
    return None;
  }

  /** Walks the list keeping the node before the one looked at. */
  method UnlinkFrom(list: List<Info>, page: nat) returns (index: Option<nat>)
    requires list.Valid()
    modifies list, list.Nodes
    ensures list.Valid() && forall n :: n in list.Nodes ==> n in old(list.Nodes)
    ensures index == BufferOf(old(list.Items()), page)
    ensures list.Items() == if index == None then old(list.Items())
                            else Dropped(old(list.Items()), Find(old(list.Items()), page).value)
  {
    hide Find, Dropped, DataOf;
    ghost var nodes, items := list.Nodes, list.Items();
    var prev := list.head;
    if prev == null {
      assert items == [];
      NotFound(items, page);
      return None;
    }
    if prev.data.page == page {
      FoundAt(items, page, 0);
      DroppedNodes(nodes, 0);
      index := Some(prev.data.index);
      list.RemoveFront();
      assert nodes[1..] == nodes[..0] + nodes[0 + 1..];
      return;
    }
    index := UnlinkBehind(list, page);
  }

  /** The same when the first node is not the page's. */
  method UnlinkBehind(list: List<Info>, page: nat) returns (index: Option<nat>)
    requires list.Valid() && list.Nodes != [] && list.Nodes[0].data.page != page
    modifies list, list.Nodes
    ensures list.Valid() && forall n :: n in list.Nodes ==> n in old(list.Nodes)
    ensures index == BufferOf(old(list.Items()), page)
    ensures list.Items() == if index == None then old(list.Items())
                            else Dropped(old(list.Items()), Find(old(list.Items()), page).value)
  {
    hide Find, Dropped, DataOf;
    ghost var nodes, items := list.Nodes, list.Items();
    var prev, k := BeforePage(list, page);
    if prev.next == null {
      NotFound(items, page);
      return None;
    }
    FoundAt(items, page, k + 1);
    DroppedNodes(nodes, k + 1);
    index := Some(prev.next.data.index);
    var removed := list.Remove(prev, k);
  }

  /** The node before the first one, behind the head, that is for the page; the last node when
      there is none. */
  method BeforePage(list: List<Info>, page: nat) returns (prev: Node<Info>, ghost k: nat)
    requires list.Valid() && list.Nodes != [] && list.Nodes[0].data.page != page
    ensures k < |list.Nodes| && prev == list.Nodes[k]
    ensures forall m :: 0 <= m <= k ==> list.Nodes[m].data.page != page
    ensures k + 1 < |list.Nodes| ==> list.Nodes[k + 1].data.page == page
  {
    prev, k := list.head, 0;
    while prev.next != null
      invariant k < |list.Nodes| && prev == list.Nodes[k]
      invariant forall m :: 0 <= m <= k ==> list.Nodes[m].data.page != page
      decreases |list.Nodes| - k
    {
      if prev.next.data.page == page { return; }
      prev, k := prev.next, k + 1;
    }
  }

  lemma FoundAt(items: seq<Info>, page: nat, k: nat)
    requires k < |items| && items[k].page == page && forall m :: 0 <= m < k ==> items[m].page != page
    ensures Find(items, page) == Some(k) && BufferOf(items, page) == Some(items[k].index)
  {
  }

  lemma NotFound(items: seq<Info>, page: nat)
    requires forall m :: 0 <= m < |items| ==> items[m].page != page
    ensures Find(items, page) == None && BufferOf(items, page) == None
  {
  }

  lemma DroppedNodes(nodes: seq<Node<Info>>, k: nat)
    requires k < |nodes|
    ensures DataOf(nodes[..k] + nodes[k + 1..]) == Dropped(DataOf(nodes), k)
  {
    var rest := nodes[..k] + nodes[k + 1..];
    assert forall l :: 0 <= l < |rest| ==> rest[l] == nodes[if l < k then l else l + 1];
  }

  /** The lists are well formed and share neither headers nor nodes. */
  ghost predicate Separate(lists: seq<List<Info>>)
    reads lists, set g, k | 0 <= g < |lists| && 0 <= k < |lists[g].Nodes| :: lists[g].Nodes[k]
  {
    && (forall g :: 0 <= g < |lists| ==> lists[g].Valid())
    && (forall g, h :: 0 <= g < |lists| && 0 <= h < |lists| && g != h ==>
          lists[g] != lists[h] && Apart(lists[g].Nodes, lists[h].Nodes))
  }

  lemma SeparateAgain(lists: seq<List<Info>>, g: nat)
    requires g < |lists| && forall h :: 0 <= h < |lists| ==> lists[h].Valid()
    requires forall h, k :: 0 <= h < |lists| && 0 <= k < |lists| && h != k ==> lists[h] != lists[k]
    requires forall h, k :: 0 <= h < |lists| && 0 <= k < |lists| && h != k && h != g && k != g ==>
               Apart(lists[h].Nodes, lists[k].Nodes)
    requires forall h :: 0 <= h < |lists| && h != g ==> Apart(lists[h].Nodes, lists[g].Nodes)
    ensures Separate(lists)
  {
  }

  ghost predicate Apart<T>(a: seq<Node<T>>, b: seq<Node<T>>) {
    forall n :: n in a ==> n !in b
  }

  lemma AddressExact(s: Cache, frame: bool)
    requires Inv(s)
    ensures var (r, a) := PageCacheSpec.ReserveAnonymous(s, frame);
            && (a == 0 <==> TakeBuffer(s, frame) == None)
            && (a != 0 ==> IndexByAddr(s, a) == TakeBuffer(s, frame).value && r.anon - {IndexByAddr(s, a)} == s.anon)
  {
    if TakeBuffer(s, frame).Some? {
      TakenIsFree(s, frame);
      IndexOfAddr(s, TakeBuffer(s, frame).value);
    }
  }

  lemma ReleasedAddress(s: Cache, gfd: nat, page: nat, i: nat)
    requires Inv(s) && gfd < |s.files| && BufferOf(s.files[gfd].pages, page) == Some(i)
    ensures i < Buffers(s) && IndexByAddr(s, AddrByIndex(s, i)) == i
  {
    assert Owns(s, gfd, Find(s.files[gfd].pages, page).value, i);
    IndexOfAddr(s, i);
  }
}
