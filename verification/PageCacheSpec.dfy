/** The page cache: its buffers, the bitmap of those handed out, and each file's list of cached
    pages, as one state (MeOS/page_cache.cpp:12-58 and 99-260). */
module PageCacheSpec {
  import opened Options

  const PAGE_SIZE := 4096
  const PAGE_CACHE_SIZE := 4096
  const ADDRESSES := 0x1_0000_0000

  /** One cached page of a file, and the buffer that holds it. */
  datatype Info = Info(page: nat, index: nat)

  datatype File = File(open: bool, pages: seq<Info>)

  /** `anon` is what callers hold of page_cache_reserve_anonymous; the code itself keeps no
      record of it but the bitmap. */
  datatype Cache = Cache(base: nat, bitmap: seq<bool>, files: seq<File>, anon: set<nat>)

  function Buffers(s: Cache): nat {
    |s.bitmap|
  }

  /** page_cache_addr_by_index and page_cache_index_by_addr, in 32 bits. */
  function AddrByIndex(s: Cache, i: nat): nat {
    (s.base + i * PAGE_CACHE_SIZE) % ADDRESSES
  }

  function IndexByAddr(s: Cache, a: nat): nat {
    ((a - s.base) % ADDRESSES) / PAGE_CACHE_SIZE
  }

  /** page_cache_init: every buffer free but the last, where the bitmap lives. */
  function Initial(base: nat, n: nat, files: seq<File>): Cache
    requires n > 0
  {
    Cache(base, seq(n, i => i == n - 1), files, {})
  }

  /** The cache lies in the address space, above address 0, and its bitmap fits the last buffer. */
  predicate Placed(s: Cache) {
    0 < Buffers(s) <= PAGE_CACHE_SIZE && 0 < s.base && s.base + Buffers(s) * PAGE_CACHE_SIZE <= ADDRESSES
  }

  /** page_cache_index_free_buffer, from index i on; the number of buffers when there is none. */
  function FirstFree(bitmap: seq<bool>, i: nat): (r: nat)
    requires i <= |bitmap|
    ensures i <= r <= |bitmap|
    ensures forall k :: i <= k < r ==> bitmap[k]
    ensures r < |bitmap| ==> !bitmap[r]
    decreases |bitmap| - i
  {
    if i == |bitmap| || !bitmap[i] then i else FirstFree(bitmap, i + 1)
  }

  /** page_cache_get_finfo on one list: where the first entry for the page is. */
  function Find(pages: seq<Info>, page: nat): (r: Option<nat>)
    ensures r.Some? ==>
              r.value < |pages| && pages[r.value].page == page && forall k :: 0 <= k < r.value ==> pages[k].page != page
    ensures r.None? ==> forall k :: 0 <= k < |pages| ==> pages[k].page != page
  {
    if pages == [] then None
    else if pages[0].page == page then Some(0)
    else match Find(pages[1..], page)
      case None => None
      case Some(k) => Some(k + 1)
  }

  /** The buffer of a page of an open file. */
  function Lookup(s: Cache, gfd: nat, page: nat): Option<nat> {
    if gfd >= |s.files| || !s.files[gfd].open then None
    else BufferOf(s.files[gfd].pages, page)
  }

  // ----- operations; an address of 0 is failure

  function GetBuffer(s: Cache, gfd: nat, page: nat): nat {
    match Lookup(s, gfd, page)
    case None => 0
    case Some(i) => AddrByIndex(s, i)
  }

  /** Take the first free buffer, when there is one and a frame can be had for it. */
  function TakeBuffer(s: Cache, frame: bool): Option<nat> {
    var i := FirstFree(s.bitmap, 0);
    if i < |s.bitmap| && frame then Some(i) else None
  }

  function ReserveAnonymous(s: Cache, frame: bool): (Cache, nat) {
    match TakeBuffer(s, frame)
    case None => (s, 0)
    case Some(i) => (s.(bitmap := s.bitmap[i := true], anon := s.anon + {i}), AddrByIndex(s, i))
  }

  function ReleaseAnonymous(s: Cache, a: nat): Cache {
    var i := IndexByAddr(s, a);
    if i >= |s.bitmap| then s else s.(bitmap := s.bitmap[i := false], anon := s.anon - {i})
  }

  function ReserveBuffer(s: Cache, gfd: nat, page: nat, frame: bool): (Cache, nat)
    requires gfd < |s.files|
  {
    match TakeBuffer(s, frame)
    case None => (s, 0)
    case Some(i) =>
      var f := s.files[gfd];
      (s.(bitmap := s.bitmap[i := true], files := s.files[gfd := f.(pages := f.pages + [Info(page, i)])]),
          AddrByIndex(s, i))
  }

  function ReleaseBuffer(s: Cache, gfd: nat, page: nat): (Cache, bool)
    requires gfd < |s.files|
  {
    var f := s.files[gfd];
    match Find(f.pages, page)
    case None => (s, false)
    case Some(k) =>
      var i := f.pages[k].index;
      (s.(bitmap := if i < |s.bitmap| then s.bitmap[i := false] else s.bitmap,
          files := s.files[gfd := f.(pages := Dropped(f.pages, k))]), true)
  }

  // ----- the invariant

  ghost predicate Owns(s: Cache, g: nat, k: nat, i: nat) {
    g < |s.files| && k < |s.files[g].pages| && s.files[g].pages[k].index == i
  }

  /** Some file has its page in buffer i. */
  ghost predicate Owned(s: Cache, i: nat) {
    exists g: nat, k: nat :: Owns(s, g, k, i)
  }

  /** No file lists a page twice, and no buffer serves two pages: the cache is an injective map
      from (file, page) to buffers. */
  ghost predicate Injective(s: Cache) {
    && (forall g, k, l :: 0 <= g < |s.files| && 0 <= k < l < |s.files[g].pages| ==>
        s.files[g].pages[k].page != s.files[g].pages[l].page)
    && (forall g: nat, k: nat, h: nat, l: nat, i: nat :: Owns(s, g, k, i) && Owns(s, h, l, i) ==> g == h && k == l)
  }

  /** The bitmap marks exactly the buffers of cached pages, those callers hold, and the last. */
  ghost predicate BitmapExact(s: Cache) {
    && |s.bitmap| > 0 && s.bitmap[|s.bitmap| - 1]
    && (forall g: nat, k: nat, i: nat :: Owns(s, g, k, i) ==> i < |s.bitmap| - 1 && s.bitmap[i] && i !in s.anon)
    && (forall i :: i in s.anon ==> i < |s.bitmap| - 1 && s.bitmap[i])
    && (forall i: nat :: i < |s.bitmap| - 1 && s.bitmap[i] ==> i in s.anon || Owned(s, i))
  }

  ghost predicate Inv(s: Cache) {
    Placed(s) && Injective(s) && BitmapExact(s)
  }

  /** A buffer index survives the trip through its address. */
  lemma IndexOfAddr(s: Cache, i: nat)
    requires Placed(s) && i < Buffers(s)
    ensures AddrByIndex(s, i) == s.base + i * PAGE_CACHE_SIZE && IndexByAddr(s, AddrByIndex(s, i)) == i
    ensures AddrByIndex(s, i) > 0
  {
    var d := i * PAGE_CACHE_SIZE;
    assert s.base + d < ADDRESSES;
    assert AddrByIndex(s, i) == s.base + d;
    assert AddrByIndex(s, i) - s.base == d && d % ADDRESSES == d && d / PAGE_CACHE_SIZE == i;
  }

  lemma InitialOk(base: nat, n: nat, files: seq<File>)
    requires 0 < n <= PAGE_CACHE_SIZE && 0 < base && base + n * PAGE_CACHE_SIZE <= ADDRESSES
    requires forall g :: 0 <= g < |files| ==> files[g].pages == []
    ensures Inv(Initial(base, n, files))
  {
    var s := Initial(base, n, files);
    assert forall g: nat, k: nat, i: nat :: !Owns(s, g, k, i);
  }

  // ----- reserving

  /** A buffer that is free is nobody's, is not the last one, and is the lowest such. */
  lemma TakenIsFree(s: Cache, frame: bool)
    requires Inv(s) && TakeBuffer(s, frame).Some?
    ensures var i := TakeBuffer(s, frame).value;
            i < Buffers(s) - 1 && !s.bitmap[i] && i !in s.anon && !Owned(s, i) && forall k :: 0 <= k < i ==> s.bitmap[k]
  {
  }

  lemma TakeExact(s: Cache, frame: bool)
    requires Inv(s)
    ensures TakeBuffer(s, frame).Some? <==> frame && exists i :: 0 <= i < Buffers(s) - 1 && !s.bitmap[i]
  {
  }

  /** The address a reservation returns is 0 exactly when it fails. */
  lemma TakenAddress(s: Cache, frame: bool)
    requires Inv(s)
    ensures ReserveAnonymous(s, frame).1 != 0 <==> TakeBuffer(s, frame).Some?
    ensures forall g, p :: 0 <= g < |s.files| && p >= 0 ==>
              ReserveBuffer(s, g, p, frame).1 == ReserveAnonymous(s, frame).1
  {
    if TakeBuffer(s, frame).Some? { IndexOfAddr(s, TakeBuffer(s, frame).value); }
  }

  lemma AnonMarked(s: Cache, i: nat)
    requires Inv(s) && i in s.anon
    ensures i < Buffers(s) - 1 && s.bitmap[i]
  {
  }

  lemma CachedMarked(s: Cache, gfd: nat, page: nat)
    requires Inv(s) && gfd < |s.files|
    ensures var b := BufferOf(s.files[gfd].pages, page); b.Some? ==> b.value < Buffers(s) - 1 && s.bitmap[b.value]
  {
    if Find(s.files[gfd].pages, page).Some? {
      var k := Find(s.files[gfd].pages, page).value;
      assert Owns(s, gfd, k, s.files[gfd].pages[k].index);
    }
  }

  lemma FindAppended(pages: seq<Info>, info: Info, page: nat)
    ensures Find(pages + [info], page) == match Find(pages, page)
                                          case Some(k) => Some(k)
                                          case None => if info.page == page then Some(|pages|) else None
  {
    var q := pages + [info];
    assert forall k :: 0 <= k < |pages| ==> q[k] == pages[k];
    match Find(q, page) {
      case Some(k) => assert q[k].page == page;
      case None => assert q[|pages|] == info;
    }
    if Find(pages, page).Some? { assert q[Find(pages, page).value].page == page; }
  }

  /** Reserving a page that is not cached adds that pair and no other, in a buffer nobody had;
      it fails exactly when no buffer or no frame is left, and then changes nothing. */
  lemma ReserveExact(s: Cache, gfd: nat, page: nat, frame: bool, g: nat, p: nat)
    requires Inv(s) && gfd < |s.files| && s.files[gfd].open && Lookup(s, gfd, page) == None
    ensures var (r, a) := ReserveBuffer(s, gfd, page, frame);
            && (a != 0 <==> TakeBuffer(s, frame).Some?)
            && (a == 0 ==> r == s)
            && (a != 0 ==>
                 && a == AddrByIndex(s, TakeBuffer(s, frame).value)
                 && Lookup(r, g, p) == if g == gfd && p == page then TakeBuffer(s, frame) else Lookup(s, g, p))
  {
    if TakeBuffer(s, frame).Some? {
      TakenIsFree(s, frame);
      IndexOfAddr(s, TakeBuffer(s, frame).value);
      FindAppended(s.files[gfd].pages, Info(page, TakeBuffer(s, frame).value), p);
    }
  }

  /** The address of a cached page is that of its buffer and not 0; 0 says that the page is not
      cached or the file not open. */
  lemma GetBufferExact(s: Cache, gfd: nat, page: nat)
    requires Inv(s)
    ensures GetBuffer(s, gfd, page) == 0 <==> Lookup(s, gfd, page) == None
    ensures Lookup(s, gfd, page).Some? ==>
              && IndexByAddr(s, GetBuffer(s, gfd, page)) == Lookup(s, gfd, page).value < Buffers(s)
              && GetBuffer(s, gfd, page) == s.base + Lookup(s, gfd, page).value * PAGE_CACHE_SIZE
  {
    if Lookup(s, gfd, page).Some? {
      CachedMarked(s, gfd, page);
      IndexOfAddr(s, Lookup(s, gfd, page).value);
    }
  }

  /** The address under which a page was reserved is the one it is found at from then on, and every
      other page is found where it was. */
  lemma ReserveThenGet(s: Cache, gfd: nat, page: nat, frame: bool, g: nat, p: nat)
    requires Inv(s) && gfd < |s.files| && s.files[gfd].open && Lookup(s, gfd, page) == None
    ensures var (r, a) := ReserveBuffer(s, gfd, page, frame);
            GetBuffer(r, g, p) == if a != 0 && g == gfd && p == page then a else GetBuffer(s, g, p)
  {
    ReserveExact(s, gfd, page, frame, g, p);
  }

  /** After a release the page is found nowhere, and every other one where it was. */
  lemma ReleaseThenGet(s: Cache, gfd: nat, page: nat, g: nat, p: nat)
    requires Inv(s) && gfd < |s.files| && s.files[gfd].open
    ensures GetBuffer(ReleaseBuffer(s, gfd, page).0, g, p) == if g == gfd && p == page then 0 else GetBuffer(s, g, p)
  {
    ReleaseExact(s, gfd, page, g, p);
  }

  /** The lists, of files that are not open too: a reserved page is listed behind what was there,
      a release takes the first entry for the page. */
  lemma ListsExact(s: Cache, gfd: nat, page: nat, frame: bool, g: nat, p: nat)
    requires Inv(s) && gfd < |s.files| && g < |s.files|
    ensures var r := ReserveBuffer(s, gfd, page, frame).0;
            && |r.files| == |s.files| && r.files[g].open == s.files[g].open
            && (g != gfd ==> r.files[g] == s.files[g])
            && (Find(s.files[gfd].pages, page) == None ==>
                 BufferOf(r.files[g].pages, p) ==
                   if g == gfd && p == page then TakeBuffer(s, frame) else BufferOf(s.files[g].pages, p))
    ensures var (r, ok) := ReleaseBuffer(s, gfd, page);
            && (ok <==> BufferOf(s.files[gfd].pages, page).Some?)
            && |r.files| == |s.files| && r.files[g].open == s.files[g].open
            && (g != gfd ==> r.files[g] == s.files[g])
            && BufferOf(r.files[g].pages, p) == if g == gfd && p == page then None else BufferOf(s.files[g].pages, p)
  {
    if TakeBuffer(s, frame).Some? {
      FindAppended(s.files[gfd].pages, Info(page, TakeBuffer(s, frame).value), p);
    }
    match Find(s.files[gfd].pages, page)
    case None =>
    case Some(k) => BufferOfDropped(s.files[gfd].pages, k, p);
  }

  /** A reservation hands out the lowest free buffer, by an address that names it; a release takes
      back the buffer that its address names.  No other buffer and no list changes. */
  lemma AnonymousExact(s: Cache, frame: bool, a: nat)
    requires Inv(s)
    ensures var (r, b) := ReserveAnonymous(s, frame);
            && r.files == s.files && r.base == s.base && |r.bitmap| == |s.bitmap|
            && (b == 0 ==> r == s)
            && (b != 0 ==>
                 var i := IndexByAddr(s, b);
                 && i < |s.bitmap| && !s.bitmap[i] && (forall k :: 0 <= k < i ==> s.bitmap[k])
                 && r.anon == s.anon + {i}
                     && forall k :: 0 <= k < |s.bitmap| ==> r.bitmap[k] == (k == i || s.bitmap[k]))
    ensures var r, i := ReleaseAnonymous(s, a), IndexByAddr(s, a);
            && r.files == s.files && r.base == s.base && |r.bitmap| == |s.bitmap|
            && (i >= |s.bitmap| ==> r == s)
            && (i < |s.bitmap| ==>
                 r.anon == s.anon - {i} && forall k :: 0 <= k < |s.bitmap| ==> r.bitmap[k] == (k != i && s.bitmap[k]))
  {
    hide IndexByAddr;
    if TakeBuffer(s, frame).Some? { IndexOfAddr(s, TakeBuffer(s, frame).value); }
  }

  lemma ReserveAnonymousKeeps(s: Cache, frame: bool)
    requires Inv(s)
    ensures Inv(ReserveAnonymous(s, frame).0)
  {
    var (r, a) := ReserveAnonymous(s, frame);
    if TakeBuffer(s, frame).Some? {
      TakenIsFree(s, frame);
      var t := TakeBuffer(s, frame).value;
      forall g: nat, k: nat, i: nat | Owns(r, g, k, i) ensures Owns(s, g, k, i) {}
      forall i: nat | i < |r.bitmap| - 1 && r.bitmap[i] ensures i in r.anon || Owned(r, i) {
        if i != t && i !in s.anon {
          var g: nat, k: nat :| Owns(s, g, k, i);
          assert Owns(r, g, k, i);
        }
      }
    }
  }

  lemma ReserveKeeps(s: Cache, gfd: nat, page: nat, frame: bool)
    requires Inv(s) && gfd < |s.files| && Find(s.files[gfd].pages, page) == None
    ensures Inv(ReserveBuffer(s, gfd, page, frame).0)
  {
    if TakeBuffer(s, frame).Some? {
      TakenIsFree(s, frame);
      AddedInjective(s, gfd, Info(page, TakeBuffer(s, frame).value), ReserveBuffer(s, gfd, page, frame).0);
      AddedBitmap(s, gfd, Info(page, TakeBuffer(s, frame).value), ReserveBuffer(s, gfd, page, frame).0);
    }
  }

  /** `r` is `s` with one entry more, at the back of one file's list, and its buffer marked. */
  ghost predicate Added(s: Cache, gfd: nat, x: Info, r: Cache) {
    && gfd < |s.files| && x.index < |s.bitmap|
    && r == s.(bitmap := s.bitmap[x.index := true],
               files := s.files[gfd := s.files[gfd].(pages := s.files[gfd].pages + [x])])
  }

  lemma AddedOwns(s: Cache, gfd: nat, x: Info, r: Cache, g: nat, k: nat, i: nat)
    requires Added(s, gfd, x, r)
    ensures Owns(r, g, k, i) <==> Owns(s, g, k, i) || (g == gfd && k == |s.files[gfd].pages| && i == x.index)
  {
  }

  lemma AddedInjective(s: Cache, gfd: nat, x: Info, r: Cache)
    requires Inv(s) && Added(s, gfd, x, r) && !Owned(s, x.index) && Find(s.files[gfd].pages, x.page) == None
    ensures Injective(r)
  {
    forall g: nat, k: nat, h: nat, l: nat, i: nat | Owns(r, g, k, i) && Owns(r, h, l, i) ensures g == h && k == l {
      AddedOwns(s, gfd, x, r, g, k, i);
      AddedOwns(s, gfd, x, r, h, l, i);
    }
  }

  lemma AddedBitmap(s: Cache, gfd: nat, x: Info, r: Cache)
    requires Inv(s) && Added(s, gfd, x, r) && x.index < |s.bitmap| - 1 && x.index !in s.anon
    ensures BitmapExact(r)
  {
    forall g: nat, k: nat, i: nat | Owns(r, g, k, i) ensures i < |r.bitmap| - 1 && r.bitmap[i] && i !in r.anon {
      AddedOwns(s, gfd, x, r, g, k, i);
    }
    forall i: nat | i < |r.bitmap| - 1 && r.bitmap[i] ensures i in r.anon || Owned(r, i) {
      if i == x.index {
        AddedOwns(s, gfd, x, r, gfd, |s.files[gfd].pages|, i);
      } else if i !in s.anon {
        var g: nat, k: nat :| Owns(s, g, k, i);
        AddedOwns(s, gfd, x, r, g, k, i);
      }
    }
  }

  /** Reserving a page that IS cached lists it twice, so the map is lost exactly then. */
  lemma ReserveKeepsIff(s: Cache, gfd: nat, page: nat, frame: bool)
    requires Inv(s) && gfd < |s.files|
    ensures Inv(ReserveBuffer(s, gfd, page, frame).0) <==>
              Find(s.files[gfd].pages, page) == None || !(frame && exists i :: 0 <= i < Buffers(s) - 1 && !s.bitmap[i])
  {
    TakeExact(s, frame);
    match Find(s.files[gfd].pages, page)
    case None => ReserveKeeps(s, gfd, page, frame);
    case Some(k) =>
      if TakeBuffer(s, frame).Some? {
        var r := ReserveBuffer(s, gfd, page, frame).0;
        var pages := r.files[gfd].pages;
        assert pages[k].page == page && pages[|pages| - 1].page == page && k < |pages| - 1;
      }
  }

  // ----- releasing

  ghost predicate DistinctPages(pages: seq<Info>) {
    forall k, l :: 0 <= k < l < |pages| ==> pages[k].page != pages[l].page
  }

  function BufferOf(pages: seq<Info>, page: nat): Option<nat> {
    match Find(pages, page)
    case None => None
    case Some(k) => Some(pages[k].index)
  }

  /** The list without its entry k. */
  function Dropped(pages: seq<Info>, k: nat): (r: seq<Info>)
    requires k < |pages|
    ensures |r| == |pages| - 1 && forall l :: 0 <= l < |r| ==> r[l] == pages[if l < k then l else l + 1]
  {
    pages[..k] + pages[k + 1..]
  }

  lemma BufferOfDropped(pages: seq<Info>, k: nat, page: nat)
    requires DistinctPages(pages) && k < |pages|
    ensures DistinctPages(Dropped(pages, k))
    ensures BufferOf(Dropped(pages, k), page) == if page == pages[k].page then None else BufferOf(pages, page)
  {
    hide Dropped;
    var r := Dropped(pages, k);
    if Find(pages, page).Some? && Find(pages, page).value != k {
      var m := Find(pages, page).value;
      assert r[if m < k then m else m - 1] == pages[m];
    }
    if Find(r, page).Some? {
      var l := Find(r, page).value;
      var m := if l < k then l else l + 1;
      assert r[l] == pages[m];
      assert Find(pages, page) == Some(m);
    }
  }

  /** Releasing a cached page takes away that pair and no other, and frees its buffer alone; a
      page that is not cached is refused and nothing changes. */
  lemma ReleaseExact(s: Cache, gfd: nat, page: nat, g: nat, p: nat)
    requires Inv(s) && gfd < |s.files| && s.files[gfd].open
    ensures var (r, ok) := ReleaseBuffer(s, gfd, page);
            && (ok <==> Lookup(s, gfd, page).Some?)
            && (!ok ==> r == s)
            && (ok ==>
                 && Lookup(s, gfd, page).value < Buffers(s)
                 && r.bitmap == s.bitmap[Lookup(s, gfd, page).value := false] && r.anon == s.anon
                 && Lookup(r, g, p) == if g == gfd && p == page then None else Lookup(s, g, p))
  {
    match Find(s.files[gfd].pages, page)
    case None =>
    case Some(k) =>
      assert Owns(s, gfd, k, s.files[gfd].pages[k].index);
      BufferOfDropped(s.files[gfd].pages, k, p);
  }

  /** `r` is `s` without entry k of one file's list, and with its buffer cleared. */
  ghost predicate Removed(s: Cache, gfd: nat, k: nat, r: Cache) {
    && gfd < |s.files| && k < |s.files[gfd].pages| && s.files[gfd].pages[k].index < |s.bitmap|
    && r == s.(bitmap := s.bitmap[s.files[gfd].pages[k].index := false],
               files := s.files[gfd := s.files[gfd].(pages := Dropped(s.files[gfd].pages, k))])
  }

  lemma RemovedOwns(s: Cache, gfd: nat, k: nat, r: Cache, g: nat, l: nat, i: nat)
    requires Removed(s, gfd, k, r)
    ensures Owns(r, g, l, i) <==> Owns(s, g, if g == gfd && l >= k then l + 1 else l, i)
  {
    hide Dropped;
  }

  lemma RemovedKeeps(s: Cache, gfd: nat, k: nat, r: Cache)
    requires Inv(s) && Removed(s, gfd, k, r)
    ensures Inv(r)
  {
    hide Dropped;
    var x := s.files[gfd].pages[k];
    assert Owns(s, gfd, k, x.index);
    forall g: nat, l: nat, h: nat, m: nat, i: nat | Owns(r, g, l, i) && Owns(r, h, m, i) ensures g == h && l == m {
      RemovedOwns(s, gfd, k, r, g, l, i);
      RemovedOwns(s, gfd, k, r, h, m, i);
    }
    BufferOfDropped(s.files[gfd].pages, k, x.page);
    forall g: nat, l: nat, i: nat | Owns(r, g, l, i) ensures i < |r.bitmap| - 1 && r.bitmap[i] && i !in r.anon {
      RemovedOwns(s, gfd, k, r, g, l, i);
    }
    forall i: nat | i < |r.bitmap| - 1 && r.bitmap[i] ensures i in r.anon || Owned(r, i) {
      if i !in s.anon {
        var g: nat, l: nat :| Owns(s, g, l, i);
        RemovedOwns(s, gfd, k, r, g, if g == gfd && l > k then l - 1 else l, i);
      }
    }
  }

  lemma ReleaseKeeps(s: Cache, gfd: nat, page: nat)
    requires Inv(s) && gfd < |s.files|
    ensures Inv(ReleaseBuffer(s, gfd, page).0)
  {
    match Find(s.files[gfd].pages, page)
    case None =>
    case Some(k) =>
      assert Owns(s, gfd, k, s.files[gfd].pages[k].index);
      RemovedKeeps(s, gfd, k, ReleaseBuffer(s, gfd, page).0);
  }

  /** Releasing an anonymous buffer by address keeps the lists and the bitmap exactly when the
      address names none of the buffers, a free one, or one a caller holds; not a file's buffer or
      the last one.  What it does to the buffer's page is in PageCacheFrames. */
  lemma ReleaseAnonymousKeepsIff(s: Cache, a: nat)
    requires Inv(s)
    ensures var i := IndexByAddr(s, a);
            Inv(ReleaseAnonymous(s, a)) <==> i >= Buffers(s) || !s.bitmap[i] || i in s.anon
  {
    hide IndexByAddr;
    var i := IndexByAddr(s, a);
    if i < Buffers(s) {
      var r := ReleaseAnonymous(s, a);
      assert forall g: nat, k: nat, j: nat :: Owns(r, g, k, j) <==> Owns(s, g, k, j);
      if i in s.anon || !s.bitmap[i] {
        forall j: nat | j < |r.bitmap| - 1 && r.bitmap[j] ensures j in r.anon || Owned(r, j) {
          if j !in s.anon {
            var g: nat, k: nat :| Owns(s, g, k, j);
            assert Owns(r, g, k, j);
          }
        }
      } else if i < Buffers(s) - 1 {
        var g: nat, k: nat :| Owns(s, g, k, i);
        assert Owns(r, g, k, i);
      }
    }
  }

  /** What was reserved can be released by its address: the buffer comes back as it was. */
  lemma ReserveThenRelease(s: Cache, frame: bool)
    requires Inv(s)
    ensures var (r, a) := ReserveAnonymous(s, frame); a != 0 ==> ReleaseAnonymous(r, a) == s
  {
    if TakeBuffer(s, frame).Some? {
      TakenIsFree(s, frame);
      var i := TakeBuffer(s, frame).value;
      IndexOfAddr(s, i);
      var (r, a) := ReserveAnonymous(s, frame);
      assert IndexByAddr(r, a) == i;
      assert r.anon - {i} == s.anon;
    }
  }

  // ----- whole runs

  datatype Op =
    | TakeOp(frame: bool)
    | GiveOp(address: nat)
    | CacheOp(gfd: nat, page: nat, frame: bool)
    | DropOp(gfd: nat, page: nat)

  /** What callers owe: addresses they hold, open files, and pages that are not cached yet. */
  predicate Legal(s: Cache, op: Op) {
    match op
    case TakeOp(_) => true
    case GiveOp(a) => IndexByAddr(s, a) >= Buffers(s) || IndexByAddr(s, a) in s.anon
    case CacheOp(g, p, _) => g < |s.files| && Find(s.files[g].pages, p) == None
    case DropOp(g, p) => g < |s.files|
  }

  function Apply(s: Cache, op: Op): Cache
    requires Legal(s, op)
  {
    match op
    case TakeOp(frame) => ReserveAnonymous(s, frame).0
    case GiveOp(a) => ReleaseAnonymous(s, a)
    case CacheOp(g, p, frame) => ReserveBuffer(s, g, p, frame).0
    case DropOp(g, p) => ReleaseBuffer(s, g, p).0
  }

  ghost predicate IsRun(states: seq<Cache>, ops: seq<Op>) {
    && |states| == |ops| + 1
    && forall k :: 0 <= k < |ops| ==> Legal(states[k], ops[k]) && states[k + 1] == Apply(states[k], ops[k])
  }

  lemma StepKeeps(s: Cache, op: Op)
    requires Inv(s) && Legal(s, op)
    ensures Inv(Apply(s, op))
  {
    hide Inv;
    match op
    case TakeOp(frame) => ReserveAnonymousKeeps(s, frame);
    case GiveOp(a) => ReleaseAnonymousKeepsIff(s, a);
    case CacheOp(g, p, frame) => ReserveKeeps(s, g, p, frame);
    case DropOp(g, p) => ReleaseKeeps(s, g, p);
  }

  /** Over every run the lists are an injective map, the bitmap marks exactly the buffers in use,
      and the last buffer belongs to nobody. */
  lemma {:induction false} RunInv(states: seq<Cache>, ops: seq<Op>, n: nat)
    requires IsRun(states, ops) && Inv(states[0]) && n < |states|
    ensures Inv(states[n])
    ensures var last := Buffers(states[n]) - 1; last >= 0 && !Owned(states[n], last) && last !in states[n].anon
  {
    hide Apply, Legal;
    if n > 0 {
      RunInv(states, ops, n - 1);
      StepKeeps(states[n - 1], ops[n - 1]);
    }
  }
}
