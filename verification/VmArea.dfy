/** Areas of a process address space (MeOS/vm_area.cpp). */
module VmArea {

  const PAGE_SIZE := 4096
  const WORD := 0x1_0000_0000

  type u32 = x: int | 0 <= x < WORD

  const INVALID_FD: u32 := WORD - 1
  const MMAP_GROWS_DOWN: bv32 := 0x200
  const MMAP_NON_REMOVE: bv32 := 0x2000
  const MMAP_INVALID: bv32 := 0x10000

  /** [start, end); `end` is exclusive. */
  datatype Area = Area(start: u32, end: u32, flags: bv32, fd: u32, offset: u32)

  predicate CheckBounds(start: u32, end: u32) {
    start % PAGE_SIZE == 0 && end % PAGE_SIZE == 0 && start < end
  }

  const BadArea := Area(0, 0, MMAP_INVALID, INVALID_FD, 0)

  function Create(start: u32, end: u32, flags: bv32, fd: u32, offset: u32): Area {
    if !CheckBounds(start, end) || flags & MMAP_INVALID == MMAP_INVALID then BadArea
    else Area(start, end, flags, fd, offset)
  }

  function CeilDivision(value: nat, divisor: nat): nat
    requires divisor > 0
  {
    value / divisor + if value % divisor != 0 then 1 else 0
  }

  /** First and last address of the area's pages, in 32-bit arithmetic. */
  function StartAddress(a: Area): u32 {
    a.start / PAGE_SIZE * PAGE_SIZE
  }

  function EndAddress(a: Area): u32 {
    (CeilDivision(a.end, PAGE_SIZE) * PAGE_SIZE - 1) % WORD
  }

  predicate Intersects(ext: Area, int_: Area) {
    !(EndAddress(int_) < StartAddress(ext) || StartAddress(int_) > EndAddress(ext))
  }

  predicate IsOk(a: Area) {
    a.flags & MMAP_INVALID != MMAP_INVALID && a.start < a.end
  }

  predicate IsRemovable(a: Area) {
    a.flags & MMAP_NON_REMOVE != MMAP_NON_REMOVE
  }

  predicate GrowsDown(a: Area) {
    a.flags & MMAP_GROWS_DOWN == MMAP_GROWS_DOWN
  }

  /** Both bounds on page boundaries, as Create guarantees even for the area it refuses. */
  predicate Aligned(a: Area) {
    a.start % PAGE_SIZE == 0 && a.end % PAGE_SIZE == 0
  }

  lemma CreateAligned(start: u32, end: u32, flags: bv32, fd: u32, offset: u32)
    ensures Aligned(Create(start, end, flags, fd, offset))
    ensures IsOk(Create(start, end, flags, fd, offset)) <==>
              CheckBounds(start, end) && flags & MMAP_INVALID != MMAP_INVALID
    ensures var a := Create(start, end, flags, fd, offset);
            if IsOk(a) then a.start == start && a.end == end && a.flags == flags && a.fd == fd && a.offset == offset
            else !exists x :: Contains(a, x)
  {
  }

  /** For an aligned area the pages are the area; an end of 0 wraps to the last address. */
  lemma AlignedExtent(a: Area)
    requires Aligned(a)
    ensures StartAddress(a) == a.start
    ensures EndAddress(a) == if a.end == 0 then WORD - 1 else a.end - 1
  {
    assert a.start == PAGE_SIZE * (a.start / PAGE_SIZE);
    assert a.end == PAGE_SIZE * (a.end / PAGE_SIZE);
  }

  ghost predicate Contains(a: Area, x: int) {
    a.start <= x < a.end
  }

  /** The comparison of page bounds decides whether two aligned areas share an address. */
  lemma IntersectsMeans(a: Area, b: Area)
    requires Aligned(a) && Aligned(b) && a.start < a.end && b.start < b.end
    ensures Intersects(a, b) <==> exists x :: Contains(a, x) && Contains(b, x)
    ensures Intersects(a, b) <==> !(a.end <= b.start || b.end <= a.start)
  {
    AlignedExtent(a);
    AlignedExtent(b);
    if Intersects(a, b) {
      var x := if a.start <= b.start then b.start else a.start;
      assert Contains(a, x) && Contains(b, x);
    }
  }
}
