/** Physical frames and the bitmap that hands them out (MeOS/mmngr_phys.cpp). */
module FrameBitmap {
  import opened Options

  const ALL_SET: bv32 := 0xFFFF_FFFF

  // ----- one word of the bitmap

  /** 1 << j. */
  function Mask(j: nat): bv32
    requires j < 32
  {
    1 << (j as bv5)
  }

  predicate Overlap(w: bv32, m: bv32) {
    w & m != 0
  }

  function Twice(m: bv32): bv32 {
    m << 1
  }

  predicate TestBit(w: bv32, j: nat)
    requires j < 32
  {
    Overlap(w, Mask(j))
  }

  function WithBit(w: bv32, j: nat): bv32
    requires j < 32
  {
    w | Mask(j)
  }

  function WithoutBit(w: bv32, j: nat): bv32
    requires j < 32
  {
    w & !Mask(j)
  }

  lemma ShiftsApart(i: bv5, j: bv5)
    ensures (1 as bv32) << i == (1 as bv32) << j <==> i == j
    ensures (1 as bv32) << i != 0
    ensures i != j ==> ((1 as bv32) << i) & ((1 as bv32) << j) == 0
  {
  }

  lemma OpsApart(w: bv32, m: bv32, n: bv32)
    requires m & n == 0
    ensures (w | m) & n == w & n
    ensures (w & !m) & n == w & n
  {
  }

  lemma OpsSame(w: bv32, m: bv32)
    ensures (w | m) & m == m
    ensures (w & !m) & m == 0
  {
  }

  /** Two one-bit masks: setting or clearing by one of them as seen by the other. */
  lemma SetOps(w: bv32, m: bv32, n: bv32)
    requires m != 0 && (m == n || m & n == 0)
    ensures (w | m) & n != 0 <==> m == n || w & n != 0
  {
    if m == n { OpsSame(w, m); } else { OpsApart(w, m, n); }
  }

  lemma ClearOps(w: bv32, m: bv32, n: bv32)
    requires m == n || m & n == 0
    ensures (w & !m) & n != 0 <==> m != n && w & n != 0
  {
    if m == n { OpsSame(w, m); } else { OpsApart(w, m, n); }
  }

  lemma MasksApart(i: nat, j: nat)
    requires i < 32 && j < 32
    ensures Mask(i) != 0 && (Mask(i) == Mask(j) <==> i == j) && (i != j ==> Mask(i) & Mask(j) == 0)
  {
    SameShift(i, j);
    ShiftsApart(i as bv5, j as bv5);
  }

  lemma ShiftBack(i: nat)
    requires i < 32
    ensures (i as bv5) as int == i
  {
  }

  lemma SameShift(i: nat, j: nat)
    requires i < 32 && j < 32
    ensures i as bv5 == j as bv5 <==> i == j
  {
    ShiftBack(i);
    ShiftBack(j);
  }

  lemma MaskOps(w: bv32, i: nat, j: nat)
    requires i < 32 && j < 32
    ensures (w | Mask(i)) & Mask(j) != 0 <==> i == j || w & Mask(j) != 0
    ensures (w & !Mask(i)) & Mask(j) != 0 <==> i != j && w & Mask(j) != 0
  {
    MasksApart(i, j);
    hide Mask;
    SetOps(w, Mask(i), Mask(j));
    ClearOps(w, Mask(i), Mask(j));
  }

  /** Setting and clearing change one bit and no other. */
  lemma BitOps(w: bv32, i: nat, j: nat)
    requires i < 32 && j < 32
    ensures TestBit(WithBit(w, i), j) <==> i == j || TestBit(w, j)
    ensures TestBit(WithoutBit(w, i), j) <==> i != j && TestBit(w, j)
  {
    hide Mask;
    MaskOps(w, i, j);
  }

  lemma ShiftStep(j: bv5)
    requires j < 31
    ensures ((1 as bv32) << j) << 1 == (1 as bv32) << (j + 1)
  {
  }

  lemma NextShift(b: bv5, c: bv5)
    requires c as int == b as int + 1
    ensures b < 31 && c == b + 1
  {
  }

  lemma MaskStep(j: nat)
    requires j < 31
    ensures Twice(Mask(j)) == Mask(j + 1)
  {
    var b, c := j as bv5, (j + 1) as bv5;
    ShiftBack(j);
    ShiftBack(j + 1);
    NextShift(b, c);
    ShiftStep(b);
  }

  lemma AllBits(w: bv32)
    requires w & 0x1 != 0 && w & 0x2 != 0 && w & 0x4 != 0 && w & 0x8 != 0 && w & 0x10 != 0 && w & 0x20 != 0
               && w & 0x40 != 0 && w & 0x80 != 0
    requires w & 0x100 != 0 && w & 0x200 != 0 && w & 0x400 != 0 && w & 0x800 != 0 && w & 0x1000 != 0 && w & 0x2000 != 0
               && w & 0x4000 != 0 && w & 0x8000 != 0
    requires w & 0x10000 != 0 && w & 0x20000 != 0 && w & 0x40000 != 0 && w & 0x80000 != 0 && w & 0x100000 != 0
               && w & 0x200000 != 0 && w & 0x400000 != 0 && w & 0x800000 != 0
    requires w & 0x1000000 != 0 && w & 0x2000000 != 0 && w & 0x4000000 != 0 && w & 0x8000000 != 0 && w & 0x10000000 != 0
               && w & 0x20000000 != 0 && w & 0x40000000 != 0 && w & 0x80000000 != 0
    ensures w == ALL_SET
  {
  }

  lemma MaskValues()
    ensures Mask(0) == 0x1 && Mask(1) == 0x2 && Mask(2) == 0x4 && Mask(3) == 0x8 && Mask(4) == 0x10 && Mask(5) == 0x20
              && Mask(6) == 0x40 && Mask(7) == 0x80
    ensures Mask(8) == 0x100 && Mask(9) == 0x200 && Mask(10) == 0x400 && Mask(11) == 0x800 && Mask(12) == 0x1000
              && Mask(13) == 0x2000 && Mask(14) == 0x4000 && Mask(15) == 0x8000
    ensures Mask(16) == 0x10000 && Mask(17) == 0x20000 && Mask(18) == 0x40000 && Mask(19) == 0x80000
              && Mask(20) == 0x100000 && Mask(21) == 0x200000 && Mask(22) == 0x400000 && Mask(23) == 0x800000
    ensures Mask(24) == 0x1000000 && Mask(25) == 0x2000000 && Mask(26) == 0x4000000 && Mask(27) == 0x8000000
              && Mask(28) == 0x10000000 && Mask(29) == 0x20000000 && Mask(30) == 0x40000000 && Mask(31) == 0x80000000
  {
  }

  lemma FullIfAllSet(w: bv32)
    requires forall j :: 0 <= j < 32 ==> TestBit(w, j)
    ensures w == ALL_SET
  {
    MaskValues();
    hide Mask;
    assert TestBit(w, 0) && TestBit(w, 1) && TestBit(w, 2) && TestBit(w, 3) && TestBit(w, 4) && TestBit(w, 5)
        && TestBit(w, 6) && TestBit(w, 7);
    assert TestBit(w, 8) && TestBit(w, 9) && TestBit(w, 10) && TestBit(w, 11) && TestBit(w, 12) && TestBit(w, 13)
        && TestBit(w, 14) && TestBit(w, 15);
    assert TestBit(w, 16) && TestBit(w, 17) && TestBit(w, 18) && TestBit(w, 19) && TestBit(w, 20) && TestBit(w, 21)
        && TestBit(w, 22) && TestBit(w, 23);
    assert TestBit(w, 24) && TestBit(w, 25) && TestBit(w, 26) && TestBit(w, 27) && TestBit(w, 28) && TestBit(w, 29)
        && TestBit(w, 30) && TestBit(w, 31);
    AllBits(w);
  }

  /** The lowest clear bit, found by shifting a one up the word. */
  method LowestClearBit(w: bv32) returns (j: nat)
    requires w != ALL_SET
    ensures j < 32 && !TestBit(w, j) && forall t :: 0 <= t < j ==> TestBit(w, t)
  {
    MaskZero();
    hide Mask, Overlap, Twice;
    var bit: bv32 := 1;
    j := 0;
    while j < 32 && Overlap(w, bit)
      invariant j <= 32 && (j < 32 ==> bit == Mask(j))
      invariant forall t :: 0 <= t < j ==> TestBit(w, t)
    {
      if j < 31 { MaskStep(j); }
      bit := Twice(bit);
      j := j + 1;
    }
    if j == 32 { FullIfAllSet(w); }
  }

  lemma MaskZero()
    ensures Mask(0) == 1
  {
  }

  lemma AllSetBits(j: nat)
    requires j < 32
    ensures TestBit(ALL_SET, j)
  {
    ShiftNonzero(j as bv5);
  }

  lemma ShiftNonzero(j: bv5)
    ensures ALL_SET & (1 << j) != 0
  {
  }

  // ----- the bitmap as a set of frames

  /** The frames below `max` whose bit is set: frame 32 i + j is bit j of word i. */
  ghost function Frames(words: seq<bv32>): set<nat> {
    set f | 0 <= f < 32 * |words| && TestBit(words[f / 32], f % 32)
  }

  /** The lowest frame from `i` on that is not in `used`. */
  ghost function FirstClear(used: set<nat>, i: nat, max: nat): (r: Option<nat>)
    requires i <= max
    ensures r.Some? ==> i <= r.value < max && r.value !in used && forall f :: i <= f < r.value ==> f in used
    ensures r.None? ==> forall f :: i <= f < max ==> f in used
    decreases max - i
  {
    if i == max then None
    else if i !in used then Some(i)
    else FirstClear(used, i + 1, max)
  }

  /** How many frames from `base` on, at most `n`, are in (or out of) the set without a break. */
  ghost function RunOf(used: set<nat>, base: nat, n: nat, inside: bool): (k: nat)
    ensures k <= n && (forall f :: base <= f < base + k ==> (f in used <==> inside))
    ensures k < n ==> !(base + k in used <==> inside)
    decreases n
  {
    if n == 0 || !(base in used <==> inside) then 0 else 1 + RunOf(used, base + 1, n - 1, inside)
  }

  ghost function Range(base: nat, n: nat): (r: set<nat>)
    ensures |r| == n
    ensures forall f :: f in r <==> base <= f < base + n
  {
    if n == 0 then {} else Range(base, n - 1) + {base + n - 1}
  }

  /** Changing bit f % 32 of word f / 32 adds or removes frame f. */
  lemma FramesUpdated(words: seq<bv32>, f: nat, word: bv32, present: bool)
    requires f < 32 * |words|
    requires forall j :: 0 <= j < 32 ==>
               (TestBit(word, j) <==> if j == f % 32 then present else TestBit(words[f / 32], j))
    ensures Frames(words[f / 32 := word]) == if present then Frames(words) + {f} else Frames(words) - {f}
  {
    hide TestBit;
    var words' := words[f / 32 := word];
    forall g | 0 <= g < 32 * |words|
      ensures TestBit(words'[g / 32], g % 32) <==> if g == f then present else TestBit(words[g / 32], g % 32)
    {
      if g / 32 == f / 32 { assert g == f <==> g % 32 == f % 32; }
    }
  }

  // ----- the allocator

  class PhysicalMemory {
    const bitmap: array<bv32>
    const maxBlocks: nat
    var usedBlocks: nat

    ghost predicate Valid()
      reads this, bitmap
    {
      && maxBlocks == 32 * bitmap.Length && maxBlocks <= 0x10_0000
      && usedBlocks == |Used()|
    }

    ghost function Used(): set<nat>
      reads bitmap
    {
      Frames(bitmap[..])
    }

    /** pmmngr_init: every frame starts out used. */
    constructor (blocks: nat)
      requires blocks % 32 == 0 && blocks <= 0x10_0000
      ensures Valid() && fresh(bitmap) && maxBlocks == blocks && Used() == Range(0, blocks)
    {
      bitmap := new bv32[blocks / 32](_ => ALL_SET);
      maxBlocks, usedBlocks := blocks, blocks;
      new;
      forall f | 0 <= f < blocks ensures TestBit(bitmap[f / 32], f % 32) { AllSetBits(f % 32); }
      assert Used() == Range(0, blocks);
    }

    function Test(f: nat): bool
      requires f < 32 * bitmap.Length
      reads bitmap
    {
      TestBit(bitmap[f / 32], f % 32)
    }

    lemma TestIs(f: nat)
      requires f < 32 * bitmap.Length
      ensures Test(f) <==> f in Used()
    {
      assert bitmap[..][f / 32] == bitmap[f / 32];
    }

    method Set(f: nat)
      requires f < 32 * bitmap.Length
      modifies bitmap
      ensures Used() == old(Used()) + {f}
    {
      hide TestBit, Frames, WithBit, WithoutBit;
      var word := WithBit(bitmap[f / 32], f % 32);
      forall j | 0 <= j < 32 ensures TestBit(word, j) <==> j == f % 32 || TestBit(bitmap[f / 32], j) {
        BitOps(bitmap[f / 32], f % 32, j);
      }
      FramesUpdated(bitmap[..], f, word, true);
      bitmap[f / 32] := word;
      assert bitmap[..] == old(bitmap[..])[f / 32 := word];
    }

    method Unset(f: nat)
      requires f < 32 * bitmap.Length
      modifies bitmap
      ensures Used() == old(Used()) - {f}
    {
      hide TestBit, Frames, WithBit, WithoutBit;
      var word := WithoutBit(bitmap[f / 32], f % 32);
      forall j | 0 <= j < 32 ensures TestBit(word, j) <==> j != f % 32 && TestBit(bitmap[f / 32], j) {
        BitOps(bitmap[f / 32], f % 32, j);
      }
      FramesUpdated(bitmap[..], f, word, false);
      bitmap[f / 32] := word;
      assert bitmap[..] == old(bitmap[..])[f / 32 := word];
    }

    /** mmap_first_free; 0 also stands for failure. */
    method FirstFree() returns (f: nat)
      requires Valid()
      ensures f == match FirstClear(Used(), 0, maxBlocks) case Some(g) => g case None => 0
    {
      hide Frames, Mask, TestBit, FirstClear;
      ghost var used := Used();
      for i := 0 to bitmap.Length
        invariant FirstClear(used, 0, maxBlocks) == FirstClear(used, 32 * i, maxBlocks)
      {
        if bitmap[i] != ALL_SET {
          var j := LowestClearBit(bitmap[i]);
          WordPrefix(i, j);
          return 32 * i + j;
        }
        FullWord(i);
      }
      ClearAtEnd(used, maxBlocks);
      return 0;
    }

    lemma WordPrefix(i: nat, j: nat)
      requires Valid() && i < bitmap.Length && j < 32 && !TestBit(bitmap[i], j)
      requires forall t :: 0 <= t < j ==> TestBit(bitmap[i], t)
      ensures FirstClear(Used(), 32 * i, maxBlocks) == Some(32 * i + j)
    {
      hide TestBit, FirstClear, Frames;
      forall f | 32 * i <= f <= 32 * i + j ensures f in Used() <==> f < 32 * i + j {
        assert f / 32 == i && f % 32 == f - 32 * i;
        TestIs(f);
      }
      SkipUsed(Used(), 32 * i, 32 * i + j, maxBlocks);
      ClearHere(Used(), 32 * i + j, maxBlocks);
    }

    lemma FullWord(i: nat)
      requires Valid() && i < bitmap.Length && bitmap[i] == ALL_SET
      ensures FirstClear(Used(), 32 * i, maxBlocks) == FirstClear(Used(), 32 * i + 32, maxBlocks)
    {
      forall f | 32 * i <= f < 32 * i + 32 ensures f in Used() {
        AllSetBits(f % 32);
        TestIs(f);
      }
      SkipUsed(Used(), 32 * i, 32 * i + 32, maxBlocks);
    }

    /** Sets a clear bit and counts it. */
    method Claim(f: nat)
      requires Valid() && f < maxBlocks && f !in Used()
      modifies this`usedBlocks, bitmap
      ensures Valid() && Used() == old(Used()) + {f}
    {
      hide Frames;
      Set(f);
      usedBlocks := usedBlocks + 1;
    }

    /** Clears a set bit and uncounts it. */
    method Release(f: nat)
      requires Valid() && f < maxBlocks && f in Used()
      modifies this`usedBlocks, bitmap
      ensures Valid() && Used() == old(Used()) - {f}
    {
      hide Frames;
      Unset(f);
      usedBlocks := usedBlocks - 1;
    }

    /** pmmngr_alloc_block: the lowest clear frame, or null (None) when there is none or it
        would be frame 0. */
    method AllocBlock() returns (r: Option<nat>)
      requires Valid()
      modifies this`usedBlocks, bitmap
      ensures Valid()
      ensures r == AllocFrame(old(Used()), maxBlocks)
      ensures Used() == old(Used()) + if r.Some? then {r.value} else {}
    {
      UsedBound();
      if maxBlocks - usedBlocks == 0 { return None; }
      var frame := FirstFree();
      if frame == 0 { return None; }
      Claim(frame);
      return Some(frame);
    }

    lemma UsedBound()
      requires Valid()
      ensures usedBlocks <= maxBlocks
      ensures usedBlocks == maxBlocks ==> FirstClear(Used(), 0, maxBlocks) == None
    {
      SubsetSize(Used(), Range(0, maxBlocks));
    }

    /** pmmngr_free_block of the frame with this number. */
    method FreeBlock(frame: nat)
      requires Valid() && frame < maxBlocks
      modifies this`usedBlocks, bitmap
      ensures Valid() && Used() == old(Used()) - {frame}
    {
      TestIs(frame);
      if Test(frame) {
        Release(frame);
      } else {
        assert Used() == Used() - {frame};
      }
    }

    /** pmmngr_free_region, by frame numbers.  The cursor moves only when it frees, so what is
        freed is the unbroken run of used frames at the start; frame 0 is then set again.
        An empty region is refused. */
    method FreeRegion(base: nat, n: nat) returns (refused: bool)
      requires Valid() && base + n <= maxBlocks
      modifies this`usedBlocks, bitmap
      ensures Valid() && refused == (n == 0)
      ensures refused ==> Used() == old(Used())
      ensures !refused ==> Used() == old(Used()) - Range(base, RunOf(old(Used()), base, n, true)) + {0}
    {
      hide RunOf, Frames, TestBit, Range;
      if n == 0 { return true; }
      FreeRun(base, n);
      TestIs(0);
      if !Test(0) {
        Claim(0);
      }
      return false;
    }

    /** The loop of pmmngr_free_region. */
    method FreeRun(base: nat, n: nat)
      requires Valid() && 0 < n && base + n <= maxBlocks
      modifies this`usedBlocks, bitmap
      ensures Valid()
      ensures Used() == old(Used()) - Range(base, RunOf(old(Used()), base, n, true))
    {
      hide RunOf, Frames, TestBit, Range, Swept, Moved, Test;
      ghost var used := Used();
      var cursor := base;
      SweepStart(used, base, n, true);
      for i := 0 to n
        invariant Valid() && base <= cursor <= base + i
        invariant Swept(used, base, n, cursor, i, true) && Moved(used, Used(), base, cursor, true)
      {
        TestIs(cursor);
        SweepStep(used, Used(), base, n, cursor, i, true);
        if Test(cursor) {
          Release(cursor);
          cursor := cursor + 1;
        }
      }
      SweepEnd(used, Used(), base, n, cursor, true);
    }

    /** pmmngr_reserve_region, likewise: the unbroken run of clear frames at the start. */
    method ReserveRegion(base: nat, n: nat) returns (refused: bool)
      requires Valid() && base + n <= maxBlocks
      modifies this`usedBlocks, bitmap
      ensures Valid() && refused == (n == 0)
      ensures refused ==> Used() == old(Used())
      ensures !refused ==> Used() == old(Used()) + Range(base, RunOf(old(Used()), base, n, false))
    {
      hide RunOf, Frames, TestBit, Range;
      if n == 0 { return true; }
      ReserveRun(base, n);
      return false;
    }

    /** The loop of pmmngr_reserve_region. */
    method ReserveRun(base: nat, n: nat)
      requires Valid() && 0 < n && base + n <= maxBlocks
      modifies this`usedBlocks, bitmap
      ensures Valid()
      ensures Used() == old(Used()) + Range(base, RunOf(old(Used()), base, n, false))
    {
      hide RunOf, Frames, TestBit, Range, Swept, Moved, Test;
      ghost var used := Used();
      var cursor := base;
      SweepStart(used, base, n, false);
      for i := 0 to n
        invariant Valid() && base <= cursor <= base + i
        invariant Swept(used, base, n, cursor, i, false) && Moved(used, Used(), base, cursor, false)
      {
        TestIs(cursor);
        SweepStep(used, Used(), base, n, cursor, i, false);
        if !Test(cursor) {
          Claim(cursor);
          cursor := cursor + 1;
        }
      }
      SweepEnd(used, Used(), base, n, cursor, false);
    }
  }

  // ----- facts about the set

  ghost function AllocFrame(used: set<nat>, max: nat): Option<nat> {
    match FirstClear(used, 0, max)
    case None => None
    case Some(f) => if f == 0 then None else Some(f)
  }

  lemma {:induction false} SkipUsed(used: set<nat>, i: nat, j: nat, max: nat)
    requires i <= j <= max && forall f :: i <= f < j ==> f in used
    ensures FirstClear(used, i, max) == FirstClear(used, j, max)
    decreases j - i
  {
    if i < j { SkipUsed(used, i + 1, j, max); }
  }

  lemma ClearAtEnd(used: set<nat>, max: nat)
    ensures FirstClear(used, max, max) == None
  {
  }

  lemma ClearHere(used: set<nat>, i: nat, max: nat)
    requires i < max && i !in used
    ensures FirstClear(used, i, max) == Some(i)
  {
  }

  lemma SubsetSize(a: set<nat>, b: set<nat>)
    requires a <= b
    ensures |a| <= |b|
    ensures |a| == |b| ==> a == b
  {
    var rest := b - a;
    assert b == a + rest;
    if |a| == |b| { assert |rest| == 0; }
  }

  /** After `i` turns of a region loop the cursor has passed the run so far, or sticks at its end. */
  ghost predicate Swept(used: set<nat>, base: nat, n: nat, cursor: nat, i: nat, inside: bool) {
    && base <= cursor <= base + i && i <= n
    && RunOf(used, base, n, inside) ==
        cursor - base + (if cursor == base + i then RunOf(used, cursor, n - i, inside) else 0)
    && (cursor < base + i ==> !(cursor in used <==> inside))
  }

  /** What the loop has done by then: the frames the cursor passed have changed sides. */
  ghost predicate Moved(used: set<nat>, now: set<nat>, base: nat, cursor: nat, inside: bool) {
    base <= cursor && now == if inside then used - Range(base, cursor - base) else used + Range(base, cursor - base)
  }

  lemma SweepStart(used: set<nat>, base: nat, n: nat, inside: bool)
    ensures Swept(used, base, n, base, 0, inside) && Moved(used, used, base, base, inside)
  {
  }

  lemma SweepStep(used: set<nat>, now: set<nat>, base: nat, n: nat, cursor: nat, i: nat, inside: bool)
    requires Swept(used, base, n, cursor, i, inside) && Moved(used, now, base, cursor, inside) && i < n
    ensures Swept(used, base, n, if cursor in now <==> inside then cursor + 1 else cursor, i + 1, inside)
    ensures (cursor in now <==> inside) ==>
              Moved(used, if inside then now - {cursor} else now + {cursor}, base, cursor + 1, inside)
  {
    hide RunOf;
    MoveStep(used, now, base, cursor, inside);
    RunUnfold(used, cursor, n - i, inside);
  }

  lemma RunUnfold(used: set<nat>, base: nat, n: nat, inside: bool)
    requires n > 0
    ensures RunOf(used, base, n, inside) ==
              if base in used <==> inside then 1 + RunOf(used, base + 1, n - 1, inside) else 0
  {
  }

  lemma MoveStep(used: set<nat>, now: set<nat>, base: nat, cursor: nat, inside: bool)
    requires Moved(used, now, base, cursor, inside)
    ensures Moved(used, if inside then now - {cursor} else now + {cursor}, base, cursor + 1, inside)
    ensures cursor in now <==> cursor in used
  {
    assert Range(base, cursor + 1 - base) == Range(base, cursor - base) + {cursor};
  }

  lemma SweepEnd(used: set<nat>, now: set<nat>, base: nat, n: nat, cursor: nat, inside: bool)
    requires Swept(used, base, n, cursor, n, inside) && Moved(used, now, base, cursor, inside)
    ensures var run := Range(base, RunOf(used, base, n, inside)); now == if inside then used - run else used + run
  {
  }

  /** An allocation never returns frame 0 or a used frame, takes the lowest clear one, and
      while frame 0 is set it fails exactly when every frame is used. */
  lemma AllocFrameExact(used: set<nat>, max: nat)
    ensures var r := AllocFrame(used, max);
            && (r.Some? ==> 0 < r.value < max && r.value !in used && forall f :: 0 <= f < r.value ==> f in used)
            && (r.None? <==> (0 < max && 0 !in used) || forall f :: 0 <= f < max ==> f in used)
  {
  }

  /** A region is freed (or reserved) as a whole exactly when all of it started the other way. */
  lemma RegionExact(used: set<nat>, base: nat, n: nat, inside: bool)
    ensures RunOf(used, base, n, inside) == n <==> forall f :: base <= f < base + n ==> (f in used <==> inside)
  {
  }

  // ----- whole runs of the allocator

  datatype FrameOp = TakeFrame | GiveFrame(frame: nat) | GiveRegion(base: nat, n: nat) | KeepRegion(base: nat, n: nat)

  ghost function AfterOp(used: set<nat>, max: nat, op: FrameOp): set<nat> {
    match op
    case TakeFrame => used + (match AllocFrame(used, max) case Some(f) => {f} case None => {})
    case GiveFrame(f) => used - {f}
    case GiveRegion(base, n) => if n == 0 then used else used - Range(base, RunOf(used, base, n, true)) + {0}
    case KeepRegion(base, n) => if n == 0 then used else used + Range(base, RunOf(used, base, n, false))
  }

  ghost function AfterOps(used: set<nat>, max: nat, ops: seq<FrameOp>): set<nat>
    decreases |ops|
  {
    if ops == [] then used else AfterOps(AfterOp(used, max, ops[0]), max, ops[1..])
  }

  /** What the allocations of a run return, in order; None also stands for an op that is not one. */
  ghost function Handed(used: set<nat>, max: nat, ops: seq<FrameOp>): seq<Option<nat>>
    decreases |ops|
  {
    if ops == [] then []
    else [if ops[0].TakeFrame? then AllocFrame(used, max) else None] + Handed(AfterOp(used, max, ops[0]), max, ops[1..])
  }

  predicate Frees(op: FrameOp, f: nat) {
    match op
    case GiveFrame(g) => g == f
    case GiveRegion(base, n) => base <= f < base + n && f != 0
    case _ => false
  }

  /** A frame that is in use stays so, and is handed to nobody, until some operation frees it;
      frame 0 is in no danger from a region, only from being freed by itself. */
  lemma {:induction false} HeldUntilFreed(used: set<nat>, max: nat, ops: seq<FrameOp>, f: nat)
    requires f in used && forall k :: 0 <= k < |ops| ==> !Frees(ops[k], f)
    ensures f in AfterOps(used, max, ops)
    ensures Some(f) !in Handed(used, max, ops)
    decreases |ops|
  {
    if ops != [] {
      assert !Frees(ops[0], f);
      assert forall k :: 0 <= k < |ops[1..]| ==> ops[1..][k] == ops[k + 1];
      HeldUntilFreed(AfterOp(used, max, ops[0]), max, ops[1..], f);
    }
  }
}
