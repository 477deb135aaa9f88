/** A process's contract of memory areas as a value (MeOS/vm_contract.cpp).

    The functions here say what each operation answers without saying how it searches:
    `Add` looks at every area, `Find` scans from the front.  `VmContract` proves that the
    binary searches and the neighbour tests of the code give the same answers. */
module VmContractSpec {
  import opened Options
  import opened VmArea

  datatype Contract = Contract(areas: seq<Area>, low: u32, high: u32)

  datatype Status = Ok | BadArguments | NotFound | NonRemovable | Overlaps | AreaExists | Unaligned | OutOfBounds

  // ----- the invariant

  /** Non-empty page-aligned areas in address order, none reaching into the next. */
  ghost predicate Sorted(areas: seq<Area>) {
    && (forall i :: 0 <= i < |areas| ==> Aligned(areas[i]) && areas[i].start < areas[i].end)
    && (forall i, j :: 0 <= i < j < |areas| ==> areas[i].end <= areas[j].start)
  }

  ghost predicate IsGuard(a: Area, start: int) {
    a.start == start && a.end == start + PAGE_SIZE && !IsRemovable(a)
  }

  /** Sorted, with a non-removable guard page at either end of [low, high). */
  ghost predicate Inv(c: Contract) {
    && c.low % PAGE_SIZE == 0 && c.high % PAGE_SIZE == 0
    && |c.areas| >= 2
    && Sorted(c.areas)
    && IsGuard(c.areas[0], c.low)
    && IsGuard(c.areas[|c.areas| - 1], c.high - PAGE_SIZE)
  }

  // ----- the operations

  function Guard(start: u32): Area
    requires start + PAGE_SIZE < WORD
  {
    Area(start, start + PAGE_SIZE, MMAP_NON_REMOVE, INVALID_FD, 0)
  }

  function Init(low: u32, high: u32): Option<Contract> {
    if high % PAGE_SIZE != 0 || low % PAGE_SIZE != 0 || low >= high then None
    else Some(Contract(Insert([Guard(low)], Guard(high - PAGE_SIZE)), low, high))
  }

  /** ordered_vector_insert: behind every area that does not start after `a`. */
  function Insert(areas: seq<Area>, a: Area): (r: seq<Area>)
    ensures |r| == |areas| + 1
  {
    if areas == [] || !(a.start < areas[|areas| - 1].start) then areas + [a]
    else Insert(areas[..|areas| - 1], a) + [areas[|areas| - 1]]
  }

  ghost predicate StartsAt(areas: seq<Area>, start: u32) {
    exists i :: 0 <= i < |areas| && areas[i].start == start
  }

  /** The area shares an address with some area of the contract. */
  ghost predicate Meets(areas: seq<Area>, a: Area) {
    exists i, x :: 0 <= i < |areas| && Contains(areas[i], x) && Contains(a, x)
  }

  ghost function AddStatus(c: Contract, a: Area): Status {
    if !IsOk(a) then BadArguments
    else if a.start < c.low || a.end > c.high then BadArguments
    else if StartsAt(c.areas, a.start) then AreaExists
    else if Meets(c.areas, a) then Overlaps
    else Ok
  }

  ghost function Add(c: Contract, a: Area): Contract {
    if AddStatus(c, a) == Ok then c.(areas := Insert(c.areas, a)) else c
  }

  ghost function IndexOfStart(areas: seq<Area>, start: u32): (i: nat)
    requires StartsAt(areas, start)
    ensures i < |areas| && areas[i].start == start
  {
    var i :| 0 <= i < |areas| && areas[i].start == start;
    i
  }

  /** OutOfBounds: there is nothing at or below the start to stop the search, which then reads
      far behind the array. */
  ghost function RemoveStatus(c: Contract, a: Area): Status {
    if !IsRemovable(a) then NonRemovable
    else if c.areas == [] || a.start < c.areas[0].start then OutOfBounds
    else if !StartsAt(c.areas, a.start) then NotFound
    else Ok
  }

  ghost function Remove(c: Contract, a: Area): Contract {
    if RemoveStatus(c, a) != Ok then c
    else
      var i := IndexOfStart(c.areas, a.start);
      c.(areas := c.areas[..i] + c.areas[i + 1..])
  }

  /** The bounds an expansion would give, in 32-bit arithmetic. */
  function Grown(a: Area, length: u32): Area {
    if GrowsDown(a) then a.(start := (a.start - length) % WORD)
    else a.(end := (a.end + length) % WORD)
  }

  /** Expanding area `i`; one neighbour is tested. */
  function ExpandStatus(c: Contract, i: nat, length: u32): Status
    requires i < |c.areas| && (IsRemovable(c.areas[i]) ==> 0 < i < |c.areas| - 1)
  {
    var a := c.areas[i];
    if !IsRemovable(a) then BadArguments
    else if length % PAGE_SIZE != 0 then Unaligned
    else if Intersects(c.areas[if GrowsDown(a) then i - 1 else i + 1], Grown(a, length)) then Overlaps
    else Ok
  }

  function Expand(c: Contract, i: nat, length: u32): Contract
    requires i < |c.areas| && (IsRemovable(c.areas[i]) ==> 0 < i < |c.areas| - 1)
  {
    if ExpandStatus(c, i, length) == Ok then c.(areas := c.areas[i := Grown(c.areas[i], length)]) else c
  }

  /** The area that contains `address`, found by a scan from the front. */
  ghost function Scan(areas: seq<Area>, address: int): Option<nat> {
    if areas == [] then None
    else if Contains(areas[|areas| - 1], address) then Some(|areas| - 1)
    else Scan(areas[..|areas| - 1], address)
  }

  ghost function Find(c: Contract, address: u32): Option<nat> {
    if address < c.low || address >= c.high then None else Scan(c.areas, address)
  }

  /** [x, x + length) lies in the space and meets no area. */
  ghost predicate Free(c: Contract, x: int, length: nat) {
    && c.low <= x && x + length <= c.high
    && forall i :: 0 <= i < |c.areas| ==> x + length <= c.areas[i].start || c.areas[i].end <= x
  }

  // ----- properties

  lemma SortedStarts(areas: seq<Area>, i: nat, j: nat)
    requires Sorted(areas) && i < |areas| && j < |areas|
    ensures i < j <==> areas[i].start < areas[j].start
    ensures areas[i].start == areas[j].start <==> i == j
  {
    if i < j { assert areas[i].end <= areas[j].start; }
    if j < i { assert areas[j].end <= areas[i].start; }
  }

  /** init accepts exactly the aligned proper ranges, and gives a sound contract exactly when
      the range has room for two distinct guard pages. */
  lemma InitExact(low: u32, high: u32)
    ensures Init(low, high).Some? <==> low % PAGE_SIZE == 0 && high % PAGE_SIZE == 0 && low < high
    ensures Init(low, high).Some? ==>
              var c := Init(low, high).value;
              && c.low == low && c.high == high
              && |c.areas| == 2 && IsGuard(c.areas[0], low) && IsGuard(c.areas[1], high - PAGE_SIZE)
              && (Inv(c) <==> high - low >= 2 * PAGE_SIZE)
  {
    if Init(low, high).Some? {
      var c := Init(low, high).value;
      assert c.areas == [Guard(low), Guard(high - PAGE_SIZE)];
    }
  }

  lemma {:induction false} InsertSplits(areas: seq<Area>, a: Area, k: nat)
    requires k <= |areas|
    requires forall i :: 0 <= i < k ==> areas[i].start <= a.start
    requires forall i :: k <= i < |areas| ==> a.start < areas[i].start
    ensures Insert(areas, a) == areas[..k] + [a] + areas[k..]
    decreases |areas|
  {
    if k == |areas| {
      assert areas[..k] == areas && areas[k..] == [];
    } else {
      var n := |areas| - 1;
      InsertSplits(areas[..n], a, k);
      assert areas[..n][..k] == areas[..k];
      assert areas[..n][k..] + [areas[n]] == areas[k..];
    }
  }

  /** Where an area that fits goes: between the last area before it and the first one after. */
  lemma AddedAt(c: Contract, a: Area) returns (k: nat)
    requires Inv(c) && Aligned(a) && AddStatus(c, a) == Ok
    ensures 0 < k < |c.areas|
    ensures c.areas[k - 1].end <= a.start && a.end <= c.areas[k].start
    ensures Add(c, a).areas == c.areas[..k] + [a] + c.areas[k..]
  {
    assert IsOk(a) && c.low <= a.start && a.end <= c.high && !Meets(c.areas, a)
        && Add(c, a).areas == Insert(c.areas, a);
    hide Meets, Insert, StartsAt, Add, AddStatus, Contains, Aligned;
    Apart(c.areas, a, 0);
    Apart(c.areas, a, |c.areas| - 1);
    hide Sorted;
    k := Slot(c.areas, a);
    InsertSplits(c.areas, a, k);
  }

  lemma Slot(areas: seq<Area>, a: Area) returns (k: nat)
    requires Sorted(areas) && !Meets(areas, a) && a.start < a.end && |areas| >= 2
    requires areas[0].end <= a.start && a.end <= areas[|areas| - 1].start
    ensures 0 < k < |areas| && areas[k - 1].end <= a.start && a.end <= areas[k].start
    ensures forall i :: 0 <= i < k ==> areas[i].start <= a.start
    ensures forall i :: k <= i < |areas| ==> a.start < areas[i].start
  {
    hide Meets, Sorted;
    k := 1;
    while areas[k].start <= a.start
      invariant 0 < k < |areas| && areas[k - 1].end <= a.start
      decreases |areas| - k
    {
      Apart(areas, a, k);
      k := k + 1;
    }
    Apart(areas, a, k);
    NotEmpty(areas, k);
    NotEmpty(areas, k - 1);
    forall i | 0 <= i < k ensures areas[i].start <= a.start { SortedStarts(areas, i, k - 1); }
    forall i | k <= i < |areas| ensures a.start < areas[i].start { SortedStarts(areas, k, i); }
  }

  lemma NotEmpty(areas: seq<Area>, i: nat)
    requires Sorted(areas) && i < |areas|
    ensures areas[i].start < areas[i].end
  {
  }

  lemma Apart(areas: seq<Area>, a: Area, i: nat)
    requires Sorted(areas) && !Meets(areas, a) && a.start < a.end && i < |areas|
    ensures areas[i].end <= a.start || a.end <= areas[i].start
  {
    if !(areas[i].end <= a.start || a.end <= areas[i].start) {
      var x := if areas[i].start <= a.start then a.start else areas[i].start;
      assert Contains(areas[i], x) && Contains(a, x);
    }
  }

  /** Adding keeps the contract sorted, disjoint, in range and guarded. */
  lemma AddKeeps(c: Contract, a: Area)
    requires Inv(c) && Aligned(a)
    ensures Inv(Add(c, a))
    ensures AddStatus(c, a) == Ok ==>
              a in Add(c, a).areas && forall b :: b in Add(c, a).areas <==> b == a || b in c.areas
  {
    hide Inv, Insert, StartsAt, Meets;
    if AddStatus(c, a) == Ok {
      var k := AddedAt(c, a);
      InsertedKeeps(c, a, k);
      InsertedMembers(c.areas, a, k);
      hide AddStatus, IsOk, Aligned;
      assert a in c.areas[..k] + [a] + c.areas[k..];
    }
  }

  lemma InsertedKeeps(c: Contract, a: Area, k: nat)
    requires Inv(c) && Aligned(a) && a.start < a.end && 0 < k < |c.areas|
    requires c.areas[k - 1].end <= a.start && a.end <= c.areas[k].start
    ensures Inv(c.(areas := c.areas[..k] + [a] + c.areas[k..]))
  {
    SortedInsert(c.areas, a, k);
    hide Sorted, Aligned;
  }

  lemma InsertedMembers(areas: seq<Area>, a: Area, k: nat)
    requires k <= |areas|
    ensures forall b :: b in areas[..k] + [a] + areas[k..] <==> b == a || b in areas
  {
    assert areas == areas[..k] + areas[k..];
  }

  lemma SortedInsert(areas: seq<Area>, a: Area, k: nat)
    requires Sorted(areas) && Aligned(a) && a.start < a.end && 0 < k < |areas|
    requires areas[k - 1].end <= a.start && a.end <= areas[k].start
    ensures Sorted(areas[..k] + [a] + areas[k..])
  {
    var r := areas[..k] + [a] + areas[k..];
    forall i, j | 0 <= i < j < |r| ensures r[i].end <= r[j].start {
      if j == k && i < k - 1 { assert areas[i].end <= areas[k - 1].start; }
      if i == k && j > k + 1 { assert areas[k].end <= areas[j - 1].start; }
    }
  }

  lemma SortedRemove(areas: seq<Area>, i: nat)
    requires Sorted(areas) && i < |areas|
    ensures Sorted(areas[..i] + areas[i + 1..])
  {
    var r := areas[..i] + areas[i + 1..];
    forall x, y | 0 <= x < y < |r| ensures r[x].end <= r[y].start {
      assert r[x] == areas[if x < i then x else x + 1] && r[y] == areas[if y < i then y else y + 1];
    }
  }

  /** An area is accepted by what it meets, because a common start is a common address. */
  lemma AddAccepts(c: Contract, a: Area)
    requires Inv(c) && Aligned(a)
    ensures AddStatus(c, a) == Ok <==> IsOk(a) && c.low <= a.start && a.end <= c.high && !Meets(c.areas, a)
    ensures AddStatus(c, a) != Ok ==> Add(c, a) == c
    ensures Add(c, a).low == c.low && Add(c, a).high == c.high
  {
    if IsOk(a) && StartsAt(c.areas, a.start) {
      var i :| 0 <= i < |c.areas| && c.areas[i].start == a.start;
      assert Contains(c.areas[i], a.start) && Contains(a, a.start);
    }
  }

  /** Taking out entry `i` is sound exactly when it is not a guard. */
  lemma RemoveAt(c: Contract, i: nat)
    requires Inv(c) && i < |c.areas|
    ensures Inv(c.(areas := c.areas[..i] + c.areas[i + 1..])) <==> 0 < i < |c.areas| - 1
  {
    hide Inv;
    if i == 0 {
      RemoveFirst(c);
    } else if i == |c.areas| - 1 {
      RemoveLast(c);
    } else {
      RemoveInside(c, i);
    }
  }

  lemma RemoveFirst(c: Contract)
    requires Inv(c)
    ensures c.areas != [] && !Inv(c.(areas := c.areas[..0] + c.areas[1..]))
  {
    SortedStarts(c.areas, 0, 1);
    hide Sorted;
    assert (c.areas[..0] + c.areas[1..])[0] == c.areas[1];
  }

  lemma RemoveLast(c: Contract)
    requires Inv(c)
    ensures |c.areas| > 0 && !Inv(c.(areas := c.areas[..|c.areas| - 1] + c.areas[|c.areas|..]))
  {
    var n := |c.areas|;
    SortedStarts(c.areas, n - 2, n - 1);
    hide Sorted;
    assert (c.areas[..n - 1] + c.areas[n..])[n - 2] == c.areas[n - 2];
  }

  lemma RemoveInside(c: Contract, i: nat)
    requires Inv(c) && 0 < i < |c.areas| - 1
    ensures Inv(c.(areas := c.areas[..i] + c.areas[i + 1..]))
  {
    var r := c.areas[..i] + c.areas[i + 1..];
    SortedRemove(c.areas, i);
    hide Sorted;
    assert r[0] == c.areas[0] && r[|r| - 1] == c.areas[|c.areas| - 1];
  }

  lemma GuardStarts(c: Contract, i: nat)
    requires Inv(c) && i < |c.areas|
    ensures c.areas[i].start == c.low <==> i == 0
    ensures c.areas[i].start == c.high - PAGE_SIZE <==> i == |c.areas| - 1
  {
    SortedStarts(c.areas, 0, i);
    SortedStarts(c.areas, |c.areas| - 1, i);
  }

  /** A removal stays inside the array and keeps the contract exactly when a removable area of
      the caller's starts above the low guard and not at the high one; entries of the contract
      always do. */
  lemma RemoveExact(c: Contract, a: Area)
    requires Inv(c)
    ensures RemoveStatus(c, a) != OutOfBounds && Inv(Remove(c, a)) <==> RemoveIsSafe(c, a)
    ensures a in c.areas ==> RemoveIsSafe(c, a)
  {
    assert |c.areas| >= 2;
    hide Inv;
    GuardStarts(c, 0);
    GuardStarts(c, |c.areas| - 1);
    if RemoveStatus(c, a) == Ok {
      var i := IndexOfStart(c.areas, a.start);
      RemoveAt(c, i);
      GuardStarts(c, i);
    }
    if a in c.areas {
      var j :| 0 <= j < |c.areas| && c.areas[j] == a;
      StoredAbove(c, j);
    }
  }

  /** A removal takes out the area that starts where the argument does, if there is one, and no
      other; else it changes nothing. */
  lemma RemoveEffect(c: Contract, a: Area)
    requires Inv(c) && RemoveIsSafe(c, a)
    ensures RemoveStatus(c, a) ==
              if !IsRemovable(a) then NonRemovable else if StartsAt(c.areas, a.start) then Ok else NotFound
    ensures var r := Remove(c, a);
            && r.low == c.low && r.high == c.high
            && (RemoveStatus(c, a) != Ok ==> r == c)
            && (RemoveStatus(c, a) == Ok ==>
                 |r.areas| == |c.areas| - 1 && forall b :: b in r.areas <==> b in c.areas && b.start != a.start)
  {
    assert |c.areas| >= 2;
    GuardStarts(c, 0);
    if RemoveStatus(c, a) == Ok {
      var i := IndexOfStart(c.areas, a.start);
      var r := Remove(c, a).areas;
      forall j | 0 <= j < |c.areas| && j != i ensures c.areas[j] in r && c.areas[j].start != a.start {
        SortedStarts(c.areas, i, j);
        assert r[if j < i then j else j - 1] == c.areas[j];
      }
    }
  }

  predicate RemoveIsSafe(c: Contract, a: Area) {
    IsRemovable(a) ==> c.low < a.start && a.start != c.high - PAGE_SIZE
  }

  lemma StoredAbove(c: Contract, i: nat)
    requires Inv(c) && i < |c.areas|
    ensures RemoveIsSafe(c, c.areas[i])
  {
    GuardStarts(c, i);
    if i > 0 { SortedStarts(c.areas, 0, i); }
  }

  /** A removable area that starts below the contract is not answered at all. */
  lemma RemoveBelowLow()
    ensures var c, a := Init(0x2000, 0x6000).value, Area(0, 0x1000, 0, INVALID_FD, 0);
            Inv(c) && Aligned(a) && IsOk(a) && IsRemovable(a) && RemoveStatus(c, a) == OutOfBounds
  {
    InitExact(0x2000, 0x6000);
    FlagsClear();
  }

  lemma FlagsClear()
    ensures 0 & MMAP_INVALID != MMAP_INVALID && 0 & MMAP_NON_REMOVE != MMAP_NON_REMOVE
  {
  }

  lemma RemovableInside(c: Contract, i: nat)
    requires Inv(c) && i < |c.areas| && IsRemovable(c.areas[i])
    ensures 0 < i < |c.areas| - 1
  {
  }

  /** The grown area does not wrap past either end of the address space. */
  predicate NoWrap(a: Area, length: u32) {
    if GrowsDown(a) then length <= a.start else a.end + length < WORD
  }

  /** Without wrap-around the single neighbour test is enough: the expansion is accepted
      exactly when the grown area meets no other area, and keeps the contract sound. */
  lemma ExpandKeeps(c: Contract, i: nat, length: u32)
    requires Inv(c) && i < |c.areas| && IsRemovable(c.areas[i]) && length % PAGE_SIZE == 0 && NoWrap(c.areas[i], length)
    ensures 0 < i < |c.areas| - 1
    ensures ExpandStatus(c, i, length) == Ok <==>
              forall j :: 0 <= j < |c.areas| && j != i ==> !Intersects(c.areas[j], Grown(c.areas[i], length))
    ensures Inv(Expand(c, i, length))
  {
    hide Intersects, Grown;
    var a, g := c.areas[i], Grown(c.areas[i], length);
    RemovableInside(c, i);
    GrownPlain(a, length);
    forall j | 0 <= j < |c.areas| && j != i
      ensures Intersects(c.areas[j], g) <==> !(c.areas[j].end <= g.start || g.end <= c.areas[j].start)
    {
      IntersectsMeans(c.areas[j], g);
    }
    if ExpandStatus(c, i, length) == Ok {
      NeighboursSuffice(c.areas, i, g);
      assert Expand(c, i, length).areas == c.areas[i := g];
    }
  }

  lemma InWord(x: int)
    requires 0 <= x < WORD
    ensures x % WORD == x
  {
  }

  lemma AlignedSum(x: int, y: int)
    requires x % PAGE_SIZE == 0 && y % PAGE_SIZE == 0
    ensures (x + y) % PAGE_SIZE == 0 && (x - y) % PAGE_SIZE == 0
  {
    var i, j := x / PAGE_SIZE, y / PAGE_SIZE;
    assert x == PAGE_SIZE * i && y == PAGE_SIZE * j;
    PageMultiple(x + y, i + j);
    PageMultiple(x - y, i - j);
  }

  lemma PageMultiple(x: int, k: int)
    requires x == PAGE_SIZE * k
    ensures x % PAGE_SIZE == 0
  {
  }

  lemma GrownPlain(a: Area, length: u32)
    requires Aligned(a) && a.start < a.end && length % PAGE_SIZE == 0 && NoWrap(a, length)
    ensures var g := Grown(a, length);
            && Aligned(g) && g.start < g.end
            && g.start == (if GrowsDown(a) then a.start - length else a.start)
            && g.end == (if GrowsDown(a) then a.end else a.end + length)
  {
    if GrowsDown(a) {
      InWord(a.start - length);
      AlignedSum(a.start, length);
    } else {
      InWord(a.end + length);
      AlignedSum(a.end, length);
    }
  }

  /** An area that reaches neither neighbour reaches no other area, and may replace entry `i`. */
  lemma NeighboursSuffice(areas: seq<Area>, i: nat, g: Area)
    requires Sorted(areas) && 0 < i < |areas| - 1 && Aligned(g) && g.start < g.end
    requires areas[i - 1].end <= g.start && g.end <= areas[i + 1].start
    ensures forall j :: 0 <= j < |areas| && j != i ==> areas[j].end <= g.start || g.end <= areas[j].start
    ensures Sorted(areas[i := g])
  {
    var r := areas[i := g];
    forall j | 0 <= j < |areas| && j != i
      ensures if j < i then areas[j].end <= g.start else g.end <= areas[j].start
    {
      if j < i - 1 { assert areas[j].end <= areas[i - 1].start; }
      if j > i + 1 { assert areas[i + 1].end <= areas[j].start; }
    }
    forall x, y | 0 <= x < y < |r| ensures r[x].end <= r[y].start {
      assert x != i && y != i ==> areas[x].end <= areas[y].start;
    }
  }

  /** The grown area has wrapped round but lies inside the old one. */
  predicate WrapsToShrink(a: Area, length: u32) {
    if GrowsDown(a) then length > a.start && a.start - length + WORD < a.end
    else a.end + length - WORD > a.start
  }

  /** The bound does not wrap, or wraps into the old area, or a growing end wraps to exactly 0. */
  predicate ExpandIsSafe(a: Area, length: u32) {
    NoWrap(a, length) || WrapsToShrink(a, length) || (!GrowsDown(a) && a.end + length == WORD)
  }

  /** What a wrapped expansion does.  It is refused only when a growing end becomes exactly 0;
      otherwise it is accepted, and it leaves the contract sound only when the wrapped bound
      falls inside the old area, which then shrinks. */
  lemma ExpandExact(c: Contract, i: nat, length: u32)
    requires Inv(c) && i < |c.areas| && IsRemovable(c.areas[i]) && length % PAGE_SIZE == 0
    ensures 0 < i < |c.areas| - 1
    ensures Inv(Expand(c, i, length)) <==> ExpandIsSafe(c.areas[i], length)
  {
    RemovableInside(c, i);
    var a, g := c.areas[i], Grown(c.areas[i], length);
    if NoWrap(a, length) {
      ExpandKeeps(c, i, length);
    } else {
      var adj := c.areas[if GrowsDown(a) then i - 1 else i + 1];
      assert if GrowsDown(a) then adj.end <= a.start else a.end <= adj.start;
      WrappedBounds(a, length);
      AlignedExtent(adj);
      AlignedExtent(g);
      if GrowsDown(a) || g.end != 0 {
        assert !Intersects(adj, g);
        assert Expand(c, i, length).areas[i] == g;
        if g.start < g.end { ShrunkKeeps(c, i, g); }
      }
    }
  }

  lemma WrappedBounds(a: Area, length: u32)
    requires Aligned(a) && length % PAGE_SIZE == 0 && !NoWrap(a, length)
    ensures Aligned(Grown(a, length))
    ensures if GrowsDown(a) then Grown(a, length).start == a.start - length + WORD
              else Grown(a, length).end == a.end + length - WORD
  {
  }

  lemma ShrunkKeeps(c: Contract, i: nat, g: Area)
    requires Inv(c) && 0 < i < |c.areas| - 1 && Aligned(g)
    requires c.areas[i].start <= g.start < g.end <= c.areas[i].end
    ensures Inv(c.(areas := c.areas[i := g]))
  {
    var r := c.areas[i := g];
    forall x, y | 0 <= x < y < |r| ensures r[x].end <= r[y].start {
      assert c.areas[x].end <= c.areas[y].start;
    }
  }

  /** `y` is the sum or difference `x` in 32-bit arithmetic. */
  predicate Wraps(x: int, y: u32) {
    y == x || y == x - WORD || y == x + WORD
  }

  /** An expansion that is accepted moves one bound of one area, down or up as the area grows, by
      the length; nothing else of any area changes, and a refused one changes nothing. */
  lemma ExpandEffect(c: Contract, i: nat, length: u32)
    requires Inv(c) && i < |c.areas| && IsRemovable(c.areas[i])
    ensures 0 < i < |c.areas| - 1
    ensures ExpandStatus(c, i, length) in {Ok, Overlaps, Unaligned}
    ensures ExpandStatus(c, i, length) == Unaligned <==> length % PAGE_SIZE != 0
    ensures ExpandStatus(c, i, length) != Ok ==> Expand(c, i, length) == c
    ensures ExpandStatus(c, i, length) == Ok ==>
              var r, a := Expand(c, i, length), c.areas[i];
              && r.low == c.low && r.high == c.high && |r.areas| == |c.areas|
              && (forall j :: 0 <= j < |c.areas| && j != i ==> r.areas[j] == c.areas[j])
              && var b := r.areas[i];
                 && b.flags == a.flags && b.fd == a.fd && b.offset == a.offset
                 && if GrowsDown(a) then b.end == a.end && Wraps(a.start - length, b.start)
                    else b.start == a.start && Wraps(a.end + length, b.end)
  {
    hide Inv, Intersects;
    RemovableInside(c, i);
  }

  /** Expanding an area that is the caller's own copy: the contract's area of that start is looked
      up for its neighbour, which the guards do not have on both sides. */
  ghost function ExpandCopyStatus(c: Contract, a: Area, length: u32): Status {
    if !IsRemovable(a) then BadArguments
    else if length % PAGE_SIZE != 0 then Unaligned
    else if c.areas == [] || a.start < c.areas[0].start then OutOfBounds
    else if !StartsAt(c.areas, a.start) then NotFound
    else
      var i := IndexOfStart(c.areas, a.start);
      if (if GrowsDown(a) then i == 0 else i + 1 == |c.areas|) then OutOfBounds
      else if Intersects(c.areas[if GrowsDown(a) then i - 1 else i + 1], Grown(a, length)) then Overlaps
      else Ok
  }

  predicate CopyInside(c: Contract, a: Area) {
    c.low <= a.start && if GrowsDown(a) then a.start != c.low else a.start != c.high - PAGE_SIZE
  }

  /** The accesses stay in the array exactly when the copy starts in the contract and not at the
      guard that lies in the direction of growth; copies of the contract's areas never do. */
  lemma ExpandCopyExact(c: Contract, a: Area, length: u32)
    requires Inv(c)
    ensures ExpandCopyStatus(c, a, length) != OutOfBounds <==>
              (IsRemovable(a) && length % PAGE_SIZE == 0 ==> CopyInside(c, a))
    ensures a in c.areas && IsRemovable(a) ==> CopyInside(c, a)
  {
    assert |c.areas| >= 2;
    hide Inv, Intersects, Grown;
    GuardStarts(c, 0);
    GuardStarts(c, |c.areas| - 1);
    if StartsAt(c.areas, a.start) { GuardStarts(c, IndexOfStart(c.areas, a.start)); }
    RemoveExact(c, a);
  }

  /** A copy of a stored area is answered as the area itself would be; any other is not found
      unless an area starts there, and then the neighbour of that one decides. */
  lemma ExpandCopyAnswers(c: Contract, a: Area, length: u32)
    requires Inv(c) && IsRemovable(a) && length % PAGE_SIZE == 0 && CopyInside(c, a)
    ensures ExpandCopyStatus(c, a, length) == NotFound <==> !StartsAt(c.areas, a.start)
    ensures forall i :: 0 <= i < |c.areas| && c.areas[i].start == a.start ==>
              && 0 <= (if GrowsDown(a) then i - 1 else i + 1) < |c.areas|
              && ExpandCopyStatus(c, a, length) ==
                   if Intersects(c.areas[if GrowsDown(a) then i - 1 else i + 1], Grown(a, length)) then Overlaps else Ok
    ensures forall i :: 0 <= i < |c.areas| && c.areas[i] == a ==>
              0 < i < |c.areas| - 1 && ExpandCopyStatus(c, a, length) == ExpandStatus(c, i, length)
  {
    assert |c.areas| >= 2;
    hide Inv, Intersects, Grown;
    GuardStarts(c, 0);
    forall i | 0 <= i < |c.areas| && c.areas[i].start == a.start
      ensures IndexOfStart(c.areas, a.start) == i && 0 <= (if GrowsDown(a) then i - 1 else i + 1) < |c.areas|
      ensures c.areas[i] == a ==> 0 < i < |c.areas| - 1
    {
      GuardStarts(c, i);
      StartOnce(c, IndexOfStart(c.areas, a.start), i);
      if c.areas[i] == a { RemovableInside(c, i); }
    }
  }

  lemma StartOnce(c: Contract, i: nat, j: nat)
    requires Inv(c) && i < |c.areas| && j < |c.areas| && c.areas[i].start == c.areas[j].start
    ensures i == j
  {
    SortedStarts(c.areas, i, j);
  }

  // ----- lookup

  lemma {:induction false} ScanFinds(areas: seq<Area>, address: int, i: nat)
    requires Sorted(areas) && i < |areas| && Contains(areas[i], address)
    ensures Scan(areas, address) == Some(i)
    decreases |areas|
  {
    var n := |areas| - 1;
    if i < n {
      assert areas[i].end <= areas[n].start;
      ScanFinds(areas[..n], address, i);
    }
  }

  lemma {:induction false} ScanMisses(areas: seq<Area>, address: int)
    requires forall i :: 0 <= i < |areas| ==> !Contains(areas[i], address)
    ensures Scan(areas, address) == None
    decreases |areas|
  {
    if areas != [] { ScanMisses(areas[..|areas| - 1], address); }
  }

  /** The scan answers with the one area that contains the address, and with none exactly
      when no area does. */
  lemma ScanExact(c: Contract, address: u32)
    requires Inv(c)
    ensures match Scan(c.areas, address)
            case Some(i) => i < |c.areas| && Contains(c.areas[i], address) &&
                            forall j :: 0 <= j < |c.areas| && Contains(c.areas[j], address) ==> j == i
            case None => forall j :: 0 <= j < |c.areas| ==> !Contains(c.areas[j], address)
  {
    if i :| 0 <= i < |c.areas| && Contains(c.areas[i], address) {
      ScanFinds(c.areas, address, i);
      forall j | 0 <= j < |c.areas| && Contains(c.areas[j], address) ensures j == i {
        ScanFinds(c.areas, address, j);
      }
    } else {
      ScanMisses(c.areas, address);
    }
  }

  /** So does a lookup, at every address. */
  lemma FindExact(c: Contract, address: u32)
    requires Inv(c)
    ensures match Find(c, address)
            case Some(i) => i < |c.areas| && Contains(c.areas[i], address)
            case None => forall j :: 0 <= j < |c.areas| ==> !Contains(c.areas[j], address)
    ensures forall i :: 0 <= i < |c.areas| && Contains(c.areas[i], address) ==> Find(c, address) == Some(i)
  {
    ScanExact(c, address);
    if i :| 0 <= i < |c.areas| && Contains(c.areas[i], address) { InBounds(c, i); }
  }

  lemma InBounds(c: Contract, i: nat)
    requires Inv(c) && i < |c.areas|
    ensures c.low <= c.areas[i].start && c.areas[i].end <= c.high
  {
    var n := |c.areas|;
    assert i > 0 ==> c.areas[0].end <= c.areas[i].start;
    assert i < n - 1 ==> c.areas[i].end <= c.areas[n - 1].start;
  }

  // ----- free space

  /** The first gap, from gap `i` on, that holds `length` bytes; 0 when none does. */
  function GapFrom(c: Contract, length: nat, i: nat): nat
    requires i < |c.areas|
    decreases |c.areas| - i
  {
    if i == |c.areas| - 1 then 0
    else if c.areas[i + 1].start - c.areas[i].end >= length then c.areas[i].end
    else GapFrom(c, length, i + 1)
  }

  lemma {:induction false} GapFromExact(c: Contract, length: nat, i: nat)
    requires Inv(c) && length > 0 && i < |c.areas|
    ensures var r := GapFrom(c, length, i);
            && (r != 0 ==> Free(c, r, length) && forall x :: c.areas[i].end <= x < r ==> !Free(c, x, length))
            && (r == 0 ==> forall x :: c.areas[i].end <= x ==> !Free(c, x, length))
    decreases |c.areas| - i
  {
    var n := |c.areas|;
    if i == n - 1 {
    } else {
      if c.areas[i + 1].start - c.areas[i].end >= length {
        WideGapIsFree(c, length, i);
      } else {
        NarrowGapIsNot(c, length, i);
        hide Inv, Free;
        GapFromExact(c, length, i + 1);
      }
    }
  }

  lemma WideGapIsFree(c: Contract, length: nat, i: nat)
    requires Inv(c) && length > 0 && i + 1 < |c.areas| && c.areas[i].end + length <= c.areas[i + 1].start
    ensures Free(c, c.areas[i].end, length) && c.areas[i].end != 0
  {
    var n := |c.areas|;
    forall j | 0 <= j < n ensures c.areas[i].end + length <= c.areas[j].start || c.areas[j].end <= c.areas[i].end {
      if j < i { assert c.areas[j].end <= c.areas[i].start; }
      if j > i + 1 { assert c.areas[i + 1].end <= c.areas[j].start; }
    }
    assert c.areas[0].start <= c.areas[i].start by { if i > 0 { assert c.areas[0].end <= c.areas[i].start; } }
    assert c.areas[i + 1].start <= c.areas[n - 1].start by { SortedStarts(c.areas, i + 1, n - 1); }
  }

  lemma NarrowGapIsNot(c: Contract, length: nat, i: nat)
    requires Inv(c) && length > 0 && i + 1 < |c.areas| && c.areas[i].end + length > c.areas[i + 1].start
    ensures c.areas[i].end <= c.areas[i + 1].start
              && forall x :: c.areas[i].end <= x < c.areas[i + 1].end ==> !Free(c, x, length)
  {
  }

  /** The answer is the lowest address at which `length` bytes fit between areas, and 0
      exactly when they fit nowhere. */
  lemma GapExact(c: Contract, length: nat)
    requires Inv(c) && length > 0
    ensures var r := GapFrom(c, length, 0);
            && (r != 0 <==> exists x :: Free(c, x, length))
            && (r != 0 ==> Free(c, r, length) && forall x :: Free(c, x, length) ==> r <= x)
  {
    GapFromExact(c, length, 0);
    var r := GapFrom(c, length, 0);
    forall x | Free(c, x, length) ensures c.areas[0].end <= x {
      assert c.areas[0].start == c.low;
      assert x + length <= c.areas[0].start || c.areas[0].end <= x;
    }
  }

  /** An area created where the gap search pointed is always accepted. */
  lemma GapCanBeAdded(c: Contract, length: u32, flags: bv32, fd: u32, offset: u32)
    requires Inv(c) && length > 0 && length % PAGE_SIZE == 0 && flags & MMAP_INVALID != MMAP_INVALID
    requires GapFrom(c, length, 0) != 0
    ensures var r := GapFrom(c, length, 0);
            r + length < WORD &&
            var a := Create(r, r + length, flags, fd, offset);
            IsOk(a) && a.start == r && a.end == r + length && AddStatus(c, a) == Ok
  {
    hide GapFrom;
    GapExact(c, length);
    var r := GapFrom(c, length, 0);
    GapIsAnEnd(c, length, 0);
    var a := Create(r, r + length, flags, fd, offset);
    FreeMeetsNone(c, a);
  }

  lemma FreeMeetsNone(c: Contract, a: Area)
    requires Inv(c) && a.start < a.end && Free(c, a.start, a.end - a.start)
    ensures !StartsAt(c.areas, a.start) && !Meets(c.areas, a) && c.low <= a.start && a.end <= c.high
  {
  }

  lemma {:induction false} GapIsAnEnd(c: Contract, length: nat, i: nat)
    requires Inv(c) && i < |c.areas| && GapFrom(c, length, i) != 0
    ensures GapFrom(c, length, i) % PAGE_SIZE == 0
    decreases |c.areas| - i
  {
    if i < |c.areas| - 1 && c.areas[i + 1].start - c.areas[i].end < length { GapIsAnEnd(c, length, i + 1); }
  }

  // ----- runs

  datatype Op = AddOp(a: Area) | RemoveOp(a: Area) | ExpandOp(i: nat, length: u32)

  /** Areas to add come from Create; removals are safe ones, as those of entries of the contract
      are; expansions name entries and do not wrap. */
  ghost predicate Legal(c: Contract, op: Op) {
    match op
    case AddOp(a) => Aligned(a)
    case RemoveOp(a) => RemoveIsSafe(c, a)
    case ExpandOp(i, length) =>
        i < |c.areas| && length % PAGE_SIZE == 0 && (IsRemovable(c.areas[i]) ==> ExpandIsSafe(c.areas[i], length))
  }

  ghost function Apply(c: Contract, op: Op): Contract
    requires Inv(c) && Legal(c, op)
  {
    match op
    case AddOp(a) => Add(c, a)
    case RemoveOp(a) => Remove(c, a)
    case ExpandOp(i, length) => if IsRemovable(c.areas[i]) then Expand(c, i, length) else c
  }

  ghost predicate IsRun(cs: seq<Contract>, ops: seq<Op>) {
    && |cs| == |ops| + 1
    && forall k :: 0 <= k < |ops| ==> Legal(cs[k], ops[k]) && (Inv(cs[k]) ==> cs[k + 1] == Apply(cs[k], ops[k]))
  }

  /** Every run keeps the areas sorted, disjoint, in range and between the two guards. */
  lemma {:induction false} RunKeepsContract(cs: seq<Contract>, ops: seq<Op>)
    requires IsRun(cs, ops) && Inv(cs[0])
    ensures forall k :: 0 <= k <= |ops| ==> Inv(cs[k]) && cs[k].low == cs[0].low && cs[k].high == cs[0].high
    decreases |ops|
  {
    hide Inv;
    if ops != [] {
      var n := |ops| - 1;
      RunKeepsContract(cs[..n + 1], ops[..n]);
      assert forall k :: 0 <= k <= n ==> cs[..n + 1][k] == cs[k];
      match ops[n]
      case AddOp(a) => AddKeeps(cs[n], a);
      case RemoveOp(a) => RemoveExact(cs[n], a);
      case ExpandOp(i, length) => if IsRemovable(cs[n].areas[i]) { ExpandExact(cs[n], i, length); }
    }
  }
}
