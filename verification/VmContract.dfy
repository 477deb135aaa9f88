/** The contract as the code keeps it: a sorted vector searched by halving (MeOS/vm_contract.cpp). */
module VmContract {
  import opened Options
  import opened VmArea
  import opened Spec = VmContractSpec
  import opened OrderedVector

  lemma StrictlySortedStarts(areas: seq<Area>)
    requires Sorted(areas)
    ensures StrictlySorted(areas)
  {
    forall i, j | 0 <= i < j < |areas| ensures areas[i].start < areas[j].start {
      SortedStarts(areas, i, j);
    }
  }

  /** Page-sized disjoint areas: no contract has more than 2^20 of them. */
  lemma {:induction false} CountBound(areas: seq<Area>, high: nat)
    requires Sorted(areas) && (areas != [] ==> areas[|areas| - 1].end <= high)
    ensures |areas| * PAGE_SIZE <= high
    decreases |areas|
  {
    if areas != [] {
      var n := |areas| - 1;
      assert areas[n].end - areas[n].start >= PAGE_SIZE by {
        assert areas[n].start == PAGE_SIZE * (areas[n].start / PAGE_SIZE)
            && areas[n].end == PAGE_SIZE * (areas[n].end / PAGE_SIZE);
      }
      CountBound(areas[..n], areas[n].start);
    }
  }

  /** The areas just before and just after the new start decide the intersection test. */
  lemma NeighboursDecide(c: Contract, a: Area, last: nat)
    requires Inv(c) && Aligned(a) && IsOk(a) && c.low <= a.start && a.end <= c.high
    requires last + 1 < |c.areas| && c.areas[last].start < a.start < c.areas[last + 1].start
    ensures AddStatus(c, a) == if Intersects(c.areas[last], a) || Intersects(c.areas[last + 1], a) then Overlaps else Ok
  {
    IntersectsMeans(c.areas[last], a);
    IntersectsMeans(c.areas[last + 1], a);
    forall i | 0 <= i < |c.areas| ensures c.areas[i].start != a.start {
      SortedStarts(c.areas, i, last);
      SortedStarts(c.areas, i, last + 1);
    }
    hide Intersects, IsOk;
    assert forall i :: 0 <= i < last ==> c.areas[i].end <= c.areas[last].start;
    assert forall i :: last + 1 < i < |c.areas| ==> c.areas[last + 1].end <= c.areas[i].start;
  }

  class VmContract {
    const vec: Vector
    var lowest: u32
    var highest: u32

    ghost predicate Valid()
      reads this, vec, vec.data
    {
      vec.Valid() && Inv(Abs())
    }

    ghost function Abs(): Contract
      requires vec.Valid()
      reads this, vec, vec.data
    {
      Contract(vec.Contents(), lowest, highest)
    }

    lemma Facts()
      requires Valid()
      ensures 2 <= vec.count < 0x8000_0000 && StrictlySorted(vec.Contents())
      ensures vec.data[0].start == lowest && Sorted(vec.data[..vec.count])
      ensures vec.data[vec.count - 1].start == highest - PAGE_SIZE && highest % PAGE_SIZE == 0
    {
      StrictlySortedStarts(vec.Contents());
      CountBound(vec.Contents(), highest);
      assert vec.data[0] == vec.Contents()[0];
      assert vec.data[vec.count - 1] == vec.Contents()[vec.count - 1];
    }

    /** vm_contract_init, for the ranges it accepts. */
    constructor (low: u32, high: u32)
      requires Init(low, high).Some?
      ensures fresh(vec) && fresh(vec.data) && vec.Valid() && Abs() == Init(low, high).value
      ensures Valid() <==> low + 2 * PAGE_SIZE <= high
    {
      vec := new Vector();
      lowest, highest := low, high;
      new;
      vec.Insert(Guard(low));
      assert vec.Contents() == [Guard(low)];
      vec.Insert(Guard(high - PAGE_SIZE));
      InitExact(low, high);
    }

    method AddArea(a: Area) returns (status: Option<Status>)
      requires Valid() && Aligned(a)
      modifies vec, vec.data
      ensures Valid() && (vec.data == old(vec.data) || fresh(vec.data))
      ensures status == Some(old(AddStatus(Abs(), a))) && Abs() == old(Add(Abs(), a))
    {
      hide Inv, Intersects, Sorted, StrictlySorted, Spec.Insert;
      ghost var c := Abs();
      Facts();
      AlignedExtent(a);
      if !IsOk(a) { return Some(BadArguments); }
      if a.start < lowest || EndAddress(a) >= highest { return Some(BadArguments); }
      var r := BinarySearch(vec.data, vec.count, a.start);
      if r.Hit? {
        assert vec.Contents()[r.index].start == a.start;
        return Some(AreaExists);
      }
      status := None;  // stands for the panics below
      if r.Miss? && r.last + 1 < vec.count {
        var last := r.last;
        NeighboursDecide(c, a, last);
        if !Intersects(vec.data[last], a) && !Intersects(vec.data[last + 1], a) {
          AddKeeps(c, a);
          vec.Insert(a);
          status := Some(Ok);
        } else {
          status := Some(Overlaps);
        }
      }
    }

    /** vm_contract_remove_area for any area; OutOfBounds when the search leaves the array. */
    method RemoveArea(a: Area) returns (status: Status)
      requires Valid()
      modifies vec, vec.data
      ensures vec.Valid() && vec.data == old(vec.data)
      ensures status == old(RemoveStatus(Abs(), a)) && Abs() == old(Remove(Abs(), a))
      ensures status != Status.OutOfBounds && Valid() <==> old(RemoveIsSafe(Abs(), a))
    {
      hide Inv, Sorted, StrictlySorted;
      Facts();
      RemoveExact(Abs(), a);
      if !IsRemovable(a) { return NonRemovable; }
      var index := vec.Find(a);
      assert vec.data[0] == vec.Contents()[0];
      if index.None? { return Status.OutOfBounds; }
      if index.value < vec.count {
        assert vec.Contents()[index.value].start == a.start;
        SortedStarts(vec.Contents(), index.value, IndexOfStart(vec.Contents(), a.start));
      }
      var removed := vec.Remove(index.value);
      if !removed { return NotFound; }
      return Status.Ok;
    }

    lemma FirstIsLowest(a: Area)
      requires Valid() && a in Abs().areas
      ensures vec.count > 0 && vec.data[0].start <= a.start
    {
      var j :| 0 <= j < |Abs().areas| && Abs().areas[j] == a;
      SortedStarts(Abs().areas, 0, j);
      assert vec.data[0] == Abs().areas[0];
    }

    /** Expanding the stored area `i` by any length, wrapping ones included. */
    method ExpandArea(i: nat, length: u32) returns (status: Status)
      requires Valid() && i < vec.count
      modifies vec.data
      ensures vec.Valid() && vec.data == old(vec.data)
      ensures Valid() <==>
                old(IsRemovable(vec.data[i]) && length % PAGE_SIZE == 0 ==> ExpandIsSafe(vec.data[i], length))
      ensures i < |old(Abs()).areas| && (IsRemovable(old(vec.data[i])) ==> 0 < i < |old(Abs()).areas| - 1)
      ensures status == ExpandStatus(old(Abs()), i, length) && Abs() == Expand(old(Abs()), i, length)
    {
      hide Inv, Intersects, Grown, Sorted, StrictlySorted, NoWrap, WrapsToShrink;
      ghost var c := Abs();
      Facts();
      var area := vec.data[i];
      assert area == c.areas[i];
      if !IsRemovable(area) { return BadArguments; }
      RemovableInside(c, i);
      if length % PAGE_SIZE != 0 { return Unaligned; }
      FirstIsLowest(area);
      var found := vec.Find(area);
      var index := found.value;
      SameIndex(c.areas, i, index);
      if index >= vec.count { status := NotFound; }
      var temp := Grown(area, length);
      var adjacent := vec.data[if GrowsDown(area) then index - 1 else index + 1];
      ExpandExact(c, i, length);
      if Intersects(adjacent, temp) { return Overlaps; }
      Replace(i, temp);
      return Ok;
    }

    /** Expanding an area outside the contract, one that is there no more, say: the contract stays
        as it is and the caller's copy grows. */
    method ExpandCopy(a: Area, length: u32) returns (status: Status, b: Area)
      requires Valid()
      ensures status == ExpandCopyStatus(Abs(), a, length)
      ensures b == if status == Status.Ok then Grown(a, length) else a
      ensures status != Status.OutOfBounds <==>
                (IsRemovable(a) && length % PAGE_SIZE == 0 ==> CopyInside(Abs(), a))
    {
      hide Inv, Intersects, Grown, Sorted, StrictlySorted;
      ghost var c := Abs();
      Facts();
      ExpandCopyExact(c, a, length);
      b := a;
      if !IsRemovable(a) { return BadArguments, a; }
      if length % PAGE_SIZE != 0 { return Unaligned, a; }
      var found := vec.Find(a);
      assert vec.data[0] == vec.Contents()[0];
      if found.None? { return Status.OutOfBounds, a; }
      var index := found.value;
      if index >= vec.count { return NotFound, a; }
      assert vec.Contents()[index].start == a.start;
      SortedStarts(vec.Contents(), index, IndexOfStart(vec.Contents(), a.start));
      if (if GrowsDown(a) then index == 0 else index + 1 == vec.count) { return Status.OutOfBounds, a; }
      var adjacent := vec.data[if GrowsDown(a) then index - 1 else index + 1];
      assert adjacent == vec.Contents()[if GrowsDown(a) then index - 1 else index + 1];
      if Intersects(adjacent, Grown(a, length)) { return Overlaps, a; }
      return Status.Ok, Grown(a, length);
    }

    /** *area = temp */
    method Replace(i: nat, a: Area)
      requires vec.Valid() && i < vec.count
      modifies vec.data
      ensures vec.Valid() && vec.data == old(vec.data) && Abs() == old(Abs()).(areas := old(vec.Contents())[i := a])
    {
      vec.data[i] := a;
      assert vec.Contents() == old(vec.Contents())[i := a];
    }

    static lemma SameIndex(areas: seq<Area>, i: nat, index: nat)
      requires Sorted(areas) && i < |areas|
      requires index < |areas| ==> areas[index].start == areas[i].start
      requires index >= |areas| ==> !StartsAt(areas, areas[i].start)
      ensures index == i
    {
      if index < |areas| { SortedStarts(areas, index, i); }
    }

    method FindArea(address: u32) returns (index: Option<nat>)
      requires Valid()
      ensures index == Find(Abs(), address)
      ensures match index
              case Some(i) => i < vec.count && Contains(vec.data[i], address)
              case None => forall j :: 0 <= j < vec.count ==> !Contains(vec.data[j], address)
    {
      hide Inv, Find, Scan;
      FindExact(Abs(), address);
      index := Search(address);
      assert vec.Contents() == vec.data[..vec.count];
    }

    /** The body of vm_contract_find_area. */
    method Search(address: u32) returns (index: Option<nat>)
      requires Valid()
      ensures index == Find(Abs(), address)
    {
      hide Inv;
      if vec.count == 0 || address < lowest || address >= highest { return None; }
      Facts();
      ScanExact(Abs(), address);
      var r := BinarySearch(vec.data, vec.count, address);
      index := None;
      if r.Hit? {
        assert Contains(vec.Contents()[r.index], address);
        index := Some(r.index);
      } else if r.Miss? {
        var a := vec.data[r.last];
        assert a == vec.Contents()[r.last];
        AlignedExtent(a);
        if address <= EndAddress(a) {
          assert Contains(vec.Contents()[r.last], address);
          index := Some(r.last);
        } else {
          NotContained(vec.Contents(), r.last, address);
        }
      }
    }

    static lemma NotContained(areas: seq<Area>, last: nat, address: u32)
      requires Sorted(areas) && last < |areas| && areas[last].end <= address
      requires forall i :: last < i < |areas| ==> address < areas[i].start
      ensures Scan(areas, address) == None
    {
      forall i | 0 <= i < |areas| ensures !Contains(areas[i], address) {
        if i < last { assert areas[i].end <= areas[last].start; }
      }
      ScanMisses(areas, address);
    }

    method GetAreaForLength(length: u32) returns (r: u32)
      requires Valid()
      ensures r == GapFrom(Abs(), length, 0)
    {
      hide GapFrom;
      Facts();
      ghost var c := Abs();
      for i := 0 to vec.count - 1
        invariant GapFrom(c, length, 0) == GapFrom(c, length, i)
      {
        assert vec.data[i] == c.areas[i] && vec.data[i + 1] == c.areas[i + 1];
        GapStep(c, length, i);
        var start, end := StartAddress(vec.data[i + 1]), (EndAddress(vec.data[i]) + 1) % WORD;
        if (start - end) % WORD >= length { return end; }
      }
      GapEnd(c, length);
      return 0;
    }

    /** One comparison of the gap search, in the code's 32-bit arithmetic. */
    static lemma GapStep(c: Contract, length: u32, i: nat)
      requires Inv(c) && i + 1 < |c.areas|
      ensures var start, end := StartAddress(c.areas[i + 1]), (EndAddress(c.areas[i]) + 1) % WORD;
              GapFrom(c, length, i) == if (start - end) % WORD >= length then end else GapFrom(c, length, i + 1)
    {
      hide StartAddress, EndAddress;
      AlignedExtent(c.areas[i]);
      AlignedExtent(c.areas[i + 1]);
      assert c.areas[i].end <= c.areas[i + 1].start;
    }

    static lemma GapEnd(c: Contract, length: u32)
      requires c.areas != []
      ensures GapFrom(c, length, |c.areas| - 1) == 0
    {
    }
  }
}
