/** The growable sorted array of areas (MeOS/ordered_vector.h, instantiated with vm_area),
    and the binary search that ordered_vector_find and the contract's own loops share. */
module OrderedVector {
  import opened Options
  import opened VmArea
  import Spec = VmContractSpec

  /** `OutOfBounds`: the loop was about to read this index, which is behind the array. */
  datatype Search = Hit(index: nat) | Miss(last: nat) | OutOfBounds(at: nat)

  ghost predicate StrictlySorted(s: seq<Area>) {
    forall i, j :: 0 <= i < j < |s| ==> s[i].start < s[j].start
  }

  lemma Below(s: seq<Area>, mid: nat)
    requires StrictlySorted(s) && mid < |s|
    ensures forall i :: 0 <= i < mid ==> s[i].start < s[mid].start
    ensures forall i :: mid < i < |s| ==> s[mid].start < s[i].start
  {
  }

  /** n - 1 in uint32. */
  function Decremented(n: u32): (r: u32)
    ensures r == if n == 0 then WORD - 1 else n - 1
  {
    (n - 1) % WORD
  }

  /** (first + last) / 2 in uint32. */
  function Middle(first: u32, last: u32): (r: u32)
    ensures first + last < WORD ==> r == (first + last) / 2
  {
    (first + last) % WORD / 2
  }

  /** Everything before `first` starts below the target, everything behind `last` above it. */
  ghost predicate Brackets(s: seq<Area>, first: u32, last: u32, target: u32) {
    && (if last >= |s| then first == 0 && last == WORD - 1 && (s == [] || target < s[0].start) else first <= last + 1)
    && (forall i :: 0 <= i < first && i < |s| ==> s[i].start < target)
    && (last < |s| ==> forall i :: last < i < |s| ==> target < s[i].start)
  }

  /** Binary search in uint32 arithmetic, where `last = mid - 1` wraps at mid = 0.  The search
      leaves the array exactly when there is nothing at or below the target to stop it. */
  method BinarySearch(data: array<Area>, count: nat, target: u32) returns (r: Search)
    requires count <= data.Length && count < 0x8000_0000 && StrictlySorted(data[..count])
    ensures r.OutOfBounds? <==> count == 0 || target < data[0].start
    ensures r.OutOfBounds? ==> r.at == 0x7FFF_FFFF
    ensures r.Hit? ==> r.index < count && data[r.index].start == target
    ensures r.Miss? ==> r.last < count && data[r.last].start < target &&
                        forall i :: r.last < i < count ==> target < data[i].start
  {
    hide Brackets, StrictlySorted, Middle, Decremented;
    ghost var s := data[..count];
    var first: u32, last: u32 := 0, (count - 1) % WORD;
    Started(s, last, target);
    while first <= last
      invariant data[..count] == s && Brackets(s, first, last, target)
      decreases Width(s, first, last)
    {
      var mid := Middle(first, last);
      Halved(s, first, last, target);
      if mid >= count { return OutOfBounds(mid); }
      assert data[mid] == s[mid];
      if data[mid].start < target {
        first := mid + 1;
      } else if data[mid].start > target {
        last := Decremented(mid);
      } else {
        Below(s, mid);
        assert s[0].start <= target;
        return Hit(mid);
      }
    }
    Closed(s, first, last, target);
    assert forall i :: 0 <= i < count ==> data[i] == s[i];
    return Miss(last);
  }

  /** What is left to search. */
  ghost function Width(s: seq<Area>, first: u32, last: u32): int {
    if last >= |s| then 0 else 2 + last - first
  }

  lemma Started(s: seq<Area>, last: u32, target: u32)
    requires StrictlySorted(s) && |s| < 0x8000_0000 && last == (|s| - 1) % WORD
    ensures Brackets(s, 0, last, target)
  {
    assert last == if s == [] then WORD - 1 else |s| - 1;
  }

  /** One comparison: the middle is inside the array, or nothing is at or below the target. */
  lemma Halved(s: seq<Area>, first: u32, last: u32, target: u32)
    requires StrictlySorted(s) && |s| < 0x8000_0000 && Brackets(s, first, last, target) && first <= last
    ensures var mid := Middle(first, last);
            if mid >= |s| then mid == 0x7FFF_FFFF && (s == [] || target < s[0].start)
            else
              && (s[mid].start < target ==>
                  Brackets(s, mid + 1, last, target) && 0 <= Width(s, mid + 1, last) < Width(s, first, last))
              && (s[mid].start > target ==>
                  Brackets(s, first, Decremented(mid), target)
                  && 0 <= Width(s, first, Decremented(mid)) < Width(s, first, last))
  {
    if last < |s| {
      var mid := Middle(first, last);
      assert first <= mid <= last;
      Below(s, mid);
      hide StrictlySorted;
    }
  }

  lemma Closed(s: seq<Area>, first: u32, last: u32, target: u32)
    requires Brackets(s, first, last, target) && first > last
    ensures last < |s| && s[last].start < target
    ensures forall i :: last < i < |s| ==> target < s[i].start
    ensures s[0].start < target
  {
  }

  class Vector {
    var data: array<Area>
    var count: nat
    var rSize: nat

    ghost predicate Valid()
      reads this
    {
      data.Length == rSize && count <= rSize && rSize > 0
    }

    ghost function Contents(): seq<Area>
      requires Valid()
      reads this, data
    {
      data[..count]
    }

    constructor ()
      ensures Valid() && fresh(data) && Contents() == []
    {
      count, rSize := 0, 1;
      data := new Area[1](_ => BadArea);
    }

    /** realloc to a larger array; the elements move along. */
    method Reserve(n: nat)
      requires Valid() && count < n
      modifies this`data, this`rSize
      ensures Valid() && fresh(data) && rSize == n && Contents() == old(Contents())
    {
      var bigger := new Area[n](_ => BadArea);
      for i := 0 to count
        invariant data == old(data) && count <= data.Length && bigger[..i] == data[..i]
      {
        bigger[i] := data[i];
      }
      data, rSize := bigger, n;
    }

    method Insert(a: Area)
      requires Valid()
      modifies this, data
      ensures Valid() && (data == old(data) || fresh(data)) && Contents() == Spec.Insert(old(Contents()), a)
    {
      ghost var s := Contents();
      if count == rSize { Reserve(2 * count); }
      var i := ShiftBehind(a);
      data[i] := a;
      count := count + 1;
      InsertedContents(data[..count], s, i, a);
    }

    /** The insertion loop: make room behind every element that does not start after `a`. */
    method ShiftBehind(a: Area) returns (i: nat)
      requires Valid() && count < rSize
      modifies data
      ensures i <= count && Spec.Insert(old(Contents()), a) == old(Contents())[..i] + [a] + old(Contents())[i..]
      ensures forall t :: 0 <= t < i ==> data[t] == old(Contents())[t]
      ensures forall t :: i < t <= count ==> data[t] == old(Contents())[t - 1]
    {
      hide Spec.Insert;
      ghost var s := Contents();
      i := count;
      while i > 0 && a.start < data[i - 1].start
        invariant i <= count == |s|
        invariant forall t :: 0 <= t < i ==> data[t] == s[t]
        invariant forall t :: i < t <= count ==> data[t] == s[t - 1]
        invariant forall t :: i <= t < |s| ==> a.start < s[t].start
      {
        data[i] := data[i - 1];
        i := i - 1;
      }
      InsertsAt(s, i, a);
    }

    static lemma InsertsAt(s: seq<Area>, i: nat, a: Area)
      requires i <= |s| && (forall t :: i <= t < |s| ==> a.start < s[t].start)
      requires i > 0 ==> !(a.start < s[i - 1].start)
      ensures Spec.Insert(s, a) == s[..i] + [a] + s[i..]
    {
      hide Spec.Insert;
      var k := |s|;
      assert s[..k] == s && s[k..] == [];
      while k > i
        invariant i <= k <= |s| && Spec.Insert(s, a) == Spec.Insert(s[..k], a) + s[k..]
      {
        InsertPasses(s, k, a);
        k := k - 1;
      }
      InsertStops(s, i, a);
    }

    static lemma InsertedContents(r: seq<Area>, s: seq<Area>, i: nat, a: Area)
      requires i <= |s| && |r| == |s| + 1 && r[i] == a
      requires forall t :: 0 <= t < i ==> r[t] == s[t]
      requires forall t :: i < t < |r| ==> r[t] == s[t - 1]
      ensures r == s[..i] + [a] + s[i..]
    {
      var w := s[..i] + [a] + s[i..];
      forall t | 0 <= t < |r| ensures r[t] == w[t] {
        assert t > i ==> r[t] == s[t - 1];
      }
    }

    /** One comparison of the insertion loop. */
    static lemma InsertPasses(s: seq<Area>, i: nat, a: Area)
      requires 0 < i <= |s| && a.start < s[i - 1].start
      ensures Spec.Insert(s[..i], a) + s[i..] == Spec.Insert(s[..i - 1], a) + s[i - 1..]
    {
      assert s[..i][..i - 1] == s[..i - 1] && s[..i][i - 1] == s[i - 1];
      assert [s[i - 1]] + s[i..] == s[i - 1..];
    }

    static lemma InsertStops(s: seq<Area>, i: nat, a: Area)
      requires i <= |s| && (i > 0 ==> !(a.start < s[i - 1].start))
      ensures Spec.Insert(s[..i], a) + s[i..] == s[..i] + [a] + s[i..]
    {
      if i > 0 { assert s[..i][i - 1] == s[i - 1]; }
    }

    method Remove(index: u32) returns (removed: bool)
      requires Valid()
      modifies this, data
      ensures Valid() && data == old(data)
      ensures removed <==> index < old(count)
      ensures Contents() == if removed then old(Contents())[..index] + old(Contents())[index + 1..] else old(Contents())
    {
      if index >= count { return false; }
      ghost var s := Contents();
      var i := index;
      count := count - 1;
      while i < count
        invariant index <= i <= count && data == old(data) && count == |s| - 1 && data.Length == rSize
        invariant forall t :: 0 <= t < i ==> data[t] == s[if t < index then t else t + 1]
        invariant forall t :: i <= t <= count ==> data[t] == s[t]
      {
        data[i] := data[i + 1];
        i := i + 1;
      }
      ClosedUp(data[..count], s, index);
      return true;
    }

    static lemma ClosedUp(r: seq<Area>, s: seq<Area>, index: nat)
      requires index < |s| && |r| == |s| - 1
      requires forall t :: 0 <= t < |r| ==> r[t] == s[if t < index then t else t + 1]
      ensures r == s[..index] + s[index + 1..]
    {
    }

    /** ordered_vector_find: the index of the entry with this start, or (uint32)-1; None when the
        search leaves the array. */
    method Find(a: Area) returns (index: Option<u32>)
      requires Valid() && StrictlySorted(Contents()) && count < 0x8000_0000
      ensures index.None? <==> count == 0 || a.start < data[0].start
      ensures index.Some? && index.value < count ==> Contents()[index.value].start == a.start
      ensures index.Some? && index.value >= count ==> index.value == WORD - 1 && !Spec.StartsAt(Contents(), a.start)
    {
      var r := BinarySearch(data, count, a.start);
      match r
      case OutOfBounds(_) => index := None;
      case Hit(i) => index := Some(i);
      case Miss(last) =>
        index := Some(WORD - 1);
        forall i | 0 <= i < count ensures Contents()[i].start != a.start {
          if i < last { assert Contents()[i].start < Contents()[last].start; }
        }
    }
  }
}
