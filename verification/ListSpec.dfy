/** What the kernel's list operations do to the sequence of a list's nodes. */
module ListSpec {

  ghost predicate Distinct<T(!new)>(s: seq<T>) {
    forall i, j :: 0 <= i < j < |s| ==> s[i] != s[j]
  }

  function IndexIn<T(==)>(s: seq<T>, x: T): (k: nat)
    requires x in s
    ensures k < |s| && s[k] == x && x !in s[..k]
  {
    if s[0] == x then 0 else 1 + IndexIn(s[1..], x)
  }

  /** The sequence without (the first) `x`. */
  function Without<T(==)>(s: seq<T>, x: T): seq<T>
    requires x in s
  {
    var k := IndexIn(s, x);
    s[..k] + s[k + 1..]
  }

  /** The first element moved to the back. */
  function Rotated<T>(s: seq<T>): seq<T> {
    if |s| <= 1 then s else s[1..] + [s[0]]
  }

  lemma WithoutAt<T>(s: seq<T>, x: T)
    requires x in s
    ensures var k, w := IndexIn(s, x), Without(s, x);
            |w| == |s| - 1 && forall i :: 0 <= i < |w| ==> w[i] == if i < k then s[i] else s[i + 1]
  {
  }

  lemma WithoutMembers<T(!new)>(s: seq<T>, x: T)
    requires Distinct(s) && x in s
    ensures Distinct(Without(s, x)) && |Without(s, x)| == |s| - 1
    ensures forall y :: y in Without(s, x) <==> y in s && y != x
  {
    var k, w := IndexIn(s, x), Without(s, x);
    forall y | y in s && y != x ensures y in w {
      var j :| 0 <= j < |s| && s[j] == y;
      assert w[if j < k then j else j - 1] == y;
    }
  }

  lemma RotatedMembers<T(!new)>(s: seq<T>)
    requires Distinct(s)
    ensures Distinct(Rotated(s)) && |Rotated(s)| == |s|
    ensures forall y :: y in Rotated(s) <==> y in s
  {
    if |s| > 1 {
      var r := Rotated(s);
      assert forall k :: 0 <= k < |s| ==> s[k] == r[if k == 0 then |s| - 1 else k - 1];
    }
  }

  /** Removing an element that stands before `x` moves `x` one place forward; one behind it does not. */
  lemma WithoutIndex<T(!new)>(s: seq<T>, y: T, x: T)
    requires Distinct(s) && y in s && x in s && x != y
    ensures x in Without(s, y)
    ensures IndexIn(Without(s, y), x) == if IndexIn(s, y) < IndexIn(s, x) then IndexIn(s, x) - 1 else IndexIn(s, x)
  {
    WithoutMembers(s, y);
    var k, i, w := IndexIn(s, y), IndexIn(s, x), Without(s, y);
    var j := if k < i then i - 1 else i;
    assert w[j] == x;
    var m := IndexIn(w, x);
    assert m == j;
  }
}
