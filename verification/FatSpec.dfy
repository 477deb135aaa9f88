/** The file allocation table as a flat sequence of entries, and the walk that deletes a chain
    (MeOS/FAT32_fs.cpp:497-523 and 771-788; Microsoft FAT32 File System Specification 1.03,
    section "FAT Data Structure"). */
module FatSpec {

  type Word = x: int | 0 <= x < 0x1_0000_0000

  const FAT_EOF := 0x0FFF_FFF8
  const ERROR_OCCUR := 1

  /** value & 0x0FFFFFFF: the top four bits of an entry are not part of it. */
  function Low28(x: Word): (r: Word)
    ensures r < 0x1000_0000
  {
    x % 0x1000_0000
  }

  /** How the calls below one mark_cluster turn out: no page-cache buffer, a failed sector read,
      a failed sector write, or none of these. */
  datatype Luck = NoBuffer | ReadFails | WriteFails | Works

  /** fat_fs_mark_cluster on the flat table: the new table and the returned value.  A mark that
      works needs an entry of the table. */
  function Mark(fat: seq<Word>, i: nat, value: Word, luck: Luck): (seq<Word>, Word)
    requires i < |fat| || luck != Works
  {
    match luck
    case NoBuffer => (fat, ERROR_OCCUR)
    case ReadFails => (fat, 0)
    case WriteFails => (fat, 0)
    case Works => (fat[i := Low28(value)], Low28(fat[i]))
  }

  /** Running: the outcomes of the marks are used up.  Outside: the next mark works, on a number
      that is neither a cluster nor an end mark, so it rewrites a word that is not in the table. */
  datatype Outcome = Success | Failure | Running(cluster: Word) | Outside(cluster: Word)

  /** The loop at the end of fat_fs_delete_node, with the outcome of each mark given in turn. */
  ghost function Walk(fat: seq<Word>, c: Word, lucks: seq<Luck>): (seq<Word>, Outcome)
    decreases |lucks|
  {
    if c >= FAT_EOF then (fat, Success)
    else if lucks == [] then (fat, Running(c))
    else if c >= |fat| && lucks[0] == Works then (fat, Outside(c))
    else
      var (next, v) := Mark(fat, c, 0, lucks[0]);
      if v == 0 then (next, Failure) else Walk(next, v, lucks[1..])
  }

  // ----- termination

  /** Entries whose low 28 bits are not zero. */
  ghost function CountLive(fat: seq<Word>): nat {
    if fat == [] then 0
    else CountLive(fat[..|fat| - 1]) + if Low28(fat[|fat| - 1]) != 0 then 1 else 0
  }

  lemma {:induction false} CountFalls(fat: seq<Word>, i: nat)
    requires i < |fat| && Low28(fat[i]) != 0
    ensures CountLive(fat[i := 0]) == CountLive(fat) - 1
  {
    var n := |fat| - 1;
    var z := fat[i := 0];
    if i < n {
      CountFalls(fat[..n], i);
      assert z[..n] == fat[..n][i := 0];
    } else {
      assert z[..n] == fat[..n];
    }
  }

  ghost predicate AllWork(lucks: seq<Luck>) {
    forall k :: 0 <= k < |lucks| ==> lucks[k] == Works
  }

  /** How many marks get a buffer. */
  ghost function Buffered(lucks: seq<Luck>): nat {
    if lucks == [] then 0 else (if lucks[0] == NoBuffer then 0 else 1) + Buffered(lucks[1..])
  }

  /** The walk ends on every table, cyclic and damaged ones included, and however reservations and
      transfers fail, once more marks got a buffer than there are live entries: each of those but
      the last takes a live entry away. */
  lemma {:induction false} WalkEnds(fat: seq<Word>, c: Word, lucks: seq<Luck>)
    requires Buffered(lucks) > CountLive(fat)
    ensures !Walk(fat, c, lucks).1.Running?
    decreases |lucks|
  {
    if c < FAT_EOF && (c < |fat| || lucks[0] != Works) {
      var (next, v) := Mark(fat, c, 0, lucks[0]);
      if lucks[0] == Works && v != 0 { CountFalls(fat, c); }
      if v != 0 { WalkEnds(next, v, lucks[1..]); }
    }
  }

  lemma {:induction false} AllBuffered(lucks: seq<Luck>)
    requires AllWork(lucks)
    ensures Buffered(lucks) == |lucks|
  {
    if lucks != [] { AllBuffered(lucks[1..]); }
  }

  // ----- paths

  /** The links lead from c through the clusters `s`, none of them to 0. */
  ghost predicate IsPath(fat: seq<Word>, c: Word, s: seq<Word>)
    decreases |s|
  {
    s == [] || (c < FAT_EOF && c < |fat| && s[0] == c && Low28(fat[c]) != 0 && IsPath(fat, Low28(fat[c]), s[1..]))
  }

  /** Where they lead to. */
  ghost function EndOf(fat: seq<Word>, c: Word, s: seq<Word>): Word
    decreases |s|
  {
    if s == [] || c >= |fat| then c else EndOf(fat, Low28(fat[c]), s[1..])
  }

  /** `chain` lists the clusters from c to the entry that marks the end of the file. */
  ghost predicate IsChain(fat: seq<Word>, c: Word, chain: seq<Word>) {
    IsPath(fat, c, chain) && EndOf(fat, c, chain) >= FAT_EOF
  }

  ghost predicate HasChain(fat: seq<Word>, c: Word) {
    exists chain: seq<Word> :: IsChain(fat, c, chain)
  }

  /** The links lead from c to a number that is neither a cluster nor an end mark. */
  ghost predicate LeavesBy(fat: seq<Word>, c: Word, s: seq<Word>) {
    IsPath(fat, c, s) && |fat| <= EndOf(fat, c, s) < FAT_EOF
  }

  ghost predicate LeadsOut(fat: seq<Word>, c: Word) {
    exists s: seq<Word> :: LeavesBy(fat, c, s)
  }

  /** A path that cannot be continued. */
  ghost predicate Stops(fat: seq<Word>, c: Word, s: seq<Word>) {
    IsPath(fat, c, s) && (EndOf(fat, c, s) >= FAT_EOF || EndOf(fat, c, s) >= |fat|)
  }

  /** A table has at most one path from a cluster that stops. */
  lemma {:induction false} PathUnique(fat: seq<Word>, c: Word, s: seq<Word>, t: seq<Word>)
    requires Stops(fat, c, s) && Stops(fat, c, t)
    ensures s == t
    decreases |s|
  {
    if s != [] {
      PathUnique(fat, Low28(fat[c]), s[1..], t[1..]);
      assert s == [c] + s[1..] && t == [c] + t[1..];
    }
  }

  lemma {:induction false} PathSuffix(fat: seq<Word>, c: Word, s: seq<Word>, k: nat)
    requires IsPath(fat, c, s) && k < |s|
    ensures IsPath(fat, s[k], s[k..]) && EndOf(fat, s[k], s[k..]) == EndOf(fat, c, s)
    decreases k
  {
    if k > 0 {
      PathSuffix(fat, Low28(fat[c]), s[1..], k - 1);
      assert s[1..][k - 1..] == s[k..];
    } else {
      assert s[0..] == s;
    }
  }

  lemma {:induction false} PathPrefix(fat: seq<Word>, c: Word, s: seq<Word>, k: nat)
    requires IsPath(fat, c, s) && k < |s|
    ensures IsPath(fat, c, s[..k]) && EndOf(fat, c, s[..k]) == s[k]
    decreases k
  {
    if k > 0 {
      PathPrefix(fat, Low28(fat[c]), s[1..], k - 1);
      assert s[..k][1..] == s[1..][..k - 1];
    }
  }

  /** A path that stops, and so a chain that reaches the end, never comes back to a cluster. */
  lemma ChainAcyclic(fat: seq<Word>, c: Word, s: seq<Word>, i: nat, k: nat)
    requires Stops(fat, c, s) && i < k < |s|
    ensures s[i] != s[k]
  {
    if s[i] == s[k] {
      PathSuffix(fat, c, s, i);
      PathSuffix(fat, c, s, k);
      PathUnique(fat, s[i], s[i..], s[k..]);
    }
  }

  /** Zeroing a cluster that is not on a path keeps the path; a path of the zeroed table was one
      before. */
  lemma {:induction false} PathAfterZero(fat: seq<Word>, i: Word, c: Word, s: seq<Word>)
    requires i < |fat|
    ensures IsPath(fat[i := 0], c, s) <==> IsPath(fat, c, s) && i !in s
    ensures IsPath(fat[i := 0], c, s) ==> EndOf(fat[i := 0], c, s) == EndOf(fat, c, s)
    decreases |s|
  {
    if s != [] && c < FAT_EOF && s[0] == c && c < |fat| && c != i {
      PathAfterZero(fat, i, Low28(fat[c]), s[1..]);
      assert s == [c] + s[1..];
    }
  }

  /** The table with the entries of `chain` zeroed and no other changed. */
  ghost function Zeroed(fat: seq<Word>, chain: seq<Word>): (r: seq<Word>)
    ensures |r| == |fat| && forall i :: 0 <= i < |fat| ==> r[i] == if i in chain then 0 else fat[i]
  {
    seq(|fat|, i requires 0 <= i < |fat| => if i in chain then 0 else fat[i])
  }

  lemma ZeroedOne(fat: seq<Word>, c: Word, s: seq<Word>)
    requires c < |fat|
    ensures Zeroed(fat[c := 0], s) == Zeroed(fat, [c] + s)
  {
  }

  ghost predicate NoRepeat(s: seq<Word>) {
    forall i, k :: 0 <= i < k < |s| ==> s[i] != s[k]
  }

  /** The first `n` marks all do what they should. */
  ghost predicate FirstWork(lucks: seq<Luck>, n: nat) {
    |lucks| >= n && forall k :: 0 <= k < n ==> lucks[k] == Works
  }

  lemma FirstWorkRest(lucks: seq<Luck>, n: nat)
    requires n > 0 && lucks != [] && lucks[0] == Works
    ensures FirstWork(lucks, n) <==> FirstWork(lucks[1..], n - 1)
  {
    if FirstWork(lucks[1..], n - 1) {
      forall k | 0 <= k < n ensures lucks[k] == Works { if k > 0 { assert lucks[1..][k - 1] == Works; } }
    }
  }

  /** While the marks work, the walk zeroes the entries of a path one by one and goes on behind it. */
  lemma {:induction false} WalkAlong(fat: seq<Word>, c: Word, lucks: seq<Luck>, s: seq<Word>)
    requires IsPath(fat, c, s) && NoRepeat(s) && FirstWork(lucks, |s|)
    ensures Walk(fat, c, lucks) == Walk(Zeroed(fat, s), EndOf(fat, c, s), lucks[|s|..])
    decreases |s|
  {
    if s == [] {
      assert Zeroed(fat, s) == fat && lucks[0..] == lucks;
    } else {
      var v := Low28(fat[c]);
      assert c !in s[1..];
      PathAfterZero(fat, c, v, s[1..]);
      FirstWorkRest(lucks, |s|);
      assert forall i :: 0 <= i < |s[1..]| ==> s[1..][i] == s[i + 1];
      WalkAlong(fat[c := 0], v, lucks[1..], s[1..]);
      ZeroedOne(fat, c, s[1..]);
      assert s == [c] + s[1..] && lucks[1..][|s| - 1..] == lucks[|s|..];
    }
  }

  lemma StopsNoRepeat(fat: seq<Word>, c: Word, s: seq<Word>)
    requires Stops(fat, c, s)
    ensures NoRepeat(s)
  {
    forall i, k | 0 <= i < k < |s| ensures s[i] != s[k] { ChainAcyclic(fat, c, s, i, k); }
  }

  /** With working I/O the walk succeeds on a chain that ends in an end-of-file mark, whatever
      stands in the rest of the table, and then it has zeroed exactly the entries of that chain. */
  lemma WalkDeletesChain(fat: seq<Word>, c: Word, lucks: seq<Luck>, s: seq<Word>)
    requires IsChain(fat, c, s) && FirstWork(lucks, |s|)
    ensures Walk(fat, c, lucks) == (Zeroed(fat, s), Success)
  {
    StopsNoRepeat(fat, c, s);
    WalkAlong(fat, c, lucks, s);
  }

  /** As long as every mark gets a buffer, what is zeroed is always a path from c; success means
      that it is a chain, and Outside that it leads out of the table. */
  lemma {:induction false} WalkFollows(fat: seq<Word>, c: Word, lucks: seq<Luck>) returns (s: seq<Word>)
    requires NoBuffer !in lucks && Walk(fat, c, lucks).1 != Failure
    ensures IsPath(fat, c, s) && |s| <= |lucks| && Walk(fat, c, lucks).0 == Zeroed(fat, s)
    ensures match Walk(fat, c, lucks).1
            case Success => IsChain(fat, c, s)
            case Outside(e) => LeavesBy(fat, c, s) && EndOf(fat, c, s) == e
            case _ => true
    decreases |lucks|
  {
    if c >= FAT_EOF || lucks == [] || c >= |fat| {
      s := [];
      assert lucks != [] ==> lucks[0] in lucks;
      assert Zeroed(fat, s) == fat;
    } else {
      var v := Low28(fat[c]);
      assert lucks[0] in lucks;
      assert forall x :: x in lucks[1..] ==> x in lucks;
      var rest := WalkFollows(fat[c := 0], v, lucks[1..]);
      PathAfterZero(fat, c, v, rest);
      s := [c] + rest;
      assert s[1..] == rest;
      ZeroedOne(fat, c, rest);
    }
  }

  /** Given enough steps of working I/O: success exactly when there is such a chain, and out of the
      table exactly when the links lead there; otherwise an error is returned. */
  lemma WalkSucceedsIff(fat: seq<Word>, c: Word, lucks: seq<Luck>)
    requires AllWork(lucks) && |lucks| > CountLive(fat)
    ensures Walk(fat, c, lucks).1 == Success <==> HasChain(fat, c)
    ensures Walk(fat, c, lucks).1.Outside? <==> LeadsOut(fat, c)
    ensures !Walk(fat, c, lucks).1.Running?
  {
    hide IsPath, EndOf;
    AllBuffered(lucks);
    WalkEnds(fat, c, lucks);
    assert NoBuffer !in lucks;
    if Walk(fat, c, lucks).1 != Failure {
      var s := WalkFollows(fat, c, lucks);
    }
    if HasChain(fat, c) {
      var s: seq<Word> :| IsChain(fat, c, s);
      StopsLive(fat, c, s);
      WalkDeletesChain(fat, c, lucks, s);
    }
    if LeadsOut(fat, c) {
      var s: seq<Word> :| LeavesBy(fat, c, s);
      StopsLive(fat, c, s);
      WalkLeaves(fat, c, lucks, s);
    }
  }

  /** A path out of the table is zeroed up to its end, and then the walk leaves the table. */
  lemma WalkLeaves(fat: seq<Word>, c: Word, lucks: seq<Luck>, s: seq<Word>)
    requires LeavesBy(fat, c, s) && FirstWork(lucks, |s| + 1)
    ensures Walk(fat, c, lucks) == (Zeroed(fat, s), Outside(EndOf(fat, c, s)))
  {
    StopsNoRepeat(fat, c, s);
    WalkAlong(fat, c, lucks, s);
    assert lucks[|s|..][0] == Works;
  }

  /** A path that stops has no more clusters than the table has live entries. */
  lemma {:induction false} StopsLive(fat: seq<Word>, c: Word, s: seq<Word>)
    requires Stops(fat, c, s)
    ensures |s| <= CountLive(fat)
    decreases |s|
  {
    if s != [] {
      PathRest(fat, c, s);
      CountFalls(fat, c);
      StopsLive(fat[c := 0], Low28(fat[c]), s[1..]);
    }
  }

  /** What is left of a path once its first entry is zeroed. */
  lemma PathRest(fat: seq<Word>, c: Word, s: seq<Word>)
    requires Stops(fat, c, s) && s != []
    ensures c < |fat| && Low28(fat[c]) != 0 && s[0] == c
    ensures IsPath(fat[c := 0], Low28(fat[c]), s[1..])
    ensures EndOf(fat[c := 0], Low28(fat[c]), s[1..]) == EndOf(fat, c, s)
  {
    StopsNoRepeat(fat, c, s);
    PathAfterZero(fat, c, Low28(fat[c]), s[1..]);
  }

  // ----- failures

  /** Whatever fails, entries are only ever zeroed, and the table keeps its size. */
  lemma {:induction false} WalkOnlyZeroes(fat: seq<Word>, c: Word, lucks: seq<Luck>)
    ensures var r := Walk(fat, c, lucks).0;
            |r| == |fat| && forall i :: 0 <= i < |fat| ==> r[i] == fat[i] || r[i] == 0
    decreases |lucks|
  {
    if c < FAT_EOF && lucks != [] && (c < |fat| || lucks[0] != Works) {
      var (next, v) := Mark(fat, c, 0, lucks[0]);
      if v != 0 { WalkOnlyZeroes(next, v, lucks[1..]); }
    }
  }

  /** The walk can leave the table, for some outcomes of its marks, exactly when the links lead out
      from its first cluster, or from cluster 1, where a failed reservation takes it. */
  lemma LeavesIff(fat: seq<Word>, c: Word)
    ensures (exists lucks :: Walk(fat, c, lucks).1.Outside?) <==> LeadsOut(fat, c) || (c < FAT_EOF && LeadsOut(fat, 1))
  {
    if lucks :| Walk(fat, c, lucks).1.Outside? { OutsideLeads(fat, c, lucks); }
    if LeadsOut(fat, c) {
      var s: seq<Word> :| LeavesBy(fat, c, s);
      WalkLeaves(fat, c, seq(|s| + 1, _ => Works), s);
    }
    if c < FAT_EOF && LeadsOut(fat, 1) {
      var s: seq<Word> :| LeavesBy(fat, 1, s);
      var works := seq(|s| + 1, _ => Works);
      WalkLeaves(fat, 1, works, s);
      assert ([NoBuffer] + works)[1..] == works;
      assert Walk(fat, c, [NoBuffer] + works) == Walk(fat, 1, works);
    }
  }

  lemma {:induction false} OutsideLeads(fat: seq<Word>, c: Word, lucks: seq<Luck>)
    requires Walk(fat, c, lucks).1.Outside?
    ensures c < FAT_EOF && (LeadsOut(fat, c) || LeadsOut(fat, 1))
    decreases |lucks|
  {
    if lucks[0] == Works {
      if c >= |fat| {
        assert LeavesBy(fat, c, []);
      } else {
        var v := Low28(fat[c]);
        OutsideLeads(fat[c := 0], v, lucks[1..]);
        if LeadsOut(fat[c := 0], v) {
          var s: seq<Word> :| LeavesBy(fat[c := 0], v, s);
          PathAfterZero(fat, c, v, s);
          assert ([c] + s)[1..] == s;
          assert LeavesBy(fat, c, [c] + s);
        } else {
          var s: seq<Word> :| LeavesBy(fat[c := 0], 1, s);
          PathAfterZero(fat, c, 1, s);
          assert LeavesBy(fat, 1, s);
        }
      }
    } else {
      OutsideLeads(fat, 1, lucks[1..]);
    }
  }

  /** A failed buffer reservation is taken for a link to cluster 1: while reservations keep failing
      the walk goes round without end, changing nothing. */
  lemma {:induction false} NoBufferLoops(fat: seq<Word>, c: Word, lucks: seq<Luck>)
    requires c < FAT_EOF && lucks != []
    requires forall k :: 0 <= k < |lucks| ==> lucks[k] == NoBuffer
    ensures Walk(fat, c, lucks) == (fat, Running(1))
    decreases |lucks|
  {
    if |lucks| > 1 { NoBufferLoops(fat, 1, lucks[1..]); }
  }

  /** Such a failure at mark k of a chain zeroes the k entries before it and sends the walk to
      cluster 1. */
  lemma NoBufferStrays(fat: seq<Word>, c: Word, lucks: seq<Luck>, s: seq<Word>, k: nat)
    requires IsChain(fat, c, s) && k < |s| && |lucks| > k && FirstWork(lucks, k) && lucks[k] == NoBuffer
    ensures Walk(fat, c, lucks) == Walk(Zeroed(fat, s[..k]), 1, lucks[k + 1..])
  {
    StopsNoRepeat(fat, c, s);
    PathPrefix(fat, c, s, k);
    PathSuffix(fat, c, s, k);
    WalkAlong(fat, c, lucks, s[..k]);
    assert lucks[k..][0] == NoBuffer && lucks[k..][1..] == lucks[k + 1..];
  }

  /** With an end mark in entry 1, as clean volumes have, success is then reported although the
      rest of the chain stays in the table. */
  lemma NoBufferCutsChain(fat: seq<Word>, c: Word, lucks: seq<Luck>, s: seq<Word>, k: nat)
    requires IsChain(fat, c, s) && 1 !in s && 1 < |fat| && Low28(fat[1]) >= FAT_EOF
    requires k < |s| && |lucks| >= k + 2 && FirstWork(lucks, k) && lucks[k] == NoBuffer && lucks[k + 1] == Works
    ensures Walk(fat, c, lucks) == (Zeroed(fat, s[..k])[1 := 0], Success)
  {
    NoBufferStrays(fat, c, lucks, s, k);
    assert lucks[k + 1..][0] == Works;
    assert forall i :: i in s[..k] ==> i in s;
    var cut := Zeroed(fat, s[..k]);
    assert Walk(cut, 1, lucks[k + 1..]) == Walk(cut[1 := 0], Low28(cut[1]), lucks[k + 1..][1..]);
  }

  /** With a number in entry 1 that is neither a cluster nor an end mark, as volumes marked dirty
      have, the walk then leaves the table. */
  lemma NoBufferLeaves(fat: seq<Word>, c: Word, lucks: seq<Luck>, s: seq<Word>, k: nat)
    requires IsChain(fat, c, s) && 1 !in s && 1 < |fat| && |fat| <= Low28(fat[1]) < FAT_EOF
    requires k < |s| && |lucks| >= k + 3 && FirstWork(lucks, k) && lucks[k] == NoBuffer
    requires lucks[k + 1] == Works && lucks[k + 2] == Works
    ensures Walk(fat, c, lucks) == (Zeroed(fat, s[..k])[1 := 0], Outside(Low28(fat[1])))
  {
    NoBufferStrays(fat, c, lucks, s, k);
    assert lucks[k + 1..][0] == Works && lucks[k + 1..][1..] == lucks[k + 2..];
    assert forall i :: i in s[..k] ==> i in s;
    var cut := Zeroed(fat, s[..k]);
    assert Walk(cut, 1, lucks[k + 1..]) == Walk(cut[1 := 0], Low28(cut[1]), lucks[k + 1..][1..]);
  }

  /** A walk that has strayed to cluster 1 can only succeed by zeroing that entry, which was a link
      or a mark before. */
  lemma {:induction false} StrayedZeroesOne(fat: seq<Word>, lucks: seq<Luck>)
    requires Walk(fat, 1, lucks).1 == Success
    ensures var r := Walk(fat, 1, lucks).0; |r| == |fat| > 1 && r[1] == 0 && Low28(fat[1]) != 0
    decreases |lucks|
  {
    if lucks[0] == NoBuffer {
      StrayedZeroesOne(fat, lucks[1..]);
      WalkOnlyZeroes(fat, 1, lucks);
    } else {
      WalkOnlyZeroes(fat[1 := 0], Low28(fat[1]), lucks[1..]);
    }
  }

  /** The marks of the chain work one after the other; a failed reservation at cluster 1 itself only
      tries that cluster again. */
  ghost predicate MarksAll(lucks: seq<Luck>, s: seq<Word>)
    decreases |lucks|
  {
    s == [] ||
    (lucks != [] &&
     if lucks[0] == NoBuffer then s[0] == 1 && MarksAll(lucks[1..], s)
     else lucks[0] == Works && MarksAll(lucks[1..], s[1..]))
  }

  /** On a chain that avoids cluster 1 that is: every mark works. */
  lemma {:induction false} MarksPlain(lucks: seq<Luck>, s: seq<Word>)
    requires 1 !in s
    ensures MarksAll(lucks, s) <==> FirstWork(lucks, |s|)
    decreases |lucks|
  {
    if s != [] && lucks != [] && lucks[0] == Works {
      MarksPlain(lucks[1..], s[1..]);
      FirstWorkRest(lucks, |s|);
    }
  }

  /** No link leads out of `t` but to 0, an end mark or a number that is no cluster. */
  ghost predicate Closed(fat: seq<Word>, t: set<Word>) {
    forall i :: i in t && i < |fat| ==> LeadsInto(fat, t, Low28(fat[i]))
  }

  ghost predicate LeadsInto(fat: seq<Word>, t: set<Word>, c: Word) {
    c == 0 || c >= FAT_EOF || c >= |fat| || c in t
  }

  /** A walk that starts in a closed set with cluster 1 in it changes no entry outside. */
  lemma {:induction false} WalkWithin(fat: seq<Word>, c: Word, lucks: seq<Luck>, t: set<Word>, i: nat)
    requires Closed(fat, t) && 1 in t && c != 0 && LeadsInto(fat, t, c) && i < |fat| && i !in t
    ensures var r := Walk(fat, c, lucks).0; |r| == |fat| && r[i] == fat[i]
    decreases |lucks|
  {
    if c < FAT_EOF && lucks != [] && (c < |fat| || lucks[0] != Works) {
      var (next, v) := Mark(fat, c, 0, lucks[0]);
      if v != 0 { WalkWithin(next, v, lucks[1..], t, i); }
    }
  }

  function Clusters(s: seq<Word>): set<Word> {
    set x | x in s
  }

  lemma {:induction false} PathClosed(fat: seq<Word>, c: Word, s: seq<Word>)
    requires Stops(fat, c, s)
    ensures Closed(fat, Clusters(s)) && LeadsInto(fat, Clusters(s), c)
    decreases |s|
  {
    var t := Clusters(s);
    if s != [] { assert s[0] in t; }
    forall i | i in t && i < |fat| ensures LeadsInto(fat, t, Low28(fat[i])) {
      var k :| 0 <= k < |s| && s[k] == i;
      PathSuffix(fat, c, s, k);
      assert EndOf(fat, i, s[k..]) == EndOf(fat, Low28(fat[i]), s[k..][1..]);
      if k + 1 < |s| {
        PathSuffix(fat, c, s, k + 1);
        assert s[k..][1..] == s[k + 1..] && s[k + 1] in t;
        assert IsPath(fat, Low28(fat[i]), s[k + 1..]) && s[k + 1..][0] == s[k + 1];
      } else {
        assert s[k..][1..] == [];
      }
    }
  }

  /** After a failed reservation elsewhere on the chain its entry at that place is kept, if the walk
      succeeds at all, or entry 1 is zeroed that is not on the chain. */
  lemma StrayedKeeps(fat: seq<Word>, c: Word, lucks: seq<Luck>, s: seq<Word>)
    requires IsChain(fat, c, s) && s != [] && c != 1 && Walk(fat, 1, lucks).1 == Success
    ensures Walk(fat, 1, lucks).0 != Zeroed(fat, s)
  {
    StrayedZeroesOne(fat, lucks);
    if 1 in s {
      var k :| 0 <= k < |s| && s[k] == 1;
      PathSuffix(fat, c, s, k);
      var rest := s[k..];
      PathClosed(fat, 1, rest);
      StopsNoRepeat(fat, c, s);
      assert rest[0] == 1 && c !in rest;
      WalkWithin(fat, 1, lucks, Clusters(rest), c);
    } else {
      assert Zeroed(fat, s)[1] == fat[1];
    }
  }

  /** So on every chain, in any table, the walk reports success with exactly that chain deleted if and
      only if the marks of the chain work, whatever would happen afterwards. */
  lemma {:induction false} DeletesChainIff(fat: seq<Word>, c: Word, lucks: seq<Luck>, s: seq<Word>)
    requires IsChain(fat, c, s)
    ensures Walk(fat, c, lucks) == (Zeroed(fat, s), Success) <==> MarksAll(lucks, s)
    decreases |lucks|
  {
    if s == [] {
      assert Zeroed(fat, s) == fat;
    } else if lucks != [] {
      if lucks[0] == NoBuffer {
        if c == 1 {
          DeletesChainIff(fat, 1, lucks[1..], s);
        } else if Walk(fat, 1, lucks[1..]).1 == Success {
          StrayedKeeps(fat, c, lucks[1..], s);
        }
      } else if lucks[0] == Works {
        PathRest(fat, c, s);
        DeletesChainIff(fat[c := 0], Low28(fat[c]), lucks[1..], s[1..]);
        ZeroedOne(fat, c, s[1..]);
        assert s == [c] + s[1..];
      }
    }
  }

  /** Success over a chain without cluster 1: a reservation that failed on the way has left entry 1
      zeroed that was not free. */
  lemma {:induction false} PlainSuccess(fat: seq<Word>, c: Word, lucks: seq<Luck>, s: seq<Word>)
    requires IsChain(fat, c, s) && 1 !in s && Walk(fat, c, lucks).1 == Success
    ensures Walk(fat, c, lucks).0 == Zeroed(fat, s) <==>
              |lucks| >= |s| && forall k :: 0 <= k < |s| ==> lucks[k] != NoBuffer
    ensures var r := Walk(fat, c, lucks).0;
            r != Zeroed(fat, s) ==> |r| == |fat| > 1 && r[1] == 0 && Low28(fat[1]) != 0
    decreases |s|
  {
    DeletesChainIff(fat, c, lucks, s);
    MarksPlain(lucks, s);
    if s != [] {
      if lucks[0] == NoBuffer {
        StrayedZeroesOne(fat, lucks[1..]);
        WalkOnlyZeroes(fat, 1, lucks[1..]);
      } else {
        assert lucks[0] == Works;
        PathRest(fat, c, s);
        PlainSuccess(fat[c := 0], Low28(fat[c]), lucks[1..], s[1..]);
        WalkOnlyZeroes(fat, c, lucks);
        ZeroedOne(fat, c, s[1..]);
        assert s == [c] + s[1..];
        assert forall k :: 0 < k < |lucks| ==> lucks[k] == lucks[1..][k - 1];
      }
    }
  }

  /** For a walk that reports success, then, deleting the chain means exactly that its marks worked;
      on a chain that avoids cluster 1, exactly that no reservation failed on the way. */
  lemma SuccessDeletesIff(fat: seq<Word>, c: Word, lucks: seq<Luck>, s: seq<Word>)
    requires IsChain(fat, c, s) && Walk(fat, c, lucks).1 == Success
    ensures Walk(fat, c, lucks).0 == Zeroed(fat, s) <==> MarksAll(lucks, s)
    ensures 1 !in s ==>
              (MarksAll(lucks, s) <==> |lucks| >= |s| && forall k :: 0 <= k < |s| ==> lucks[k] != NoBuffer)
    ensures var r := Walk(fat, c, lucks).0;
            1 !in s && r != Zeroed(fat, s) ==> |r| == |fat| > 1 && r[1] == 0 && Low28(fat[1]) != 0
  {
    DeletesChainIff(fat, c, lucks, s);
    if 1 !in s { PlainSuccess(fat, c, lucks, s); }
  }
}
