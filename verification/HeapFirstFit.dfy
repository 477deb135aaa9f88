/** What the allocator's lazy merging amounts to: a request is served from the lowest
    maximal run of unused blocks that is large enough once its inner headers are
    reclaimed, and merging done along the way never changes a later answer. */
module HeapFirstFit {
  import opened Options
  import opened HeapSpec

  /** Blocks i..j-1 are unused and neither neighbour is. */
  ghost predicate IsRun(bs: seq<Block>, i: int, j: int) {
    && 0 <= i < j <= |bs|
    && (forall k :: i <= k < j ==> !bs[k].used)
    && (i > 0 ==> bs[i - 1].used)
    && (j < |bs| ==> bs[j].used)
  }

  /** Payload bytes of blocks i..j-1 plus the headers between them. */
  ghost function RunSize(bs: seq<Block>, i: nat, j: nat): nat
    requires i < j <= |bs|
    decreases j - i
  {
    if j == i + 1 then bs[i].size else bs[i].size + HEADER + RunSize(bs, i + 1, j)
  }

  ghost predicate Fits(bs: seq<Block>, i: int, j: int, r: nat) {
    IsRun(bs, i, j) && r <= RunSize(bs, i, j)
  }

  /** Number of leading unused blocks. */
  ghost function RunLength(bs: seq<Block>): (k: nat)
    ensures k <= |bs| && (forall i :: 0 <= i < k ==> !bs[i].used) && (k < |bs| ==> bs[k].used)
  {
    if bs == [] || bs[0].used then 0 else 1 + RunLength(bs[1..])
  }

  lemma {:induction false} RunSizeShift(bs: seq<Block>, k: nat, i: nat, j: nat)
    requires k <= i < j <= |bs|
    ensures RunSize(bs, i, j) == RunSize(bs[k..], i - k, j - k)
    decreases j - i
  {
    if j > i + 1 { RunSizeShift(bs, k, i + 1, j); }
  }

  /** Dropping a prefix that ends at a run boundary only renumbers the runs behind it. */
  lemma FitsShift(bs: seq<Block>, k: nat, i: int, j: int, r: nat)
    requires k <= i && k <= |bs|
    requires k == 0 || bs[k - 1].used || (k < |bs| ==> bs[k].used)
    ensures Fits(bs, i, j, r) <==> j >= k && Fits(bs[k..], i - k, j - k, r)
  {
    if i < j <= |bs| {
      RunSizeShift(bs, k, i, j);
      var tail := bs[k..];
      assert forall x :: k <= x < |bs| ==> tail[x - k] == bs[x];
      if IsRun(bs, i, j) { assert IsRun(tail, i - k, j - k); }
      if IsRun(tail, i - k, j - k) {
        assert forall x :: i <= x < j ==> !bs[x].used by {
          forall x | i <= x < j ensures !bs[x].used { assert !tail[x - k].used; }
        }
        assert !bs[i].used;
        assert IsRun(bs, i, j);
      }
    }
  }

  /** Front merging with the leading run: either enough of it fits, or all of it is fused. */
  lemma {:induction false} MergeFitRun(bs: seq<Block>, r: nat)
    requires bs != [] && !bs[0].used
    ensures var k, m := RunLength(bs), MergeFit(bs, r);
            k >= 1 && m != [] &&
            if r <= RunSize(bs, 0, k) then r <= m[0].size
            else m == [Block(bs[0].addr, RunSize(bs, 0, k), false, bs[0].flags)] + bs[k..]
    decreases |bs|
  {
    var k := RunLength(bs);
    if |bs| > 1 && !bs[1].used {
      var m := [Merge(bs[0], bs[1])] + bs[2..];
      assert m[1..] == bs[2..] == bs[1..][1..];
      assert RunLength(m) == k - 1;
      assert m[k - 1..] == bs[k..];
      if k > 2 {
        RunSizeShift(bs, 2, 2, k);
        RunSizeShift(m, 1, 1, k - 1);
      }
      assert RunSize(m, 0, k - 1) == RunSize(bs, 0, k);
      if r > bs[0].size { MergeFitRun(m, r); }
    } else {
      assert k == 1;
      assert bs == [bs[0]] + bs[1..];
    }
  }

  /** First fit over maximal runs.  The request succeeds exactly when some run fits, and
      the payload returned is that of the first block of the lowest such run. */
  lemma {:induction false} AllocIsFirstFit(bs: seq<Block>, r: nat)
    ensures Alloc(bs, r).payload.Some? <==> exists i, j :: Fits(bs, i, j, r)
    ensures Alloc(bs, r).payload.Some? ==>
              exists i, j :: Fits(bs, i, j, r) && Alloc(bs, r).payload == Some(bs[i].Payload()) &&
                             forall i', j' :: Fits(bs, i', j', r) ==> i <= i'
    decreases |bs|
  {
    if bs == [] {
    } else if bs[0].used {
      AllocIsFirstFit(bs[1..], r);
      FirstFitTail(bs, 1, r);
    } else {
      MergeFitLength(bs, r);
      MergeFitRun(bs, r);
      var k, m := RunLength(bs), MergeFit(bs, r);
      if r <= RunSize(bs, 0, k) {
        assert Fits(bs, 0, k, r);
      } else {
        assert m[1..] == bs[k..];
        AllocIsFirstFit(bs[k..], r);
        forall i, j | i < k ensures !Fits(bs, i, j, r) {
          if IsRun(bs, i, j) { assert i == 0; assert j == k; }
        }
        FirstFitTail(bs, k, r);
      }
    }
  }

  /** First fit in the chain is first fit in its tail when no run of the prefix fits. */
  lemma FirstFitTail(bs: seq<Block>, k: nat, r: nat)
    requires 0 < k <= |bs|
    requires bs[k - 1].used || (k < |bs| ==> bs[k].used)
    requires forall i, j | i < k :: !Fits(bs, i, j, r)
    ensures (exists i, j :: Fits(bs, i, j, r)) <==> exists i, j :: Fits(bs[k..], i, j, r)
    ensures forall i, j :: Fits(bs[k..], i, j, r) ==> Fits(bs, i + k, j + k, r) && bs[i + k] == bs[k..][i]
    ensures forall i, j :: Fits(bs, i, j, r) ==> i >= k && j >= k && Fits(bs[k..], i - k, j - k, r)
  {
    forall i, j | Fits(bs[k..], i, j, r)
      ensures Fits(bs, i + k, j + k, r) && bs[i + k] == bs[k..][i]
    {
      FitsShift(bs, k, i + k, j + k, r);
    }
    forall i, j | Fits(bs, i, j, r)
      ensures i >= k && j >= k && Fits(bs[k..], i - k, j - k, r)
    {
      FitsShift(bs, k, i, j, r);
    }
  }

  // ----- merging never changes an answer

  ghost predicate NoAdjacentUnused(bs: seq<Block>) {
    forall i :: 0 <= i < |bs| - 1 ==> bs[i].used || bs[i + 1].used
  }

  /** After defragmentation no two neighbours are unused. */
  lemma {:induction false} DefragSeparates(bs: seq<Block>)
    ensures NoAdjacentUnused(Defrag(bs))
    ensures bs != [] ==> Defrag(bs) != [] && Defrag(bs)[0].used == bs[0].used && Defrag(bs)[0].addr == bs[0].addr
    ensures bs != [] ==> Defrag(bs)[0].size >= bs[0].size
    decreases |bs|
  {
    if |bs| <= 1 {
    } else if !bs[0].used && !bs[1].used {
      DefragSeparates([Merge(bs[0], bs[1])] + bs[2..]);
    } else {
      DefragSeparates(bs[1..]);
    }
  }

  lemma {:induction false} DefragOfSeparated(bs: seq<Block>)
    requires NoAdjacentUnused(bs)
    ensures Defrag(bs) == bs
    decreases |bs|
  {
    if |bs| > 1 {
      var tail := bs[1..];
      forall i | 0 <= i < |tail| - 1 ensures tail[i].used || tail[i + 1].used {
        assert bs[i + 1].used || bs[i + 2].used;
      }
      DefragOfSeparated(bs[1..]);
    }
  }

  lemma {:induction false} DefragAfterMergeFit(bs: seq<Block>, r: nat)
    requires bs != [] && !bs[0].used
    ensures MergeFit(bs, r) != [] && Defrag(MergeFit(bs, r)) == Defrag(bs)
    ensures var m := MergeFit(bs, r); r <= m[0].size || |m| == 1 || m[1].used
    decreases |bs|
  {
    if |bs| > 1 && r > bs[0].size && !bs[1].used {
      DefragAfterMergeFit([Merge(bs[0], bs[1])] + bs[2..], r);
    }
  }

  /** The first unused block of a merged chain that holds `r` bytes. */
  ghost function Pick(bs: seq<Block>, r: nat): Option<nat> {
    if bs == [] then None
    else if !bs[0].used && r <= bs[0].size then Some(bs[0].Payload())
    else Pick(bs[1..], r)
  }

  lemma {:induction false} AllocIsPick(bs: seq<Block>, r: nat)
    ensures Alloc(bs, r).payload == Pick(Defrag(bs), r)
    decreases |bs|
  {
    if bs == [] {
    } else if bs[0].used {
      AllocIsPick(bs[1..], r);
      PickBehind(bs, r);
    } else {
      MergeFitLength(bs, r);
      DefragAfterMergeFit(bs, r);
      var m := MergeFit(bs, r);
      DefragSeparates(m);
      if r > m[0].size {
        AllocIsPick(m[1..], r);
        PickBehind(m, r);
      }
    }
  }

  lemma PickBehind(bs: seq<Block>, r: nat)
    requires bs != []
    requires bs[0].used || (r > bs[0].size && (|bs| == 1 || bs[1].used))
    ensures Pick(Defrag(bs), r) == Pick(Defrag(bs[1..]), r)
  {
    if |bs| == 1 {
      assert bs[1..] == [];
    } else {
      assert Defrag(bs)[1..] == Defrag(bs[1..]);
    }
  }

  /** A failed request leaves a chain that defragments to the same one. */
  lemma {:induction false} FailedAllocDefrags(bs: seq<Block>, r: nat)
    requires Alloc(bs, r).payload.None?
    ensures Defrag(Alloc(bs, r).blocks) == Defrag(bs)
    ensures bs != [] ==> Alloc(bs, r).blocks != [] && Alloc(bs, r).blocks[0].used == bs[0].used
    decreases |bs|
  {
    if bs == [] {
    } else if bs[0].used {
      FailedAllocDefrags(bs[1..], r);
      DefragCons(bs[0], bs[1..], Alloc(bs[1..], r).blocks);
      assert [bs[0]] + bs[1..] == bs;
    } else {
      MergeFitLength(bs, r);
      DefragAfterMergeFit(bs, r);
      var m := MergeFit(bs, r);
      FailedAllocDefrags(m[1..], r);
      DefragCons(m[0], m[1..], Alloc(m[1..], r).blocks);
      assert [m[0]] + m[1..] == m;
    }
  }

  lemma DefragCons(b: Block, xs: seq<Block>, ys: seq<Block>)
    requires Defrag(xs) == Defrag(ys) && (xs == [] <==> ys == [])
    requires b.used || xs == [] || (xs[0].used && ys[0].used)
    ensures Defrag([b] + xs) == Defrag([b] + ys)
  {
    assert ([b] + xs)[1..] == xs && ([b] + ys)[1..] == ys;
  }

  /** `cs` comes from `bs` by merging neighbouring unused blocks, and by nothing else. */
  ghost predicate MergesTo(bs: seq<Block>, cs: seq<Block>)
    decreases |bs|
  {
    if bs == [] then cs == []
    else
      || (cs != [] && cs[0] == bs[0] && MergesTo(bs[1..], cs[1..]))
      || (|bs| > 1 && !bs[0].used && !bs[1].used && MergesTo([Merge(bs[0], bs[1])] + bs[2..], cs))
  }

  /** A failed request has done nothing to the chain but merge. */
  lemma {:induction false} FailedAllocMergesOnly(bs: seq<Block>, r: nat)
    requires Alloc(bs, r).payload.None?
    ensures MergesTo(bs, Alloc(bs, r).blocks)
    decreases |bs|
  {
    if bs != [] {
      if bs[0].used {
        FailedAllocMergesOnly(bs[1..], r);
      } else {
        MergeFitLength(bs, r);
        var m := MergeFit(bs, r);
        FailedAllocMergesOnly(m[1..], r);
        FrontMerges(bs, r, Alloc(m[1..], r).blocks);
      }
    }
  }

  lemma {:induction false} FrontMerges(bs: seq<Block>, r: nat, rest: seq<Block>)
    requires bs != [] && !bs[0].used && MergeFit(bs, r) != [] && MergesTo(MergeFit(bs, r)[1..], rest)
    ensures MergesTo(bs, [MergeFit(bs, r)[0]] + rest)
    decreases |bs|
  {
    var cs := [MergeFit(bs, r)[0]] + rest;
    if |bs| > 1 && r > bs[0].size && !bs[1].used {
      FrontMerges([Merge(bs[0], bs[1])] + bs[2..], r, rest);
    } else {
      assert cs[1..] == rest;
    }
  }

  /** And so has a defragmentation. */
  lemma {:induction false} DefragOnlyMerges(bs: seq<Block>)
    ensures MergesTo(bs, Defrag(bs))
    decreases |bs|
  {
    if |bs| == 1 {
      assert bs[1..] == [];
    } else if |bs| > 1 {
      if !bs[0].used && !bs[1].used {
        DefragOnlyMerges([Merge(bs[0], bs[1])] + bs[2..]);
      } else {
        DefragOnlyMerges(bs[1..]);
        assert Defrag(bs)[1..] == Defrag(bs[1..]);
      }
    }
  }

  /** Neither a defragmentation nor a failed request changes whether the next request
      succeeds, or the address it returns. */
  lemma MergingIsInvisible(bs: seq<Block>, r: nat, failed: nat)
    ensures Alloc(Defrag(bs), r).payload == Alloc(bs, r).payload
    ensures Alloc(bs, failed).payload.None? ==>
              Alloc(Alloc(bs, failed).blocks, r).payload == Alloc(bs, r).payload
  {
    AllocIsPick(bs, r);
    AllocIsPick(Defrag(bs), r);
    DefragSeparates(bs);
    DefragOfSeparated(Defrag(bs));
    if Alloc(bs, failed).payload.None? {
      FailedAllocDefrags(bs, failed);
      AllocIsPick(Alloc(bs, failed).blocks, r);
    }
  }
}
