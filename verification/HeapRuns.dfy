/** Whole runs of heap operations, on chains and on the bytes of live payloads. */
module HeapRuns {
  import opened Options
  import opened HeapSpec

  type byte = x: int | 0 <= x < 256

  /** `Store` is a user writing one byte inside a payload it owns. */
  datatype Op = AllocOp(r: nat) | FreeOp(a: nat) | ReallocOp(a: nat, n: nat) | DefragOp | StoreOp(a: nat, v: byte)

  ghost predicate IsLive(bs: seq<Block>, a: nat) {
    exists b :: b in Live(bs) && b.Payload() == a
  }

  /** Position in the chain of the block whose payload starts at `a`. */
  ghost function IndexOf(bs: seq<Block>, a: nat): (i: nat)
    requires IsLive(bs, a)
    ensures i < |bs| && bs[i].used && bs[i].Payload() == a
  {
    var b :| b in Live(bs) && b.Payload() == a;
    var i :| 0 <= i < |bs| && bs[i] == b;
    i
  }

  ghost function Realloc(bs: seq<Block>, a: nat, n: nat): Allocation
    requires IsLive(bs, a)
  {
    var i := IndexOf(bs, a);
    if bs[i].size == n then Allocation(bs, Some(a))
    else if n == 0 then Allocation(bs, None)
    else
      var got := Alloc(bs, n);
      AllocLive(bs, n);
      if got.payload.None? then got
      else
        assert bs[i] in Live(bs) && bs[i] in Live(got.blocks);
        assert IsLive(got.blocks, a);
        Allocation(Free(got.blocks, IndexOf(got.blocks, a)), got.payload)
  }

  /** What callers promise: frees and reallocations name live payloads, and so do stores. */
  ghost predicate Legal(bs: seq<Block>, op: Op) {
    match op
    case FreeOp(a) => IsLive(bs, a)
    case ReallocOp(a, _) => IsLive(bs, a)
    case StoreOp(a, _) => exists b :: b in Live(bs) && b.Payload() <= a < b.End()
    case _ => true
  }

  ghost function Apply(bs: seq<Block>, op: Op): seq<Block>
    requires Legal(bs, op)
  {
    match op
    case AllocOp(r) => if r == 0 then bs else Alloc(bs, r).blocks
    case FreeOp(a) => Free(bs, IndexOf(bs, a))
    case ReallocOp(a, n) => Realloc(bs, a, n).blocks
    case DefragOp => Defrag(bs)
    case StoreOp(_, _) => bs
  }

  /** The block whose ownership `op` ends, if it names `b`. */
  ghost predicate Releases(op: Op, b: Block) {
    (op.FreeOp? && op.a == b.Payload()) || (op.ReallocOp? && op.a == b.Payload())
  }

  lemma LiveAtMostOnce(bs: seq<Block>, b: Block, a: nat, lo: nat, hi: nat)
    requires Tiles(bs, lo, hi) && b in Live(bs) && b.Payload() == a
    ensures IsLive(bs, a) && bs[IndexOf(bs, a)] == b
  {
    var i := IndexOf(bs, a);
    var j :| 0 <= j < |bs| && bs[j] == b;
    if i < j { TilesOrdered(bs, i, j, lo, hi); }
    if j < i { TilesOrdered(bs, j, i, lo, hi); }
  }

  /** Every operation keeps the tiling. */
  lemma ApplyTiles(bs: seq<Block>, op: Op, lo: nat, hi: nat)
    requires Tiles(bs, lo, hi) && Legal(bs, op)
    ensures Tiles(Apply(bs, op), lo, hi)
  {
    match op
    case AllocOp(r) => if r != 0 { AllocTiles(bs, r, lo, hi); }
    case FreeOp(a) => FreeTiles(bs, IndexOf(bs, a), lo, hi);
    case ReallocOp(a, n) =>
      if n != 0 && bs[IndexOf(bs, a)].size != n {
        AllocTiles(bs, n, lo, hi);
        AllocLive(bs, n);
        var got := Alloc(bs, n);
        if got.payload.Some? {
          assert bs[IndexOf(bs, a)] in Live(got.blocks);
          FreeTiles(got.blocks, IndexOf(got.blocks, a), lo, hi);
        }
      }
    case DefragOp => DefragTiles(bs, lo, hi);
    case StoreOp(_, _) =>
  }

  /** A live block stays live, in place and at its size, until it is freed or reallocated. */
  lemma ApplyKeepsLive(bs: seq<Block>, op: Op, b: Block, lo: nat, hi: nat)
    requires Tiles(bs, lo, hi) && Legal(bs, op) && b in Live(bs) && !Releases(op, b)
    ensures b in Live(Apply(bs, op))
  {
    match op
    case AllocOp(r) => AllocLive(bs, r);
    case FreeOp(a) => FreeLive(bs, IndexOf(bs, a), lo, hi);
    case ReallocOp(a, n) =>
      AllocLive(bs, n);
      var got := Alloc(bs, n);
      if n != 0 && bs[IndexOf(bs, a)].size != n && got.payload.Some? {
        AllocTiles(bs, n, lo, hi);
        assert bs[IndexOf(bs, a)] in Live(got.blocks);
        FreeLive(got.blocks, IndexOf(got.blocks, a), lo, hi);
      }
    case DefragOp => DefragLive(bs);
    case StoreOp(_, _) =>
  }

  /** A reallocation that fails leaves the old block live; one that succeeds hands out a
      block of at least `n` bytes and, when it moved, ends the old block's life. */
  lemma ReallocLive(bs: seq<Block>, a: nat, n: nat, lo: nat, hi: nat)
    requires Tiles(bs, lo, hi) && IsLive(bs, a)
    ensures var b, got := bs[IndexOf(bs, a)], Realloc(bs, a, n);
            match got.payload
            case None => Live(got.blocks) == Live(bs)
            case Some(p) =>
              exists c: Block :: c.used && c.Payload() == p && n <= c.size &&
                          Live(got.blocks) == Live(bs) - {b} + {c}
  {
    var i := IndexOf(bs, a);
    var b := bs[i];
    if b.size == n {
      assert Live(bs) == Live(bs) - {b} + {b};
    } else if n != 0 {
      AllocLive(bs, n);
      AllocTiles(bs, n, lo, hi);
      var got := Alloc(bs, n);
      if got.payload.Some? {
        var c: Block :| c.used && c.Payload() == got.payload.value && n <= c.size && c in got.blocks
                        && Live(got.blocks) == Live(bs) + {c};
        assert b in Live(got.blocks);
        LiveAtMostOnce(got.blocks, b, a, lo, hi);
        FreeLive(got.blocks, IndexOf(got.blocks, a), lo, hi);
        FreshPayload(bs, n, lo, hi);
        assert Live(got.blocks) - {b} == Live(bs) - {b} + {c};
      }
    }
  }

  /** Where a reallocation ends up: where it was when the size is the same, nowhere for none, and
      otherwise where an allocation of the new size would, never where it was. */
  lemma ReallocGets(bs: seq<Block>, a: nat, n: nat, lo: nat, hi: nat)
    requires Tiles(bs, lo, hi) && IsLive(bs, a)
    ensures var size, got := bs[IndexOf(bs, a)].size, Realloc(bs, a, n);
            && got.payload == (if n == size then Some(a) else if n == 0 then None else Alloc(bs, n).payload)
            && (n == size || n == 0 ==> got.blocks == bs)
            && (n != size && got.payload.Some? ==> got.payload != Some(a) && !IsLive(got.blocks, a))
  {
    var i := IndexOf(bs, a);
    if bs[i].size != n && n != 0 && Alloc(bs, n).payload.Some? {
      FreshPayload(bs, n, lo, hi);
      AllocLive(bs, n);
      AllocTiles(bs, n, lo, hi);
      var got := Alloc(bs, n).blocks;
      assert bs[i] in Live(got);
      LiveAtMostOnce(got, bs[i], a, lo, hi);
      FreeLive(got, IndexOf(got, a), lo, hi);
      var r := Free(got, IndexOf(got, a));
      if b :| b in Live(r) && b.Payload() == a { LiveAtMostOnce(got, b, a, lo, hi); }
    }
  }

  /** No operation changes a block's flags. */
  lemma ApplyFlags(bs: seq<Block>, op: Op, flags: bool)
    requires Legal(bs, op) && AllFlags(bs, flags)
    ensures AllFlags(Apply(bs, op), flags)
  {
    match op
    case AllocOp(r) => AllocFlags(bs, r, flags);
    case FreeOp(a) => FreeFlags(bs, IndexOf(bs, a), flags);
    case ReallocOp(a, n) =>
      AllocFlags(bs, n, flags);
      AllocLive(bs, n);
      var got := Alloc(bs, n);
      if n != 0 && bs[IndexOf(bs, a)].size != n && got.payload.Some? {
        assert bs[IndexOf(bs, a)] in Live(got.blocks);
        FreeFlags(got.blocks, IndexOf(got.blocks, a), flags);
      }
    case DefragOp => DefragFlags(bs, flags);
    case StoreOp(_, _) =>
  }

  lemma FreeFlags(bs: seq<Block>, i: nat, flags: bool)
    requires i < |bs| && AllFlags(bs, flags)
    ensures AllFlags(Free(bs, i), flags)
  {
    assert bs[i] in bs;
  }

  /** The payload handed out by an allocation was not live before. */
  lemma {:induction false} FreshPayload(bs: seq<Block>, r: nat, lo: nat, hi: nat)
    requires Tiles(bs, lo, hi) && Alloc(bs, r).payload.Some?
    ensures !IsLive(bs, Alloc(bs, r).payload.value)
    decreases |bs|
  {
    var p := Alloc(bs, r).payload.value;
    if bs != [] {
      forall k | 0 <= k < |bs| && bs[k].used ensures bs[k].Payload() != p {
        if bs[0].used {
          FreshPayload(bs[1..], r, bs[0].End(), hi);
          if k > 0 {
            assert bs[k] == bs[1..][k - 1] && bs[k] in Live(bs[1..]);
          } else {
            PayloadBehind(bs[1..], r, bs[0].End(), hi);
          }
        } else {
          FreshBehindMerge(bs, r, k, lo, hi);
        }
      }
    }
  }

  lemma FreshBehindMerge(bs: seq<Block>, r: nat, k: nat, lo: nat, hi: nat)
    requires Tiles(bs, lo, hi) && k < |bs| && bs[k].used && !bs[0].used
    requires Alloc(bs, r).payload.Some?
    ensures bs[k].Payload() != Alloc(bs, r).payload.value
    decreases |bs|, 0
  {
    MergeFitLength(bs, r);
    MergeFitLive(bs, r);
    MergeFitTiles(bs, r, lo, hi);
    var m := MergeFit(bs, r);
    assert bs[k] in Live(bs);
    var x :| 0 <= x < |m| && m[x] == bs[k];
    TilesOrdered(m, 0, x, lo, hi);
    if r > m[0].size {
      FreshPayload(m[1..], r, m[0].End(), hi);
      assert m[1..][x - 1] == bs[k] && bs[k] in Live(m[1..]);
    }
  }

  lemma {:induction false} PayloadBehind(bs: seq<Block>, r: nat, lo: nat, hi: nat)
    requires Tiles(bs, lo, hi) && Alloc(bs, r).payload.Some?
    ensures Alloc(bs, r).payload.value >= lo + HEADER
    decreases |bs|
  {
    if bs[0].used {
      PayloadBehind(bs[1..], r, bs[0].End(), hi);
    } else {
      MergeFitLength(bs, r);
      MergeFitTiles(bs, r, lo, hi);
      var m := MergeFit(bs, r);
      if r > m[0].size { PayloadBehind(m[1..], r, m[0].End(), hi); }
    }
  }

  // ----- runs over chain and bytes together

  datatype View = View(mem: seq<byte>, blocks: seq<Block>)

  ghost predicate InRegion(bs: seq<Block>, base: nat, mem: seq<byte>) {
    Tiles(bs, base, base + |mem|)
  }

  ghost function Bytes(mem: seq<byte>, base: nat, b: Block): seq<byte>
    requires base <= b.addr && b.End() <= base + |mem|
  {
    mem[b.Payload() - base..b.End() - base]
  }

  lemma LiveInRegion(bs: seq<Block>, base: nat, mem: seq<byte>, b: Block)
    requires InRegion(bs, base, mem) && b in Live(bs)
    ensures base <= b.addr && b.End() <= base + |mem|
  {
    var i :| 0 <= i < |bs| && bs[i] == b;
    TilesAt(bs, i, base, base + |mem|);
  }

  /** No byte of these payloads differs between the two memories. */
  ghost predicate PayloadsKept(live: set<Block>, base: nat, m: seq<byte>, m': seq<byte>) {
    && |m'| == |m|
    && forall b | b in live && base <= b.addr && b.End() <= base + |m| :: Bytes(m', base, b) == Bytes(m, base, b)
  }

  /** The live blocks that `op` does not release. */
  ghost function Untouched(bs: seq<Block>, op: Op): set<Block> {
    set b | b in Live(bs) && !Releases(op, b)
  }

  /** One step of the heap: the chain changes as `Apply` says and no live payload is
      touched, except by its own user's store or once it has been released. */
  ghost predicate Step(base: nat, s: View, op: Op, s': View) {
    && Legal(s.blocks, op)
    && s'.blocks == Apply(s.blocks, op)
    && if op.StoreOp? then base <= op.a < base + |s.mem| && s'.mem == s.mem[op.a - base := op.v]
       else PayloadsKept(Untouched(s.blocks, op), base, s.mem, s'.mem)
  }

  ghost predicate IsRun(base: nat, vs: seq<View>, ops: seq<Op>) {
    |vs| == |ops| + 1 && forall k :: 0 <= k < |ops| ==> Step(base, vs[k], ops[k], vs[k + 1])
  }

  ghost predicate Stores(op: Op, b: Block) {
    op.StoreOp? && b.Payload() <= op.a < b.End()
  }

  /** Over every run: the chain tiles the region at each point, and a payload that its owner
      neither releases nor stores to stays live where it is and keeps all its bytes. */
  lemma {:induction false} RunKeepsPayload(base: nat, vs: seq<View>, ops: seq<Op>, b: Block)
    requires IsRun(base, vs, ops) && InRegion(vs[0].blocks, base, vs[0].mem) && b in Live(vs[0].blocks)
    requires forall k :: 0 <= k < |ops| ==> !Releases(ops[k], b) && !Stores(ops[k], b)
    ensures var v := vs[|ops|];
            InRegion(v.blocks, base, v.mem) && |v.mem| == |vs[0].mem| && b in Live(v.blocks)
            && base <= b.addr && b.End() <= base + |v.mem|
            && Bytes(v.mem, base, b) == Bytes(vs[0].mem, base, b)
    decreases |ops|
  {
    LiveInRegion(vs[0].blocks, base, vs[0].mem, b);
    if ops != [] {
      var n := |ops| - 1;
      RunKeepsPayload(base, vs[..n + 1], ops[..n], b);
      var s, s', op := vs[n], vs[n + 1], ops[n];
      assert Step(base, s, op, s');
      ApplyTiles(s.blocks, op, base, base + |s.mem|);
      ApplyKeepsLive(s.blocks, op, b, base, base + |s.mem|);
      if op.StoreOp? {
        assert Bytes(s'.mem, base, b) == Bytes(s.mem, base, b);
      }
    }
  }
}
