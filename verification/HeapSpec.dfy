/** The heap as a chain of blocks, in address order (MeOS/mmngr_heap.cpp).

    A block is an eight-byte header followed by its payload.  The functions here say
    what each operation does to the chain; `HeapBytes` and `Heap` tie them to the bytes
    of the heap region. */
module HeapSpec {
  import opened Options

  const HEADER := 8  // sizeof(heap_block) under 1-byte packing

  /** `addr` is the address of the header; the payload is [addr + 8, addr + 8 + size). */
  datatype Block = Block(addr: nat, size: nat, used: bool, flags: bool) {
    function Payload(): nat { addr + HEADER }
    function End(): nat { addr + HEADER + size }
  }

  datatype Allocation = Allocation(blocks: seq<Block>, payload: Option<nat>)

  /** The blocks lie edge to edge from `lo` to `hi`, each with at least one payload byte. */
  ghost predicate Tiles(bs: seq<Block>, lo: nat, hi: nat) {
    if bs == [] then lo == hi
    else bs[0].addr == lo && bs[0].size > 0 && Tiles(bs[1..], bs[0].End(), hi)
  }

  // ----- the operations on the chain

  function Merge(b: Block, c: Block): Block {
    Block(b.addr, b.size + HEADER + c.size, b.used, b.flags)
  }

  /** Front merging: absorb unused successors of the first block until it holds `r` bytes. */
  function MergeFit(bs: seq<Block>, r: nat): seq<Block>
    requires bs != []
    decreases |bs|
  {
    if |bs| > 1 && r > bs[0].size && !bs[1].used
    then MergeFit([Merge(bs[0], bs[1])] + bs[2..], r)
    else bs
  }

  /** Hand out `b` for `r` bytes, leaving the rest as a new unused block when it has room
      for a header and a payload. */
  function Take(b: Block, r: nat): seq<Block> {
    if r + HEADER < b.size
    then [Block(b.addr, r, true, b.flags), Block(b.addr + HEADER + r, b.size - HEADER - r, false, b.flags)]
    else [b.(used := true)]
  }

  function Alloc(bs: seq<Block>, r: nat): Allocation
    decreases |bs|
  {
    if bs == [] then Allocation([], None)
    else if bs[0].used then
      var rest := Alloc(bs[1..], r);
      Allocation([bs[0]] + rest.blocks, rest.payload)
    else
      MergeFitLength(bs, r);
      var m := MergeFit(bs, r);
      if r <= m[0].size then Allocation(Take(m[0], r) + m[1..], Some(m[0].Payload()))
      else
        var rest := Alloc(m[1..], r);
        Allocation([m[0]] + rest.blocks, rest.payload)
  }

  /** Free the block at index `i`, merging it with an unused successor. */
  function Free(bs: seq<Block>, i: nat): seq<Block>
    requires i < |bs|
  {
    var b := bs[i].(used := false);
    if i + 1 < |bs| && !bs[i + 1].used
    then bs[..i] + [Merge(b, bs[i + 1])] + bs[i + 2..]
    else bs[i := b]
  }

  function Defrag(bs: seq<Block>): seq<Block>
    decreases |bs|
  {
    if |bs| <= 1 then bs
    else if !bs[0].used && !bs[1].used then Defrag([Merge(bs[0], bs[1])] + bs[2..])
    else [bs[0]] + Defrag(bs[1..])
  }

  lemma MergeFitLength(bs: seq<Block>, r: nat)
    requires bs != []
    ensures 1 <= |MergeFit(bs, r)| <= |bs|
    ensures MergeFit(bs, r)[0].addr == bs[0].addr && MergeFit(bs, r)[0].used == bs[0].used
    ensures MergeFit(bs, r)[0].flags == bs[0].flags
    decreases |bs|
  {
    if |bs| > 1 && r > bs[0].size && !bs[1].used {
      MergeFitLength([Merge(bs[0], bs[1])] + bs[2..], r);
    }
  }

  // ----- tiling

  lemma {:induction false} TilesConcat(xs: seq<Block>, ys: seq<Block>, lo: nat, mid: nat, hi: nat)
    requires Tiles(xs, lo, mid) && Tiles(ys, mid, hi)
    ensures Tiles(xs + ys, lo, hi)
  {
    if xs == [] {
      assert xs + ys == ys;
    } else {
      assert (xs + ys)[1..] == xs[1..] + ys;
      TilesConcat(xs[1..], ys, xs[0].End(), mid, hi);
    }
  }

  /** The address at which index `i` of the chain starts (`hi` past the last block). */
  function StartOf(bs: seq<Block>, i: nat, hi: nat): nat
    requires i <= |bs|
  {
    if i == |bs| then hi else bs[i].addr
  }

  lemma {:induction false} TilesSplit(bs: seq<Block>, i: nat, lo: nat, hi: nat)
    requires Tiles(bs, lo, hi) && i <= |bs|
    ensures Tiles(bs[..i], lo, StartOf(bs, i, hi)) && Tiles(bs[i..], StartOf(bs, i, hi), hi)
    ensures lo <= StartOf(bs, i, hi) <= hi
    decreases i
  {
    if i == 0 {
      assert bs[0..] == bs && bs[..0] == [];
      TilesBound(bs, lo, hi);
    } else {
      TilesSplit(bs[1..], i - 1, bs[0].End(), hi);
      assert bs[1..][i - 1..] == bs[i..];
      assert bs[..i][1..] == bs[1..][..i - 1];
    }
  }

  lemma {:induction false} TilesBound(bs: seq<Block>, lo: nat, hi: nat)
    requires Tiles(bs, lo, hi)
    ensures lo <= hi && (bs != [] ==> bs[0].End() <= hi)
    decreases |bs|
  {
    if bs != [] { TilesBound(bs[1..], bs[0].End(), hi); }
  }

  /** In a tiling each block ends where the next one starts, inside the region. */
  lemma {:induction false} TilesAt(bs: seq<Block>, i: nat, lo: nat, hi: nat)
    requires Tiles(bs, lo, hi) && i < |bs|
    ensures lo <= bs[i].addr && bs[i].size > 0 && bs[i].End() == StartOf(bs, i + 1, hi) <= hi
  {
    TilesSplit(bs, i, lo, hi);
    TilesSplit(bs, i + 1, lo, hi);
    assert bs[i..][1..] == bs[i + 1..];
    assert bs[i..][0] == bs[i];
    if i + 1 < |bs| {
      assert bs[i + 1..][0] == bs[i + 1];
      assert Tiles(bs[i + 1..], bs[i].End(), hi);
    }
  }

  /** Live payloads never overlap: distinct blocks of a tiling are disjoint, in chain order. */
  lemma {:induction false} TilesOrdered(bs: seq<Block>, i: nat, j: nat, lo: nat, hi: nat)
    requires Tiles(bs, lo, hi) && i < j < |bs|
    ensures bs[i].End() <= bs[j].addr
  {
    TilesAt(bs, i, lo, hi);
    TilesSplit(bs, i + 1, lo, hi);
    var tail := bs[i + 1..];
    TilesAt(tail, j - i - 1, StartOf(bs, i + 1, hi), hi);
    assert tail[j - i - 1] == bs[j];
  }

  lemma {:induction false} MergeFitTiles(bs: seq<Block>, r: nat, lo: nat, hi: nat)
    requires bs != [] && Tiles(bs, lo, hi)
    ensures Tiles(MergeFit(bs, r), lo, hi)
    decreases |bs|
  {
    if |bs| > 1 && r > bs[0].size && !bs[1].used {
      MergeTwoTiles(bs, lo, hi);
      MergeFitTiles([Merge(bs[0], bs[1])] + bs[2..], r, lo, hi);
    }
  }

  lemma MergeTwoTiles(bs: seq<Block>, lo: nat, hi: nat)
    requires |bs| > 1 && Tiles(bs, lo, hi)
    ensures Tiles([Merge(bs[0], bs[1])] + bs[2..], lo, hi)
  {
    assert bs[1..][1..] == bs[2..];
    var m := [Merge(bs[0], bs[1])] + bs[2..];
    assert m[1..] == bs[2..];
  }

  lemma TakeTiles(b: Block, r: nat)
    requires 0 < r <= b.size
    ensures Tiles(Take(b, r), b.addr, b.End())
  {
    var t := Take(b, r);
    if |t| == 2 {
      assert t[1..] == [t[1]] && t[1..][1..] == [];
    } else {
      assert t[1..] == [];
    }
  }

  /** Allocation keeps the tiling, whether it succeeds or not. */
  lemma {:induction false} AllocTiles(bs: seq<Block>, r: nat, lo: nat, hi: nat)
    requires r > 0 && Tiles(bs, lo, hi)
    ensures Tiles(Alloc(bs, r).blocks, lo, hi)
    decreases |bs|
  {
    if bs == [] {
    } else if bs[0].used {
      AllocTiles(bs[1..], r, bs[0].End(), hi);
      var rest := Alloc(bs[1..], r).blocks;
      assert ([bs[0]] + rest)[1..] == rest;
    } else {
      MergeFitLength(bs, r);
      MergeFitTiles(bs, r, lo, hi);
      var m := MergeFit(bs, r);
      if r <= m[0].size {
        TakeTiles(m[0], r);
        TilesConcat(Take(m[0], r), m[1..], lo, m[0].End(), hi);
      } else {
        AllocTiles(m[1..], r, m[0].End(), hi);
        var rest := Alloc(m[1..], r).blocks;
        assert ([m[0]] + rest)[1..] == rest;
      }
    }
  }

  lemma {:induction false} MarkTiles(bs: seq<Block>, i: nat, used: bool, lo: nat, hi: nat)
    requires Tiles(bs, lo, hi) && i < |bs|
    ensures Tiles(bs[i := bs[i].(used := used)], lo, hi)
  {
    var bs' := bs[i := bs[i].(used := used)];
    if i == 0 {
      assert bs'[1..] == bs[1..];
    } else {
      MarkTiles(bs[1..], i - 1, used, bs[0].End(), hi);
      assert bs'[1..] == bs[1..][i - 1 := bs[i].(used := used)];
    }
  }

  lemma MergeTilesAt(bs: seq<Block>, i: nat, lo: nat, hi: nat)
    requires Tiles(bs, lo, hi) && i + 1 < |bs|
    ensures Tiles(bs[..i] + [Merge(bs[i], bs[i + 1])] + bs[i + 2..], lo, hi)
  {
    TilesSplit(bs, i, lo, hi);
    var tail := bs[i..];
    MergeTwoTiles(tail, bs[i].addr, hi);
    var m := [Merge(bs[i], bs[i + 1])] + bs[i + 2..];
    assert m == [Merge(tail[0], tail[1])] + tail[2..];
    TilesConcat(bs[..i], m, lo, bs[i].addr, hi);
    assert bs[..i] + m == bs[..i] + [Merge(bs[i], bs[i + 1])] + bs[i + 2..];
  }

  lemma FreeTiles(bs: seq<Block>, i: nat, lo: nat, hi: nat)
    requires i < |bs| && Tiles(bs, lo, hi)
    ensures Tiles(Free(bs, i), lo, hi)
  {
    hide Tiles;
    var unused := bs[i := bs[i].(used := false)];
    MarkTiles(bs, i, false, lo, hi);
    if i + 1 < |bs| && !bs[i + 1].used {
      MergeTilesAt(unused, i, lo, hi);
      assert unused[..i] == bs[..i] && unused[i + 2..] == bs[i + 2..];
    }
  }

  lemma {:induction false} DefragTiles(bs: seq<Block>, lo: nat, hi: nat)
    requires Tiles(bs, lo, hi)
    ensures Tiles(Defrag(bs), lo, hi)
    decreases |bs|
  {
    if |bs| <= 1 {
    } else if !bs[0].used && !bs[1].used {
      MergeTwoTiles(bs, lo, hi);
      DefragTiles([Merge(bs[0], bs[1])] + bs[2..], lo, hi);
    } else {
      DefragTiles(bs[1..], bs[0].End(), hi);
      var rest := Defrag(bs[1..]);
      assert ([bs[0]] + rest)[1..] == rest;
    }
  }

  // ----- which blocks are live

  function Live(bs: seq<Block>): set<Block> {
    set b | b in bs && b.used
  }

  lemma LiveConcat(xs: seq<Block>, ys: seq<Block>)
    ensures Live(xs + ys) == Live(xs) + Live(ys)
  {
  }

  lemma {:induction false} MergeFitLive(bs: seq<Block>, r: nat)
    requires bs != [] && !bs[0].used
    ensures Live(MergeFit(bs, r)) == Live(bs)
    decreases |bs|
  {
    if |bs| > 1 && r > bs[0].size && !bs[1].used {
      var m := [Merge(bs[0], bs[1])] + bs[2..];
      LiveConcat(bs[..2], bs[2..]);
      assert bs == bs[..2] + bs[2..];
      LiveConcat([Merge(bs[0], bs[1])], bs[2..]);
      assert Live(bs[..2]) == {} == Live([Merge(bs[0], bs[1])]);
      MergeFitLive(m, r);
    }
  }

  /** A successful allocation adds exactly one live block, at least as large as asked and
      at most one header larger; a failed one changes no live block. */
  lemma {:induction false} AllocLive(bs: seq<Block>, r: nat)
    ensures var a := Alloc(bs, r);
            match a.payload
            case None => Live(a.blocks) == Live(bs)
            case Some(p) => exists b: Block :: b.used && b.Payload() == p && r <= b.size <= r + HEADER &&
                                               b in a.blocks && Live(a.blocks) == Live(bs) + {b}
    decreases |bs|
  {
    if bs == [] {
    } else if bs[0].used {
      AllocLive(bs[1..], r);
      LiveConcat([bs[0]], bs[1..]);
      assert bs == [bs[0]] + bs[1..];
      LiveConcat([bs[0]], Alloc(bs[1..], r).blocks);
    } else {
      MergeFitLength(bs, r);
      MergeFitLive(bs, r);
      var m := MergeFit(bs, r);
      LiveConcat([m[0]], m[1..]);
      assert m == [m[0]] + m[1..];
      if r <= m[0].size {
        var t := Take(m[0], r);
        LiveConcat(t, m[1..]);
        assert Live(t) == {t[0]};
        assert t[0] in t + m[1..];
      } else {
        AllocLive(m[1..], r);
        LiveConcat([m[0]], Alloc(m[1..], r).blocks);
      }
    }
  }

  lemma LiveAround(xs: seq<Block>, b: Block, ys: seq<Block>)
    ensures Live(xs + [b] + ys) == Live(xs) + (if b.used then {b} else {}) + Live(ys)
  {
    LiveConcat(xs + [b], ys);
    LiveConcat(xs, [b]);
  }

  lemma NoOtherCopy(bs: seq<Block>, i: nat, lo: nat, hi: nat)
    requires i < |bs| && Tiles(bs, lo, hi)
    ensures bs[i] !in bs[..i] && bs[i] !in bs[i + 1..]
  {
    forall k | 0 <= k < |bs| && k != i ensures bs[k] != bs[i] {
      if k < i { TilesOrdered(bs, k, i, lo, hi); } else { TilesOrdered(bs, i, k, lo, hi); }
    }
  }

  lemma UnusedLive(bs: seq<Block>, i: nat)
    requires i < |bs| && bs[i].used && bs[i] !in bs[..i] && bs[i] !in bs[i + 1..]
    ensures Live(bs[i := bs[i].(used := false)]) == Live(bs) - {bs[i]}
  {
    var b := bs[i].(used := false);
    assert bs == bs[..i] + [bs[i]] + bs[i + 1..];
    assert bs[i := b] == bs[..i] + [b] + bs[i + 1..];
    LiveAround(bs[..i], bs[i], bs[i + 1..]);
    LiveAround(bs[..i], b, bs[i + 1..]);
  }

  lemma MergeLive(bs: seq<Block>, i: nat)
    requires i + 1 < |bs| && !bs[i].used && !bs[i + 1].used
    ensures Live(bs[..i] + [Merge(bs[i], bs[i + 1])] + bs[i + 2..]) == Live(bs)
  {
    assert bs == bs[..i] + [bs[i]] + bs[i + 1..] && bs[i + 1..] == [bs[i + 1]] + bs[i + 2..];
    LiveAround(bs[..i], bs[i], bs[i + 1..]);
    LiveConcat([bs[i + 1]], bs[i + 2..]);
    LiveAround(bs[..i], Merge(bs[i], bs[i + 1]), bs[i + 2..]);
    assert Live([bs[i + 1]]) == {};
  }

  /** Freeing removes exactly the freed block from the live ones. */
  lemma FreeLive(bs: seq<Block>, i: nat, lo: nat, hi: nat)
    requires i < |bs| && bs[i].used && Tiles(bs, lo, hi)
    ensures Live(Free(bs, i)) == Live(bs) - {bs[i]}
  {
    hide Live, Tiles;
    var unused := bs[i := bs[i].(used := false)];
    NoOtherCopy(bs, i, lo, hi);
    UnusedLive(bs, i);
    if i + 1 < |bs| && !bs[i + 1].used {
      MergeLive(unused, i);
      assert unused[..i] == bs[..i] && unused[i + 2..] == bs[i + 2..];
    }
  }

  /** Freeing leaves the block unused where it is and takes an unused successor, header included,
      into it; a used successor, or none, leaves its size as it was.  No other block changes. */
  lemma FreeEffect(bs: seq<Block>, i: nat, lo: nat, hi: nat)
    requires i < |bs| && Tiles(bs, lo, hi)
    ensures var r := Free(bs, i);
            var merged := i + 1 < |bs| && !bs[i + 1].used;
            && |r| == |bs| - (if merged then 1 else 0)
            && !r[i].used && r[i].addr == bs[i].addr && r[i].flags == bs[i].flags
            && r[i].End() == (if merged then bs[i + 1].End() else bs[i].End())
            && r[..i] == bs[..i] && r[i + 1..] == bs[if merged then i + 2 else i + 1..]
  {
    TilesAt(bs, i, lo, hi);
    if i + 1 < |bs| { TilesAt(bs, i + 1, lo, hi); }
  }

  ghost predicate AllFlags(bs: seq<Block>, flags: bool) {
    forall b :: b in bs ==> b.flags == flags
  }

  lemma {:induction false} AllocFlags(bs: seq<Block>, r: nat, flags: bool)
    requires AllFlags(bs, flags)
    ensures AllFlags(Alloc(bs, r).blocks, flags)
    decreases |bs|
  {
    if bs == [] {
    } else if bs[0].used {
      AllocFlags(bs[1..], r, flags);
    } else {
      MergeFitLength(bs, r);
      MergeFitFlags(bs, r, flags);
      var m := MergeFit(bs, r);
      assert m[0] in m;
      if r > m[0].size { AllocFlags(m[1..], r, flags); }
    }
  }

  lemma {:induction false} MergeFitFlags(bs: seq<Block>, r: nat, flags: bool)
    requires bs != [] && AllFlags(bs, flags)
    ensures AllFlags(MergeFit(bs, r), flags)
    decreases |bs|
  {
    if |bs| > 1 && r > bs[0].size && !bs[1].used {
      assert bs[0] in bs;
      MergeFitFlags([Merge(bs[0], bs[1])] + bs[2..], r, flags);
    }
  }

  lemma {:induction false} DefragFlags(bs: seq<Block>, flags: bool)
    requires AllFlags(bs, flags)
    ensures AllFlags(Defrag(bs), flags)
    decreases |bs|
  {
    if |bs| > 1 {
      assert bs[0] in bs;
      if !bs[0].used && !bs[1].used {
        DefragFlags([Merge(bs[0], bs[1])] + bs[2..], flags);
      } else {
        DefragFlags(bs[1..], flags);
      }
    }
  }

  lemma {:induction false} DefragLive(bs: seq<Block>)
    ensures Live(Defrag(bs)) == Live(bs)
    decreases |bs|
  {
    if |bs| <= 1 {
    } else if !bs[0].used && !bs[1].used {
      var m := [Merge(bs[0], bs[1])] + bs[2..];
      assert bs == bs[..2] + bs[2..];
      LiveConcat(bs[..2], bs[2..]);
      LiveConcat([Merge(bs[0], bs[1])], bs[2..]);
      assert Live(bs[..2]) == {} == Live([Merge(bs[0], bs[1])]);
      DefragLive(m);
    } else {
      assert bs == [bs[0]] + bs[1..];
      LiveConcat([bs[0]], bs[1..]);
      LiveConcat([bs[0]], Defrag(bs[1..]));
      DefragLive(bs[1..]);
    }
  }
}
