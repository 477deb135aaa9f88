/** The allocator itself, over the bytes of its region (MeOS/mmngr_heap.cpp). */
module HeapAllocator {
  import opened Options
  import opened HeapSpec
  import opened HeapRuns
  import opened HeapBytes

  datatype Status = Ok | BadArgument | BadMagic

  const MASTER := 12  // sizeof(heap): start_address, size, current_blocks

  lemma KeptSubset(live: set<Block>, live': set<Block>, base: nat, m0: seq<byte>, m1: seq<byte>)
    requires PayloadsKept(live, base, m0, m1) && live' <= live
    ensures PayloadsKept(live', base, m0, m1)
  {
  }

  lemma KeptReflexive(live: set<Block>, base: nat, m: seq<byte>)
    ensures PayloadsKept(live, base, m, m)
  {
  }

  lemma KeptTransitive(live: set<Block>, live': set<Block>, base: nat, m0: seq<byte>, m1: seq<byte>, m2: seq<byte>)
    requires PayloadsKept(live, base, m0, m1) && PayloadsKept(live', base, m1, m2) && live <= live'
    ensures PayloadsKept(live, base, m0, m2)
  {
  }

  class Heap {
    const startAddress: nat
    const size: nat
    const mem: array<byte>  // the byte at address a is mem[a - startAddress]
    var currentBlocks: nat
    ghost var blocks: seq<Block>

    ghost predicate Valid()
      reads this, mem
    {
      && mem.Length == size && blocks != [] && currentBlocks == |blocks|
      && Encodes(mem[..], startAddress, blocks)
    }

    ghost function View(): View
      reads this, mem
    {
      HeapRuns.View(mem[..], blocks)
    }

    // ----- header fields

    predicate HasHeader(b: nat) {
      startAddress <= b && b - startAddress + HEADER <= mem.Length
    }

    function MagicOk(b: nat): bool
      requires HasHeader(b)
      reads mem
    {
      mem[b - startAddress] == MAGIC_LOW && mem[b - startAddress + 1] == MAGIC_HIGH
    }

    /** No block header stands before the address. */
    predicate IsBadMagic(address: nat)
      reads mem
    {
      address >= HEADER && HasHeader(address - HEADER) && !MagicOk(address - HEADER)
    }

    function Used(b: nat): bool
      requires HasHeader(b)
      reads mem
    {
      mem[b - startAddress + 2] != 0
    }

    function Flags(b: nat): bool
      requires HasHeader(b)
      reads mem
    {
      mem[b - startAddress + 3] != 0
    }

    function NextOf(b: nat): nat
      requires HasHeader(b)
      reads mem
    {
      U32(mem[b - startAddress + 4..b - startAddress + 8])
    }

    /** heap_block_size, in 32-bit arithmetic. */
    function BlockSize(b: nat): nat
      requires HasHeader(b)
      reads mem
    {
      if NextOf(b) == 0 then (startAddress + size - b - HEADER) % WORD
      else (NextOf(b) - b - HEADER) % WORD
    }

    lemma HeaderFields(i: nat)
      requires Valid() && i < |blocks|
      ensures var b := blocks[i];
              HasHeader(b.addr) && MagicOk(b.addr) && Used(b.addr) == b.used && Flags(b.addr) == b.flags &&
              NextOf(b.addr) == Next(blocks, i) && BlockSize(b.addr) == b.size
      ensures Next(blocks, i) == 0 <==> i + 1 == |blocks|
      ensures blocks[i].addr > 0 && blocks[i].End() <= startAddress + size <= WORD
      ensures blocks[0].addr == startAddress
    {
      ReadHeader(mem[..], startAddress, blocks, i);
      var o := blocks[i].addr - startAddress;
      assert mem[..][o + 4..o + 8] == mem[o + 4..o + 8];
      TilesAt(blocks, i, startAddress, startAddress + size);
      if i + 1 < |blocks| { TilesAt(blocks, i + 1, startAddress, startAddress + size); }
    }

    lemma LiveHeader(address: nat)
      requires Valid() && IsLive(blocks, address)
      ensures address > HEADER && HasHeader(address - HEADER) && !IsBadMagic(address)
    {
      hide Encodes;
      HeaderFields(IndexOf(blocks, address));
    }

    method WriteBytes(o: nat, s: seq<byte>)
      requires o + |s| <= mem.Length
      modifies mem
      ensures mem[..] == Splice(old(mem[..]), o, s)
    {
      forall k | 0 <= k < |s| { mem[o + k] := s[k]; }
    }

    constructor Create(base: nat, total: nat)
      requires MASTER + HEADER < total && base + total <= WORD
      ensures Valid() && fresh(mem)
      ensures startAddress == base + MASTER && size == total - MASTER
      ensures blocks == [Block(base + MASTER, total - MASTER - HEADER, false, false)]
    {
      startAddress := base + MASTER;
      size := total - MASTER;
      mem := new byte[total - MASTER](_ => 0);
      currentBlocks := 0;
      new;
      CreateBlock(startAddress, false, 0);
      blocks := [Block(startAddress, size - HEADER, false, false)];
      FirstBlock(mem[..], startAddress);
    }

    static lemma FirstBlock(m: seq<byte>, base: nat)
      requires |m| > HEADER && 0 < base && base + |m| <= WORD && m[0..HEADER] == Header(false, false, 0)
      ensures Encodes(m, base, [Block(base, |m| - HEADER, false, false)])
    {
      var bs := [Block(base, |m| - HEADER, false, false)];
      hide Header;
      assert bs[1..] == [];
      assert Tiles(bs[1..], bs[0].End(), base + |m|);
      assert Tiles(bs, base, base + |m|);
      assert HeaderAt(m, base, bs, 0);
    }

    /** heap_block_create: write a fresh unused header at `b`. */
    method CreateBlock(b: nat, flags: bool, next: nat)
      requires HasHeader(b)
      modifies this`currentBlocks, mem
      ensures mem[..] == Splice(old(mem[..]), b - startAddress, Header(false, flags, next))
      ensures currentBlocks == old(currentBlocks) + 1
    {
      WriteBytes(b - startAddress, Header(false, flags, next));
      currentBlocks := currentBlocks + 1;
    }

    /** Merge block `i` with its successor. */
    method FrontMergeBlock(b: nat, ghost i: nat)
      requires Valid() && i + 1 < |blocks| && blocks[i].addr == b
      modifies this, mem
      ensures Valid()
      ensures blocks == old(blocks[..i] + [Merge(blocks[i], blocks[i + 1])] + blocks[i + 2..])
      ensures PayloadsKept(old(Live(blocks)), startAddress, old(mem[..]), mem[..])
    {
      hide Encodes, Splice, PayloadsKept;
      HeaderFields(i);
      HeaderFields(i + 1);
      ghost var m := mem[..];
      var next := NextOf(NextOf(b));
      WriteBytes(b - startAddress + 4, U32Bytes(next));
      currentBlocks := currentBlocks - 1;
      MergeDone(m, startAddress, blocks, i, b, next, mem[..]);
      blocks := blocks[..i] + [Merge(blocks[i], blocks[i + 1])] + blocks[i + 2..];
    }

    static lemma MergeDone(m: seq<byte>, base: nat, bs: seq<Block>, i: nat, b: nat, next: nat, m': seq<byte>)
      requires Encodes(m, base, bs) && i + 1 < |bs| && b == bs[i].addr && next == Next(bs, i + 1)
      requires base <= b && b - base + 8 <= |m| && m' == Splice(m, b - base + 4, U32Bytes(next))
      ensures Encodes(m', base, bs[..i] + [Merge(bs[i], bs[i + 1])] + bs[i + 2..])
      ensures PayloadsKept(Live(bs), base, m, m')
      ensures |bs[..i] + [Merge(bs[i], bs[i + 1])] + bs[i + 2..]| == |bs| - 1
    {
      hide Splice, PayloadsKept;
      TilesAt(bs, i, base, base + |m|);
      EncodesMerge(m, base, bs, i);
      SpliceKeepsPayloads(m, base, bs, i, b - base + 4, U32Bytes(next));
    }

    method MarkUsed(b: nat, used: bool, ghost i: nat)
      requires Valid() && i < |blocks| && blocks[i].addr == b
      modifies this, mem
      ensures Valid()
      ensures blocks == old(blocks[i := blocks[i].(used := used)])
      ensures PayloadsKept(old(Live(blocks)), startAddress, old(mem[..]), mem[..])
    {
      hide Splice, PayloadsKept;
      HeaderFields(i);
      EncodesMark(mem[..], startAddress, blocks, i, used);
      SpliceKeepsPayloads(mem[..], startAddress, blocks, i, b - startAddress + 2, [Bit(used)]);
      WriteBytes(b - startAddress + 2, [Bit(used)]);
      blocks := blocks[i := blocks[i].(used := used)];
    }

    /** Squeeze a new unused block into the tail of block `i`. */
    method SplitBlock(b: nat, r: nat, ghost i: nat)
      requires Valid() && i < |blocks| && blocks[i].addr == b && !blocks[i].used
      requires 0 < r && r + HEADER < blocks[i].size
      modifies this, mem
      ensures Valid()
      ensures blocks == Cut(old(blocks), i, r)
      ensures PayloadsKept(old(Live(blocks)), startAddress, old(mem[..]), mem[..])
    {
      hide Encodes, Splice, Cut, PayloadsKept;
      HeaderFields(i);
      ghost var m, bs := mem[..], blocks;
      var flags, next := Flags(b), NextOf(b);
      InsertHeader(b, b + HEADER + r, flags, next);
      CutDone(m, startAddress, bs, i, r, b, flags, next, mem[..]);
      blocks := Cut(bs, i, r);
    }

    /** The two writes of a split: a new block at `at`, then block `b`'s link to it. */
    method InsertHeader(b: nat, at: nat, flags: bool, next: nat)
      requires HasHeader(b) && HasHeader(at)
      modifies this`currentBlocks, mem
      ensures mem[..] ==
                Splice(Splice(old(mem[..]), at - startAddress, Header(false, flags, next)), b - startAddress + 4,
                U32Bytes(at))
      ensures currentBlocks == old(currentBlocks) + 1
    {
      CreateBlock(at, flags, next);
      WriteBytes(b - startAddress + 4, U32Bytes(at));
    }

    static lemma CutDone(m: seq<byte>, base: nat, bs: seq<Block>, i: nat, r: nat, b: nat, flags: bool, next: nat,
                         m': seq<byte>)
      requires Encodes(m, base, bs) && i < |bs| && !bs[i].used && 0 < r && r + HEADER < bs[i].size
      requires base <= bs[i].addr && bs[i].End() - base <= |m|
      requires b == bs[i].addr && flags == bs[i].flags && next == Next(bs, i)
      requires m' ==
                 Splice(Splice(m, b + HEADER + r - base, Header(false, flags, next)), b - base + 4,
                 U32Bytes(b + HEADER + r))
      ensures Encodes(m', base, Cut(bs, i, r)) && PayloadsKept(Live(bs), base, m, m')
      ensures |Cut(bs, i, r)| == |bs| + 1
    {
      hide Splice, PayloadsKept;
      EncodesCut(m, base, bs, i, r);
      CutKeepsPayloads(m, base, bs, i, r);
      assert bs[i].addr + HEADER + r - base == bs[i].addr - base + HEADER + r;
    }

    static lemma CutKeepsPayloads(m: seq<byte>, base: nat, bs: seq<Block>, i: nat, r: nat)
      requires Tiles(bs, base, base + |m|) && i < |bs| && !bs[i].used && r + HEADER < bs[i].size
      requires base <= bs[i].addr && bs[i].End() - base <= |m|
      ensures PayloadsKept(Live(bs), base, m, CutBytes(m, base, bs, i, r))
    {
      TwoSplicesKeepPayloads(m, base, bs, i,
                             bs[i].addr - base + HEADER + r, Header(false, bs[i].flags, Next(bs, i)),
                             bs[i].addr - base + 4, U32Bytes(bs[i].addr + HEADER + r));
    }

    static lemma TwoSplicesKeepPayloads(m: seq<byte>, base: nat, bs: seq<Block>, i: nat,
                                        o1: nat, s1: seq<byte>, o2: nat, s2: seq<byte>)
      requires Tiles(bs, base, base + |m|) && i < |bs| && !bs[i].used && bs[i].End() - base <= |m|
      requires bs[i].addr - base <= o1 && o1 + |s1| <= bs[i].End() - base
      requires bs[i].addr - base <= o2 && o2 + |s2| <= bs[i].End() - base
      ensures PayloadsKept(Live(bs), base, m, Splice(Splice(m, o1, s1), o2, s2))
    {
      SpliceKeepsPayloads(m, base, bs, i, o1, s1);
      SpliceKeepsPayloads(Splice(m, o1, s1), base, bs, i, o2, s2);
      KeptTransitive(Live(bs), Live(bs), base, m, Splice(m, o1, s1), Splice(Splice(m, o1, s1), o2, s2));
    }

    method FrontMergeSizeFit(b: nat, r: nat, ghost i: nat) returns (fit: bool)
      requires Valid() && i < |blocks| && blocks[i].addr == b && !blocks[i].used
      modifies this, mem
      ensures Valid()
      ensures blocks == old(blocks[..i] + MergeFit(blocks[i..], r))
      ensures i < |blocks| && blocks[i].addr == b && !blocks[i].used
      ensures fit <==> r <= blocks[i].size
      ensures Live(blocks) == old(Live(blocks))
      ensures PayloadsKept(old(Live(blocks)), startAddress, old(mem[..]), mem[..])
    {
      hide Encodes, PayloadsKept, Live;
      HeaderFields(i);
      KeptReflexive(Live(blocks), startAddress, mem[..]);
      while NextOf(b) != 0 && r > BlockSize(b)
        invariant Valid() && i < |blocks| && blocks[i].addr == b && !blocks[i].used && HasHeader(b)
        invariant blocks[..i] == old(blocks[..i])
        invariant MergeFit(blocks[i..], r) == old(MergeFit(blocks[i..], r))
        invariant Live(blocks) == old(Live(blocks))
        invariant PayloadsKept(old(Live(blocks)), startAddress, old(mem[..]), mem[..])
        decreases |blocks|
      {
        HeaderFields(i);
        HeaderFields(i + 1);
        if Used(NextOf(b)) { break; }
        ghost var bs, m := blocks, mem[..];
        FrontMergeBlock(b, i);
        MergeLive(bs, i);
        MergedTail(bs, i, r);
        KeptTransitive(old(Live(blocks)), Live(bs), startAddress, old(mem[..]), m, mem[..]);
      }
      HeaderFields(i);
      assert MergeFit(blocks[i..], r) == blocks[i..];
      assert blocks == blocks[..i] + blocks[i..];
      return r <= BlockSize(b);
    }

    static lemma MergedTail(bs: seq<Block>, i: nat, r: nat)
      requires i + 1 < |bs| && !bs[i + 1].used && r > bs[i].size
      ensures var bs' := bs[..i] + [Merge(bs[i], bs[i + 1])] + bs[i + 2..];
              bs'[..i] == bs[..i] && MergeFit(bs'[i..], r) == MergeFit(bs[i..], r)
    {
      var bs' := bs[..i] + [Merge(bs[i], bs[i + 1])] + bs[i + 2..];
      assert bs'[i..] == [Merge(bs[i], bs[i + 1])] + bs[i + 2..];
      assert bs[i..][2..] == bs[i + 2..];
    }

    /** Hand out block `i`, splitting off what is left over. */
    method TakeBlock(b: nat, r: nat, ghost i: nat)
      requires Valid() && i < |blocks| && blocks[i].addr == b && !blocks[i].used && 0 < r <= blocks[i].size
      modifies this, mem
      ensures Valid()
      ensures blocks == old(blocks[..i] + Take(blocks[i], r) + blocks[i + 1..])
      ensures PayloadsKept(old(Live(blocks)), startAddress, old(mem[..]), mem[..])
    {
      hide Encodes, PayloadsKept, Live;
      HeaderFields(i);
      if (r + HEADER) % WORD < BlockSize(b) {
        ghost var bs, m := blocks, mem[..];
        SplitBlock(b, r, i);
        ghost var bs1, m1 := blocks, mem[..];
        CutLive(bs, i, r);
        MarkUsed(b, true, i);
        KeptTransitive(Live(bs), Live(bs1), startAddress, m, m1, mem[..]);
      } else {
        MarkUsed(b, true, i);
      }
    }

    static lemma CutLive(bs: seq<Block>, i: nat, r: nat)
      requires i < |bs| && !bs[i].used && r + HEADER < bs[i].size
      ensures Live(Cut(bs, i, r)) == Live(bs)
    {
      var b := bs[i];
      var two := [b.(size := r), Block(b.addr + HEADER + r, b.size - HEADER - r, false, b.flags)];
      assert bs == bs[..i] + [b] + bs[i + 1..];
      LiveConcat(bs[..i] + [b], bs[i + 1..]);
      LiveConcat(bs[..i], [b]);
      LiveConcat(bs[..i] + two, bs[i + 1..]);
      LiveConcat(bs[..i], two);
      assert Live(two) == {} == Live([b]);
    }

    /** Serve the request from unused block `i` if front merging makes it large enough. */
    method TryBlock(b: nat, r: nat, ghost i: nat) returns (fit: bool)
      requires Valid() && i < |blocks| && blocks[i].addr == b && !blocks[i].used && 0 < r
      modifies this, mem
      ensures Valid() && PayloadsKept(old(Live(blocks)), startAddress, old(mem[..]), mem[..])
      ensures fit ==> blocks == old(blocks[..i] + HeapSpec.Alloc(blocks[i..], r).blocks)
                      && old(HeapSpec.Alloc(blocks[i..], r).payload) == Some(b + HEADER)
      ensures !fit ==> i < |blocks| && blocks[i].addr == b && !blocks[i].used && blocks[i].size < r
                       && blocks[..i] == old(blocks[..i]) && blocks[i..] == old(MergeFit(blocks[i..], r))
                       && Live(blocks) == old(Live(blocks)) && |blocks| <= old(|blocks|)
    {
      hide Encodes, PayloadsKept, Live;
      ghost var bs, m := blocks, mem[..];
      MergeFitLength(bs[i..], r);
      fit := FrontMergeSizeFit(b, r, i);
      assert blocks[i..] == MergeFit(bs[i..], r) && blocks[..i] == bs[..i];
      if fit {
        ghost var bs1, m1 := blocks, mem[..];
        TakeBlock(b, r, i);
        KeptTransitive(Live(bs), Live(bs1), startAddress, m, m1, mem[..]);
        assert bs1[i..][1..] == bs1[i + 1..] && bs1[i..][0] == bs1[i];
        assert blocks == bs[..i] + (Take(bs1[i], r) + bs1[i + 1..]);
      }
    }

    /** heap_alloc: first fit with merging on the way.  A null result is 0. */
    method Alloc(r: nat) returns (p: nat)
      requires Valid() && r < WORD
      modifies this, mem
      ensures Valid()
      ensures Step(startAddress, old(View()), AllocOp(r), View())
      ensures r == 0 ==> p == 0 && blocks == old(blocks) && mem[..] == old(mem[..])
      ensures r > 0 ==> Allocated(old(blocks), r, blocks, p)
      ensures PayloadsKept(old(Live(blocks)), startAddress, old(mem[..]), mem[..])
    {
      if r == 0 { return 0; }
      p := Search(r);
      if HeapSpec.Alloc(old(blocks), r).payload.Some? {
        PayloadBehind(old(blocks), r, startAddress, startAddress + size);
      }
      AllocStep(old(View()), r, View());
    }

    /** `bs` and `p` are what the specification gives for `r` bytes; null stands for failure. */
    static ghost predicate Allocated(bs0: seq<Block>, r: nat, bs: seq<Block>, p: nat) {
      HeapSpec.Alloc(bs0, r) == Allocation(bs, if p == 0 then None else Some(p))
    }

    lemma AllocStep(s: View, r: nat, s': View)
      requires 0 < r && s'.blocks == HeapSpec.Alloc(s.blocks, r).blocks
      requires PayloadsKept(Live(s.blocks), startAddress, s.mem, s'.mem)
      ensures Step(startAddress, s, AllocOp(r), s')
    {
      assert Untouched(s.blocks, AllocOp(r)) == Live(s.blocks);
    }

    static function PayloadOrNull(a: Allocation): nat {
      match a.payload case Some(p) => p case None => 0
    }

    /** The search loop of heap_alloc. */
    method Search(r: nat) returns (p: nat)
      requires Valid() && 0 < r < WORD
      modifies this, mem
      ensures Valid()
      ensures blocks == HeapSpec.Alloc(old(blocks), r).blocks && p == PayloadOrNull(HeapSpec.Alloc(old(blocks), r))
      ensures PayloadsKept(old(Live(blocks)), startAddress, old(mem[..]), mem[..])
    {
      hide Encodes, PayloadsKept, Live;
      ghost var bs0, m0, i := blocks, mem[..], 0;
      var block := startAddress;
      HeaderFields(0);
      StartSearch(blocks, r);
      KeptReflexive(Live(blocks), startAddress, mem[..]);
      while block != 0
        invariant Valid() && i <= |blocks|
        invariant block == if i < |blocks| then blocks[i].addr else 0
        invariant i < |blocks| ==> block > 0
        invariant Searching(bs0, blocks, i, r)
        invariant Live(blocks) == Live(bs0) && PayloadsKept(Live(bs0), startAddress, m0, mem[..])
        decreases |blocks| - i
      {
        HeaderFields(i);
        if !MagicOk(block) { break; }
        if Used(block) {
          SkipUsed(bs0, blocks, i, r);
        } else {
          ghost var bs, m := blocks, mem[..];
          var fit := TryBlock(block, r, i);
          KeptTransitive(Live(bs0), Live(bs), startAddress, m0, m, mem[..]);
          if fit { return block + HEADER; }
          HeaderFields(i);
          SkipMerged(bs0, bs, blocks, i, r);
        }
        block := NextOf(block);
        i := i + 1;
        if i < |blocks| { HeaderFields(i); }
      }
      EndSearch(bs0, blocks, i, r);
      return 0;
    }

    /** The search has settled blocks 0..i-1 and its answer is that of the rest. */
    static ghost predicate Searching(bs0: seq<Block>, bs: seq<Block>, i: nat, r: nat) {
      && i <= |bs|
      && HeapSpec.Alloc(bs0, r).blocks == bs[..i] + HeapSpec.Alloc(bs[i..], r).blocks
      && HeapSpec.Alloc(bs0, r).payload == HeapSpec.Alloc(bs[i..], r).payload
    }

    static lemma StartSearch(bs: seq<Block>, r: nat)
      ensures Searching(bs, bs, 0, r)
    {
      assert bs[0..] == bs && bs[..0] == [];
    }

    static lemma EndSearch(bs0: seq<Block>, bs: seq<Block>, i: nat, r: nat)
      requires Searching(bs0, bs, i, r) && i == |bs|
      ensures HeapSpec.Alloc(bs0, r) == Allocation(bs, None)
    {
      assert bs[..i] == bs && bs[i..] == [];
    }

    static lemma SkipUsed(bs0: seq<Block>, bs: seq<Block>, i: nat, r: nat)
      requires Searching(bs0, bs, i, r) && i < |bs| && bs[i].used
      ensures Searching(bs0, bs, i + 1, r)
    {
      assert bs[i..][1..] == bs[i + 1..];
      assert bs[..i + 1] == bs[..i] + [bs[i]];
    }

    static lemma SkipMerged(bs0: seq<Block>, bs: seq<Block>, bs': seq<Block>, i: nat, r: nat)
      requires Searching(bs0, bs, i, r) && i < |bs| && !bs[i].used && i < |bs'|
      requires bs'[..i] == bs[..i] && bs'[i..] == MergeFit(bs[i..], r) && r > bs'[i].size
      ensures Searching(bs0, bs', i + 1, r)
    {
      hide HeapSpec.Alloc, MergeFit;
      AllocSkips(bs[i..], bs'[i..], r);
      Reassociate(bs', i, HeapSpec.Alloc(bs'[i + 1..], r).blocks);
    }

    static lemma Reassociate(bs: seq<Block>, i: nat, rest: seq<Block>)
      requires i < |bs|
      ensures bs[i..][0] == bs[i] && bs[i..][1..] == bs[i + 1..]
      ensures bs[..i] + ([bs[i]] + rest) == bs[..i + 1] + rest
    {
      assert bs[..i + 1] == bs[..i] + [bs[i]];
    }

    static lemma AllocSkips(bs: seq<Block>, m: seq<Block>, r: nat)
      requires bs != [] && !bs[0].used && m == MergeFit(bs, r) && m != [] && r > m[0].size
      ensures HeapSpec.Alloc(bs, r).blocks == [m[0]] + HeapSpec.Alloc(m[1..], r).blocks
      ensures HeapSpec.Alloc(bs, r).payload == HeapSpec.Alloc(m[1..], r).payload
    {
    }

    /** heap_free of a live payload; null and addresses without a header are refused. */
    method Free(address: nat) returns (status: Status)
      requires Valid() && (address == 0 || IsLive(blocks, address) || IsBadMagic(address))
      modifies this, mem
      ensures Valid()
      ensures status == if address == 0 then BadArgument else if old(IsBadMagic(address)) then BadMagic else Ok
      ensures status != Ok ==> blocks == old(blocks) && mem[..] == old(mem[..])
      ensures status == Ok ==> old(IsLive(blocks, address)) && Step(startAddress, old(View()), FreeOp(address), View())
    {
      hide Encodes, PayloadsKept, Live;
      if address == 0 { return BadArgument; }
      var b := address - HEADER;
      if IsLive(blocks, address) { LiveHeader(address); }
      if !MagicOk(b) {
        status := BadMagic;
      } else {
        ghost var bs0, m0, i := blocks, mem[..], IndexOf(blocks, address);
        HeaderFields(i);
        MarkUsed(b, false, i);
        ghost var bs1, m1 := blocks, mem[..];
        MarkedLive(bs0, i);
        KeptSubset(Live(bs0), Untouched(bs0, FreeOp(address)), startAddress, m0, m1);
        KeptReflexive(Live(bs1), startAddress, m1);
        HeaderFields(i);
        if i + 1 < |blocks| { HeaderFields(i + 1); }
        if NextOf(b) != 0 && !Used(NextOf(b)) { FrontMergeBlock(b, i); }
        KeptTransitive(Untouched(bs0, FreeOp(address)), Live(bs1), startAddress, m0, m1, mem[..]);
        status := Ok;
      }
    }

    static lemma MarkedLive(bs: seq<Block>, i: nat)
      requires i < |bs|
      ensures Untouched(bs, FreeOp(bs[i].Payload())) <= Live(bs[i := bs[i].(used := false)])
    {
      var bs' := bs[i := bs[i].(used := false)];
      forall b | b in Untouched(bs, FreeOp(bs[i].Payload())) ensures b in Live(bs') {
        var j :| 0 <= j < |bs| && bs[j] == b;
        assert bs'[j] == b;
      }
    }

    /** A user's store into a payload it owns. */
    method Store(a: nat, v: byte)
      requires Valid() && Legal(blocks, StoreOp(a, v))
      modifies mem
      ensures Valid() && Step(startAddress, old(View()), StoreOp(a, v), View())
    {
      ghost var b :| b in Live(blocks) && b.Payload() <= a < b.End();
      ghost var i :| 0 <= i < |blocks| && blocks[i] == b;
      HeaderFields(i);
      EncodesPayloadWrite(mem[..], startAddress, blocks, i, a - startAddress, [v]);
      WriteBytes(a - startAddress, [v]);
    }

    /** memcpy of `length` bytes between disjoint parts of the region, by offsets. */
    method MemCopy(d: nat, s: nat, length: nat)
      requires d + length <= mem.Length && s + length <= mem.Length
      requires s + length <= d || d + length <= s
      modifies mem
      ensures mem[..] == Splice(old(mem[..]), d, old(mem[..])[s..s + length])
    {
      for k := 0 to length
        invariant forall t :: 0 <= t < mem.Length ==>
                    mem[t] == if d <= t < d + k then old(mem[s + t - d]) else old(mem[t])
      {
        mem[d + k] := mem[s + k];
      }
    }

    /** Copying a prefix of payload `i` to payload `j`. */
    method CopyBytes(dst: nat, src: nat, length: nat, ghost i: nat, ghost j: nat)
      requires Valid() && i < |blocks| && j < |blocks|
      requires blocks[i].Payload() == src && blocks[j].Payload() == dst
      requires length <= blocks[i].size && length <= blocks[j].size
      requires Apart(blocks[i], blocks[j], startAddress, startAddress + size)
      modifies mem
      ensures Valid() && PayloadsKept(old(Live(blocks)) - {old(blocks[j])}, startAddress, old(mem[..]), mem[..])
      ensures SamePrefix(mem[..], blocks[j], old(mem[..]), blocks[i], startAddress, length)
    {
      hide Splice, PayloadsKept, SamePrefix;
      ghost var m := mem[..];
      MemCopy(dst - startAddress, src - startAddress, length);
      Copied(m, mem[..], blocks, i, j, startAddress, dst - startAddress, src - startAddress, length);
    }

    static lemma Copied(m: seq<byte>, m': seq<byte>, bs: seq<Block>, i: nat, j: nat, base: nat, d: nat, s: nat, k: nat)
      requires Encodes(m, base, bs) && i < |bs| && j < |bs| && Apart(bs[i], bs[j], base, base + |m|)
      requires k <= bs[i].size && k <= bs[j].size
      requires s == bs[i].Payload() - base && d == bs[j].Payload() - base && m' == Splice(m, d, m[s..s + k])
      ensures Encodes(m', base, bs) && PayloadsKept(Live(bs) - {bs[j]}, base, m, m')
      ensures SamePrefix(m', bs[j], m, bs[i], base, k)
    {
      EncodesPayloadWrite(m, base, bs, j, d, m[s..s + k]);
      assert Bytes(m, base, bs[i])[..k] == m[s..s + k];
      assert Bytes(m', base, bs[j])[..k] == m[s..s + k];
    }

    /** The first `k` bytes of payload `c` in `m'` are those of payload `b` in `m`. */
    static ghost predicate SamePrefix(m': seq<byte>, c: Block, m: seq<byte>, b: Block, base: nat, k: nat) {
      && base <= c.addr && c.End() <= base + |m'| && base <= b.addr && b.End() <= base + |m|
      && k <= b.size && k <= c.size
      && Bytes(m', base, c)[..k] == Bytes(m, base, b)[..k]
    }

    /** Two distinct blocks inside [lo, hi) do not overlap. */
    static ghost predicate Apart(b: Block, c: Block, lo: nat, hi: nat) {
      && lo <= b.addr && b.End() <= hi && lo <= c.addr && c.End() <= hi
      && (b.End() <= c.addr || c.End() <= b.addr)
    }

    /** heap_realloc of a live payload; null and addresses without a header are refused. */
    method Realloc(address: nat, n: nat) returns (p: nat)
      requires Valid() && n < WORD && (address == 0 || IsLive(blocks, address) || IsBadMagic(address))
      modifies this, mem
      ensures Valid()
      ensures address == 0 || old(IsBadMagic(address)) ==> p == 0 && blocks == old(blocks) && mem[..] == old(mem[..])
      ensures address != 0 && !old(IsBadMagic(address)) ==>
                old(IsLive(blocks, address)) && Reallocated(old(blocks), address, n, p) &&
                Step(startAddress, old(View()), ReallocOp(address, n), View())
      ensures p == 0 ==> PayloadsKept(old(Live(blocks)), startAddress, old(mem[..]), mem[..])
      ensures p != 0 ==> CarriedOver(startAddress, old(View()), address, n, View(), p)
    {
      hide Valid, View, Encodes, PayloadsKept, Live, Reallocated, CarriedOver, Step, IsLive;
      KeptReflexive(Live(blocks), startAddress, mem[..]);
      if address == 0 { return 0; }
      if IsLive(blocks, address) { LiveHeader(address); }
      if !MagicOk(address - HEADER) { return 0; }
      p := Resize(address, n);
    }

    /** heap_realloc once the header has been recognised. */
    method Resize(address: nat, n: nat) returns (p: nat)
      requires Valid() && n < WORD && IsLive(blocks, address)
      modifies this, mem
      ensures Valid()
      ensures Reallocated(old(blocks), address, n, p) && Step(startAddress, old(View()), ReallocOp(address, n), View())
      ensures p == 0 ==> PayloadsKept(old(Live(blocks)), startAddress, old(mem[..]), mem[..])
      ensures p != 0 ==> CarriedOver(startAddress, old(View()), address, n, View(), p)
    {
      ghost var s0 := View();
      HeaderFields(IndexOf(blocks, address));
      var oldSize := BlockSize(address - HEADER);
      if oldSize == n {
        p := address;
        ReallocInPlace(s0, address);
      } else {
        p := Move(address, n, oldSize);
      }
    }

    lemma InRegionNow()
      requires Valid()
      ensures InRegion(blocks, startAddress, mem[..])
    {
    }

    /** heap_realloc to a different size: allocate, copy, free. */
    method Move(address: nat, n: nat, oldSize: nat) returns (p: nat)
      requires Valid() && n < WORD && IsLive(blocks, address)
      requires oldSize == blocks[IndexOf(blocks, address)].size != n
      modifies this, mem
      ensures Valid()
      ensures Reallocated(old(blocks), address, n, p)
      ensures Step(startAddress, old(View()), ReallocOp(address, n), View())
      ensures p == 0 ==> PayloadsKept(old(Live(blocks)), startAddress, old(mem[..]), mem[..])
      ensures p != 0 ==> CarriedOver(startAddress, old(View()), address, n, View(), p)
    {
      hide Encodes, PayloadsKept, Live, Allocated, Reallocated, CarriedOver, HeapSpec.Alloc;
      ghost var s0 := View();
      InRegionNow();
      p := Alloc(n);
      ReallocFromAlloc(startAddress, s0, address, n, View(), p);
      if p != 0 {
        MoveOut(s0, address, p, n, if oldSize < n then oldSize else n);
      }
    }

    lemma ReallocInPlace(s0: View, address: nat)
      requires IsLive(s0.blocks, address) && InRegion(s0.blocks, startAddress, s0.mem)
      ensures var n := s0.blocks[IndexOf(s0.blocks, address)].size;
              && Reallocated(s0.blocks, address, n, address)
              && Step(startAddress, s0, ReallocOp(address, n), s0)
              && CarriedOver(startAddress, s0, address, n, s0, address)
    {
      TilesAt(s0.blocks, IndexOf(s0.blocks, address), startAddress, startAddress + |s0.mem|);
    }

    /** When the sizes differ, a reallocation starts with an allocation and ends with it
        unless it succeeded. */
    static lemma ReallocFromAlloc(base: nat, s0: View, address: nat, n: nat, s': View, p: nat)
      requires IsLive(s0.blocks, address) && s0.blocks[IndexOf(s0.blocks, address)].size != n
      requires if n == 0 then s' == s0 && p == 0 else Allocated(s0.blocks, n, s'.blocks, p)
      requires PayloadsKept(Live(s0.blocks), base, s0.mem, s'.mem)
      ensures Reallocated(s0.blocks, address, n, p)
      ensures p == 0 ==> Step(base, s0, ReallocOp(address, n), s')
    {
      assert Untouched(s0.blocks, ReallocOp(address, n)) <= Live(s0.blocks);
    }

    static ghost predicate Reallocated(bs0: seq<Block>, address: nat, n: nat, p: nat)
      requires IsLive(bs0, address)
    {
      HeapRuns.Realloc(bs0, address, n).payload == if p == 0 then None else Some(p)
    }

    /** The first min(old, new) bytes of the payload at `a` are found in the live payload at `p`. */
    static ghost predicate CarriedOver(base: nat, before: View, a: nat, n: nat, after: View, p: nat)
    {
      IsLive(before.blocks, a) &&
      var b := before.blocks[IndexOf(before.blocks, a)];
      exists c :: c in Live(after.blocks) && c.Payload() == p &&
                  SamePrefix(after.mem, c, before.mem, b, base, if b.size < n then b.size else n)
    }

    /** heap_defrag; returns the number of merges. */
    method Defrag() returns (merged: nat)
      requires Valid()
      modifies this, mem
      ensures Valid() && Step(startAddress, old(View()), DefragOp, View())
      ensures merged == |old(blocks)| - |blocks|
    {
      hide Encodes, PayloadsKept, Live, Defragging, HeapSpec.Defrag, U32, Step;
      ghost var bs0, m0, i := blocks, mem[..], 0;
      merged := 0;
      var block := startAddress;
      HeaderFields(0);
      KeptReflexive(Live(blocks), startAddress, mem[..]);
      StartDefrag(blocks);
      while block != 0
        invariant Valid() && i <= |blocks|
        invariant block == if i < |blocks| then blocks[i].addr else 0
        invariant i < |blocks| ==> block > 0
        invariant Defragging(bs0, blocks, i)
        invariant merged == |bs0| - |blocks|
        invariant Live(blocks) == Live(bs0) && PayloadsKept(Live(bs0), startAddress, m0, mem[..])
        decreases |blocks| - i
      {
        HeaderFields(i);
        if i + 1 < |blocks| { HeaderFields(i + 1); }
        if !Used(block) && NextOf(block) != 0 && !Used(NextOf(block)) {
          ghost var bs, m := blocks, mem[..];
          FrontMergeBlock(block, i);
          MergeLive(bs, i);
          DefragMerges(bs0, bs, i);
          KeptTransitive(Live(bs0), Live(bs), startAddress, m0, m, mem[..]);
          merged := merged + 1;
        } else {
          DefragPasses(bs0, blocks, i);
          block := NextOf(block);
          i := i + 1;
          if i < |blocks| { HeaderFields(i); }
        }
      }
      DefragDone(startAddress, HeapRuns.View(m0, bs0), View(), i);
    }

    static lemma DefragDone(lo: nat, s0: View, s': View, i: nat)
      requires Defragging(s0.blocks, s'.blocks, i) && i == |s'.blocks|
      requires PayloadsKept(Live(s0.blocks), lo, s0.mem, s'.mem)
      ensures Step(lo, s0, DefragOp, s')
    {
      hide PayloadsKept;
      EndDefrag(s0.blocks, s'.blocks, i);
      KeptSubset(Live(s0.blocks), Untouched(s0.blocks, DefragOp), lo, s0.mem, s'.mem);
    }

    /** Blocks 0..i-1 are settled; what remains is to defragment the rest. */
    static ghost predicate Defragging(bs0: seq<Block>, bs: seq<Block>, i: nat) {
      i <= |bs| && HeapSpec.Defrag(bs0) == bs[..i] + HeapSpec.Defrag(bs[i..])
    }

    static lemma StartDefrag(bs: seq<Block>)
      ensures Defragging(bs, bs, 0)
    {
      assert bs[0..] == bs && bs[..0] == [];
    }

    static lemma EndDefrag(bs0: seq<Block>, bs: seq<Block>, i: nat)
      requires Defragging(bs0, bs, i) && i == |bs|
      ensures HeapSpec.Defrag(bs0) == bs
    {
      assert bs[..i] == bs && bs[i..] == [];
    }

    static lemma DefragMerges(bs0: seq<Block>, bs: seq<Block>, i: nat)
      requires Defragging(bs0, bs, i) && i + 1 < |bs| && !bs[i].used && !bs[i + 1].used
      ensures Defragging(bs0, bs[..i] + [Merge(bs[i], bs[i + 1])] + bs[i + 2..], i)
    {
      var bs' := bs[..i] + [Merge(bs[i], bs[i + 1])] + bs[i + 2..];
      assert bs'[..i] == bs[..i];
      assert bs'[i..] == [Merge(bs[i], bs[i + 1])] + bs[i + 2..];
      assert bs[i..][2..] == bs[i + 2..];
    }

    static lemma DefragPasses(bs0: seq<Block>, bs: seq<Block>, i: nat)
      requires Defragging(bs0, bs, i) && i < |bs| && (bs[i].used || i + 1 == |bs| || bs[i + 1].used)
      ensures Defragging(bs0, bs, i + 1)
    {
      assert bs[i..][1..] == bs[i + 1..];
      assert bs[..i + 1] == bs[..i] + [bs[i]];
    }

    /** The second half of heap_realloc: copy the old payload to `p`, then free it. */
    method MoveOut(ghost s0: View, address: nat, p: nat, n: nat, length: nat)
      requires Valid() && 0 < n && |s0.mem| == size && InRegion(s0.blocks, startAddress, s0.mem)
      requires IsLive(s0.blocks, address)
      requires var b0 := s0.blocks[IndexOf(s0.blocks, address)];
               b0.size != n && length == if b0.size < n then b0.size else n
      requires Allocated(s0.blocks, n, blocks, p) && p != 0
      requires PayloadsKept(Live(s0.blocks), startAddress, s0.mem, mem[..])
      modifies this, mem
      ensures Valid()
      ensures Step(startAddress, s0, ReallocOp(address, n), View())
      ensures CarriedOver(startAddress, s0, address, n, View(), p)
    {
      hide Encodes, PayloadsKept, Live, Allocated, Reallocated, CarriedOver, HeapSpec.Alloc;
      ghost var lo, hi, m1 := startAddress, startAddress + size, mem[..];
      ghost var i, j := MoveSetup(s0.blocks, blocks, address, n, p, lo, hi);
      CopyBytes(p, address, length, i, j);
      ghost var mid := View();
      LiveHeader(address);
      var status := Free(address);
      MoveDone(lo, s0, m1, mid, address, n, p, length, i, j, View());
    }

    static lemma MoveDone(lo: nat, s0: View, m1: seq<byte>, mid: View, address: nat, n: nat, p: nat, length: nat,
                          i: nat, j: nat, s': View)
      requires |s0.mem| == |m1| && n > 0 && Ready(s0.blocks, mid.blocks, address, n, p, i, j, lo, lo + |m1|)
      requires mid.blocks[i].size != n && length == if mid.blocks[i].size < n then mid.blocks[i].size else n
      requires PayloadsKept(Live(s0.blocks), lo, s0.mem, m1)
      requires PayloadsKept(Live(mid.blocks) - {mid.blocks[j]}, lo, m1, mid.mem)
      requires SamePrefix(mid.mem, mid.blocks[j], m1, mid.blocks[i], lo, length)
      requires Step(lo, mid, FreeOp(address), s')
      ensures Step(lo, s0, ReallocOp(address, n), s')
      ensures CarriedOver(lo, s0, address, n, s', p)
    {
      var b0, c := mid.blocks[i], mid.blocks[j];
      KeptTransitive(Live(s0.blocks), Live(mid.blocks) - {c}, lo, s0.mem, m1, mid.mem);
      KeptTransitive(Untouched(s0.blocks, ReallocOp(address, n)), Untouched(mid.blocks, FreeOp(address)), lo, s0.mem,
          mid.mem, s'.mem);
      MoveStep(lo, s0, mid, address, n, p, s');
      assert c in Untouched(mid.blocks, FreeOp(address));
      assert Bytes(s'.mem, lo, c) == Bytes(mid.mem, lo, c);
      assert Bytes(m1, lo, b0) == Bytes(s0.mem, lo, b0);
      assert SamePrefix(s'.mem, c, s0.mem, b0, lo, length);
    }

    /** An allocation, a copy out of reach of the other payloads and a free make a reallocation. */
    static lemma MoveStep(base: nat, s0: View, mid: View, address: nat, n: nat, p: nat, s': View)
      requires IsLive(s0.blocks, address) && s0.blocks[IndexOf(s0.blocks, address)].size != n && n > 0
      requires Allocated(s0.blocks, n, mid.blocks, p) && p != 0
      requires Step(base, mid, FreeOp(address), s')
      requires PayloadsKept(Untouched(s0.blocks, ReallocOp(address, n)), base, s0.mem, s'.mem)
      ensures Step(base, s0, ReallocOp(address, n), s')
    {
      assert s'.blocks == HeapSpec.Free(mid.blocks, IndexOf(mid.blocks, address));
      assert Apply(s0.blocks, ReallocOp(address, n)) == HeapRuns.Realloc(s0.blocks, address, n).blocks;
    }

    /** Block `i` is the one to move away from and block `j`, just allocated, its new home. */
    static ghost predicate Ready(bs0: seq<Block>, bs: seq<Block>, address: nat, n: nat, p: nat, i: nat, j: nat,
                                 lo: nat, hi: nat) {
      && IsLive(bs0, address) && Allocated(bs0, n, bs, p) && p != 0
      && i < |bs| && bs[i] == bs0[IndexOf(bs0, address)] && bs[i] in Live(bs)
      && IsLive(bs, address) && bs[IndexOf(bs, address)] == bs[i] && bs[i].Payload() == address
      && j < |bs| && bs[j].Payload() == p && n <= bs[j].size && bs[j] in Live(bs)
      && p != address && bs[j] !in Live(bs0) && Live(bs0) <= Live(bs)
      && Apart(bs[i], bs[j], lo, hi)
      && bs[j] in Live(HeapSpec.Free(bs, IndexOf(bs, address)))
    }

    /** After a successful allocation the old block is still live, and the new one is another. */
    static lemma MoveSetup(bs0: seq<Block>, bs: seq<Block>, address: nat, n: nat, p: nat, lo: nat, hi: nat)
      returns (i: nat, j: nat)
      requires 0 < n && Tiles(bs0, lo, hi) && IsLive(bs0, address)
      requires Allocated(bs0, n, bs, p) && p != 0
      ensures Ready(bs0, bs, address, n, p, i, j, lo, hi)
    {
      var b0 := bs0[IndexOf(bs0, address)];
      AllocLive(bs0, n);
      AllocTiles(bs0, n, lo, hi);
      assert Tiles(bs, lo, hi);
      FreshPayload(bs0, n, lo, hi);
      assert b0 in Live(bs0) && b0 in Live(bs);
      LiveAtMostOnce(bs, b0, address, lo, hi);
      i := IndexOf(bs, address);
      var c: Block :| c.used && c.Payload() == p && n <= c.size && c in bs && Live(bs) == Live(bs0) + {c};
      j :| 0 <= j < |bs| && bs[j] == c;
      assert !IsLive(bs0, p);
      BlocksApart(bs, i, j, lo, hi);
      ApplyKeepsLive(bs, FreeOp(address), bs[j], lo, hi);
    }

    static lemma BlocksApart(bs: seq<Block>, i: nat, j: nat, lo: nat, hi: nat)
      requires Tiles(bs, lo, hi) && i < |bs| && j < |bs| && i != j
      ensures Apart(bs[i], bs[j], lo, hi)
    {
      TilesAt(bs, i, lo, hi);
      TilesAt(bs, j, lo, hi);
      if i < j { TilesOrdered(bs, i, j, lo, hi); } else { TilesOrdered(bs, j, i, lo, hi); }
    }
  }
}
