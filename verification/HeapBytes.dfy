/** How the chain of blocks is written into the bytes of the heap region: an 8-byte packed
    header in front of every payload (struct heap_block, MeOS/mmngr_heap.h:23-29). */
module HeapBytes {
  import opened HeapSpec
  import opened HeapRuns

  const WORD := 0x1_0000_0000

  function Bit(b: bool): byte { if b then 1 else 0 }

  function U32Bytes(n: nat): (r: seq<byte>)
    ensures |r| == 4
  {
    [n % 256, n / 256 % 256, n / 65536 % 256, n / 16777216 % 256]
  }

  function U32(s: seq<byte>): nat
    requires |s| == 4
  {
    s[0] as int + 256 * s[1] as int + 65536 * s[2] as int + 16777216 * s[3] as int
  }

  /** Little-endian words survive being written and read back. */
  lemma U32RoundTrip(n: nat)
    requires n < WORD
    ensures U32(U32Bytes(n)) == n
  {
    var q1, q2, q3 := n / 256, n / 65536, n / 16777216;
    assert n == 256 * q1 + n % 256;
    assert q1 == 256 * q2 + q1 % 256;
    assert q2 == 256 * q3 + q2 % 256;
  }

  const MAGIC_LOW: byte := 0x2E
  const MAGIC_HIGH: byte := 0x1F

  function Header(used: bool, flags: bool, next: nat): (r: seq<byte>)
    ensures |r| == HEADER
  {
    [MAGIC_LOW, MAGIC_HIGH, Bit(used), Bit(flags)] + U32Bytes(next)
  }

  /** The `next` field of block `i`; null in the last block. */
  function Next(bs: seq<Block>, i: nat): nat
    requires i < |bs|
  {
    if i + 1 < |bs| then bs[i + 1].addr else 0
  }

  ghost predicate HeaderAt(m: seq<byte>, base: nat, bs: seq<Block>, i: nat)
    requires i < |bs|
  {
    var o := bs[i].addr - base;
    0 <= o && o + HEADER <= |m| && m[o..o + HEADER] == Header(bs[i].used, bs[i].flags, Next(bs, i))
  }

  /** The memory of the region holds exactly this chain. */
  ghost predicate Encodes(m: seq<byte>, base: nat, bs: seq<Block>) {
    && bs != []
    && 0 < base && base + |m| <= WORD
    && Tiles(bs, base, base + |m|)
    && forall i :: 0 <= i < |bs| ==> HeaderAt(m, base, bs, i)
  }

  function Splice(m: seq<byte>, o: nat, s: seq<byte>): (r: seq<byte>)
    requires o + |s| <= |m|
    ensures |r| == |m|
  {
    m[..o] + s + m[o + |s|..]
  }

  lemma SpliceOutside(m: seq<byte>, o: nat, s: seq<byte>, lo: nat, hi: nat)
    requires o + |s| <= |m| && lo <= hi <= |m| && (hi <= o || o + |s| <= lo)
    ensures Splice(m, o, s)[lo..hi] == m[lo..hi]
  {
  }

  /** Rewriting part of one block keeps every other block's header and payload. */
  lemma OtherBlockKept(m: seq<byte>, base: nat, bs: seq<Block>, i: nat, o: nat, s: seq<byte>, j: nat)
    requires Tiles(bs, base, base + |m|) && i < |bs| && j < |bs| && j != i
    requires bs[i].addr - base <= o && o + |s| <= bs[i].End() - base
    requires o + |s| <= |m|
    ensures 0 <= bs[j].addr - base && bs[j].End() - base <= |m|
    ensures var a := bs[j].addr - base;
            Splice(m, o, s)[a..a + HEADER] == m[a..a + HEADER]
    ensures Bytes(Splice(m, o, s), base, bs[j]) == Bytes(m, base, bs[j])
  {
    TilesAt(bs, j, base, base + |m|);
    if j < i { TilesOrdered(bs, j, i, base, base + |m|); } else { TilesOrdered(bs, i, j, base, base + |m|); }
    SpliceOutside(m, o, s, bs[j].addr - base, bs[j].addr - base + HEADER);
    SpliceOutside(m, o, s, bs[j].Payload() - base, bs[j].End() - base);
  }

  lemma OtherHeaderKept(m: seq<byte>, base: nat, bs: seq<Block>, i: nat, o: nat, s: seq<byte>, j: nat,
                        bs': seq<Block>, j': nat)
    requires Tiles(bs, base, base + |m|) && i < |bs| && j < |bs| && j != i
    requires bs[i].addr - base <= o && o + |s| <= bs[i].End() - base
    requires o + |s| <= |m|
    requires j' < |bs'| && bs'[j'] == bs[j] && Next(bs', j') == Next(bs, j)
    requires HeaderAt(m, base, bs, j)
    ensures HeaderAt(Splice(m, o, s), base, bs', j')
  {
    hide Tiles, Splice, Header, Next;
    OtherBlockKept(m, base, bs, i, o, s, j);
  }

  /** A rewrite inside an unused block, or inside the header of any block, keeps live payloads. */
  lemma SpliceKeepsPayloads(m: seq<byte>, base: nat, bs: seq<Block>, i: nat, o: nat, s: seq<byte>)
    requires Tiles(bs, base, base + |m|) && i < |bs|
    requires bs[i].addr - base <= o && o + |s| <= |m|
    requires if bs[i].used then o + |s| <= bs[i].Payload() - base else o + |s| <= bs[i].End() - base
    ensures PayloadsKept(Live(bs), base, m, Splice(m, o, s))
  {
    TilesAt(bs, i, base, base + |m|);
    forall b | b in Live(bs) && base <= b.addr && b.End() <= base + |m|
      ensures Bytes(Splice(m, o, s), base, b) == Bytes(m, base, b)
    {
      var j :| 0 <= j < |bs| && bs[j] == b;
      if j == i {
        SpliceOutside(m, o, s, b.Payload() - base, b.End() - base);
      } else {
        OtherBlockKept(m, base, bs, i, o, s, j);
      }
    }
  }

  /** What reading a header field gives. */
  lemma ReadHeader(m: seq<byte>, base: nat, bs: seq<Block>, i: nat)
    requires Encodes(m, base, bs) && i < |bs|
    ensures var o := bs[i].addr - base;
            0 <= o && o + HEADER <= |m| && bs[i].End() - base <= |m| &&
            m[o] == MAGIC_LOW && m[o + 1] == MAGIC_HIGH && m[o + 2] == Bit(bs[i].used)
                && m[o + 3] == Bit(bs[i].flags) &&
            U32(m[o + 4..o + 8]) == Next(bs, i)
    ensures bs[i].addr < WORD && Next(bs, i) < WORD
    ensures bs[i].size ==
              if Next(bs, i) == 0 then base + |m| - bs[i].addr - HEADER else Next(bs, i) - bs[i].addr - HEADER
  {
    var o := bs[i].addr - base;
    TilesAt(bs, i, base, base + |m|);
    if i + 1 < |bs| { TilesAt(bs, i + 1, base, base + |m|); }
    var h := m[o..o + HEADER];
    assert HeaderAt(m, base, bs, i);
    assert m[o] == h[0] && m[o + 1] == h[1] && m[o + 2] == h[2] && m[o + 3] == h[3];
    assert m[o + 4..o + 8] == h[4..] == U32Bytes(Next(bs, i));
    U32RoundTrip(Next(bs, i));
  }

  /** Storing the successor's `next` over one's own unlinks the successor. */
  lemma EncodesMerge(m: seq<byte>, base: nat, bs: seq<Block>, i: nat)
    requires Encodes(m, base, bs) && i + 1 < |bs|
    ensures var o := bs[i].addr - base + 4;
            0 <= o && o + 4 <= |m| &&
            Encodes(Splice(m, o, U32Bytes(Next(bs, i + 1))), base, bs[..i] + [Merge(bs[i], bs[i + 1])] + bs[i + 2..])
  {
    TilesAt(bs, i, base, base + |m|);
    var o, s := bs[i].addr - base + 4, U32Bytes(Next(bs, i + 1));
    var m' := Splice(m, o, s);
    var bs' := bs[..i] + [Merge(bs[i], bs[i + 1])] + bs[i + 2..];
    MergeTilesAt(bs, i, base, base + |m|);
    assert |bs'| == |bs| - 1;
    forall j | 0 <= j < |bs'| ensures HeaderAt(m', base, bs', j) {
      if j == i {
        RelinkedHeader(m, base, bs, i, Next(bs, i + 1), bs', j);
      } else {
        var k := if j < i then j else j + 1;
        assert HeaderAt(m, base, bs, k);
        OtherHeaderKept(m, base, bs, i, o, s, k, bs', j);
      }
    }
  }

  /** The header of a block whose `next` word is overwritten. */
  lemma RelinkedHeader(m: seq<byte>, base: nat, bs: seq<Block>, i: nat, next: nat, bs': seq<Block>, j: nat)
    requires i < |bs| && HeaderAt(m, base, bs, i)
    requires j < |bs'| && bs'[j].addr == bs[i].addr && Next(bs', j) == next
    requires bs'[j].used == bs[i].used && bs'[j].flags == bs[i].flags
    ensures HeaderAt(Splice(m, bs[i].addr - base + 4, U32Bytes(next)), base, bs', j)
  {
    var a := bs[i].addr - base;
    var h := m[a..a + HEADER];
    var m' := Splice(m, a + 4, U32Bytes(next));
    assert m'[a..a + HEADER] == h[..4] + U32Bytes(next);
    assert h[..4] == Header(bs[i].used, bs[i].flags, next)[..4];
  }

  lemma OwnHeaderKept(m: seq<byte>, base: nat, bs: seq<Block>, i: nat, o: nat, s: seq<byte>)
    requires i < |bs| && HeaderAt(m, base, bs, i) && bs[i].Payload() - base <= o && o + |s| <= |m|
    ensures HeaderAt(Splice(m, o, s), base, bs, i)
  {
    hide Splice, Header;
    SpliceOutside(m, o, s, bs[i].addr - base, bs[i].addr - base + HEADER);
  }

  /** Bytes written inside a payload leave every header in place. */
  lemma EncodesPayloadWrite(m: seq<byte>, base: nat, bs: seq<Block>, i: nat, o: nat, s: seq<byte>)
    requires Encodes(m, base, bs) && i < |bs|
    requires bs[i].Payload() - base <= o && o + |s| <= bs[i].End() - base
    ensures o + |s| <= |m| && Encodes(Splice(m, o, s), base, bs)
    ensures PayloadsKept(Live(bs) - {bs[i]}, base, m, Splice(m, o, s))
  {
    TilesAt(bs, i, base, base + |m|);
    hide HeaderAt, Tiles, Splice;
    forall j | 0 <= j < |bs| ensures HeaderAt(Splice(m, o, s), base, bs, j) {
      assert HeaderAt(m, base, bs, j);
      if j == i {
        OwnHeaderKept(m, base, bs, i, o, s);
      } else {
        OtherHeaderKept(m, base, bs, i, o, s, j, bs, j);
      }
    }
    forall b | b in Live(bs) - {bs[i]} && base <= b.addr && b.End() <= base + |m|
      ensures Bytes(Splice(m, o, s), base, b) == Bytes(m, base, b)
    {
      var j :| 0 <= j < |bs| && bs[j] == b;
      OtherBlockKept(m, base, bs, i, o, s, j);
    }
  }

  /** The header of a block whose `used` byte is overwritten. */
  lemma MarkedHeader(m: seq<byte>, base: nat, bs: seq<Block>, i: nat, used: bool, bs': seq<Block>, j: nat)
    requires i < |bs| && HeaderAt(m, base, bs, i)
    requires j < |bs'| && bs'[j].addr == bs[i].addr && Next(bs', j) == Next(bs, i)
    requires bs'[j].used == used && bs'[j].flags == bs[i].flags
    ensures HeaderAt(Splice(m, bs[i].addr - base + 2, [Bit(used)]), base, bs', j)
  {
    hide Next, U32Bytes;
    var a := bs[i].addr - base;
    var h := m[a..a + HEADER];
    var m' := Splice(m, a + 2, [Bit(used)]);
    assert m'[a..a + HEADER] == h[..2] + [Bit(used)] + h[3..];
    var next := Next(bs, i);
    assert h[..2] + [Bit(used)] + h[3..] == Header(used, bs[i].flags, next);
  }

  /** Writing a block's `used` byte. */
  lemma EncodesMark(m: seq<byte>, base: nat, bs: seq<Block>, i: nat, used: bool)
    requires Encodes(m, base, bs) && i < |bs|
    ensures var o := bs[i].addr - base + 2;
            0 <= o && o + 1 <= |m| && Encodes(Splice(m, o, [Bit(used)]), base, bs[i := bs[i].(used := used)])
  {
    hide Header, Splice;
    TilesAt(bs, i, base, base + |m|);
    var o := bs[i].addr - base + 2;
    var m' := Splice(m, o, [Bit(used)]);
    var bs' := bs[i := bs[i].(used := used)];
    MarkTiles(bs, i, used, base, base + |m|);
    forall j | 0 <= j < |bs'| ensures HeaderAt(m', base, bs', j) {
      assert HeaderAt(m, base, bs, j);
      if j == i {
        MarkedHeader(m, base, bs, i, used, bs', j);
      } else {
        OtherHeaderKept(m, base, bs, i, o, [Bit(used)], j, bs', j);
      }
    }
  }

  /** The chain after block `i` is cut down to `r` bytes and an unused block follows it. */
  function Cut(bs: seq<Block>, i: nat, r: nat): seq<Block>
    requires i < |bs| && r + HEADER < bs[i].size
  {
    var b := bs[i];
    bs[..i] + [b.(size := r), Block(b.addr + HEADER + r, b.size - HEADER - r, false, b.flags)] + bs[i + 1..]
  }

  lemma CutTiles(bs: seq<Block>, i: nat, r: nat, lo: nat, hi: nat)
    requires Tiles(bs, lo, hi) && i < |bs| && 0 < r && r + HEADER < bs[i].size
    ensures Tiles(Cut(bs, i, r), lo, hi)
  {
    TilesAt(bs, i, lo, hi);
    TilesSplit(bs, i, lo, hi);
    TilesSplit(bs, i + 1, lo, hi);
    var b := bs[i];
    var two := [b.(size := r), Block(b.addr + HEADER + r, b.size - HEADER - r, false, b.flags)];
    assert two[1..] == [two[1]] && two[1..][1..] == [];
    TilesConcat(two, bs[i + 1..], b.addr, b.End(), hi);
    TilesConcat(bs[..i], two + bs[i + 1..], lo, b.addr, hi);
    assert Cut(bs, i, r) == bs[..i] + (two + bs[i + 1..]);
  }

  /** The two writes that split block `i`: a fresh header inside its payload, then the link. */
  function CutBytes(m: seq<byte>, base: nat, bs: seq<Block>, i: nat, r: nat): (m': seq<byte>)
    requires i < |bs| && base <= bs[i].addr && bs[i].End() - base <= |m| && r + HEADER < bs[i].size
    ensures |m'| == |m|
  {
    var a := bs[i].addr - base;
    Splice(Splice(m, a + HEADER + r, Header(false, bs[i].flags, Next(bs, i))), a + 4, U32Bytes(bs[i].addr + HEADER + r))
  }

  lemma CutOwnHeader(m: seq<byte>, base: nat, bs: seq<Block>, i: nat, r: nat)
    requires i < |bs| && HeaderAt(m, base, bs, i) && r + HEADER < bs[i].size
    requires base <= bs[i].addr && bs[i].End() - base <= |m|
    ensures HeaderAt(CutBytes(m, base, bs, i, r), base, Cut(bs, i, r), i)
  {
    var a := bs[i].addr - base;
    var h := Header(false, bs[i].flags, Next(bs, i));
    SpliceOutside(m, a + HEADER + r, h, a, a + HEADER);
    RelinkedHeader(Splice(m, a + HEADER + r, h), base, bs, i, bs[i].addr + HEADER + r, Cut(bs, i, r), i);
  }

  lemma CutNewHeader(m: seq<byte>, base: nat, bs: seq<Block>, i: nat, r: nat)
    requires i < |bs| && r + HEADER < bs[i].size
    requires base <= bs[i].addr && bs[i].End() - base <= |m|
    ensures HeaderAt(CutBytes(m, base, bs, i, r), base, Cut(bs, i, r), i + 1)
  {
    var a, o := bs[i].addr - base, bs[i].addr - base + HEADER + r;
    var h := Header(false, bs[i].flags, Next(bs, i));
    var m1 := Splice(m, o, h);
    SpliceOutside(m1, a + 4, U32Bytes(bs[i].addr + HEADER + r), o, o + HEADER);
    assert m1[o..o + HEADER] == h;
    assert Next(Cut(bs, i, r), i + 1) == Next(bs, i);
  }

  lemma TwoSplicesKeepHeader(m: seq<byte>, base: nat, bs: seq<Block>, i: nat, o1: nat, s1: seq<byte>,
                             o2: nat, s2: seq<byte>, j: nat, bs': seq<Block>, j': nat)
    requires Tiles(bs, base, base + |m|) && i < |bs| && j < |bs| && j != i
    requires bs[i].addr - base <= o1 && o1 + |s1| <= bs[i].End() - base && o1 + |s1| <= |m|
    requires bs[i].addr - base <= o2 && o2 + |s2| <= bs[i].End() - base && o2 + |s2| <= |m|
    requires j' < |bs'| && bs'[j'] == bs[j] && Next(bs', j') == Next(bs, j)
    requires HeaderAt(m, base, bs, j)
    ensures HeaderAt(Splice(Splice(m, o1, s1), o2, s2), base, bs', j')
  {
    OtherHeaderKept(m, base, bs, i, o1, s1, j, bs, j);
    OtherHeaderKept(Splice(m, o1, s1), base, bs, i, o2, s2, j, bs', j');
  }

  lemma CutOtherHeader(m: seq<byte>, base: nat, bs: seq<Block>, i: nat, r: nat, j: nat)
    requires Tiles(bs, base, base + |m|) && i < |bs| && r + HEADER < bs[i].size
    requires base <= bs[i].addr && bs[i].End() - base <= |m|
    requires j <= |bs| && j != i && j != i + 1
    requires HeaderAt(m, base, bs, if j < i then j else j - 1)
    ensures HeaderAt(CutBytes(m, base, bs, i, r), base, Cut(bs, i, r), j)
  {
    hide Tiles, Splice, HeaderAt, Header;
    CutOther(bs, i, r, j);
    TwoSplicesKeepHeader(m, base, bs, i,
                         bs[i].addr - base + HEADER + r, Header(false, bs[i].flags, Next(bs, i)),
                         bs[i].addr - base + 4, U32Bytes(bs[i].addr + HEADER + r),
                         if j < i then j else j - 1, Cut(bs, i, r), j);
  }

  lemma CutOther(bs: seq<Block>, i: nat, r: nat, j: nat)
    requires i < |bs| && r + HEADER < bs[i].size && j <= |bs| && j != i && j != i + 1
    ensures var k := if j < i then j else j - 1;
            Cut(bs, i, r)[j] == bs[k] && Next(Cut(bs, i, r), j) == Next(bs, k)
  {
  }

  /** Writing a fresh header into a payload and linking it in splits the block. */
  lemma EncodesCut(m: seq<byte>, base: nat, bs: seq<Block>, i: nat, r: nat)
    requires Encodes(m, base, bs) && i < |bs| && 0 < r && r + HEADER < bs[i].size
    ensures base <= bs[i].addr && bs[i].End() - base <= |m|
    ensures Encodes(CutBytes(m, base, bs, i, r), base, Cut(bs, i, r))
  {
    TilesAt(bs, i, base, base + |m|);
    CutTiles(bs, i, r, base, base + |m|);
    forall j | 0 <= j < |Cut(bs, i, r)| ensures HeaderAt(CutBytes(m, base, bs, i, r), base, Cut(bs, i, r), j) {
      if j == i {
        CutOwnHeader(m, base, bs, i, r);
      } else if j == i + 1 {
        CutNewHeader(m, base, bs, i, r);
      } else {
        CutOtherHeader(m, base, bs, i, r, j);
      }
    }
  }
}
