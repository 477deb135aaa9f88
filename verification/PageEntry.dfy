/** One page-table or directory entry, and the parts of an address (MeOS/vmmngr_pte.cpp,
    MeOS/vmmngr_pde.cpp and the index macros of MeOS/mmngr_virtual.h). */
module PageEntry {

  // ----- ten-bit fields of an address

  function High(a: bv32): bv32 {
    (a >> 22) & 0x3FF
  }

  function Middle(a: bv32): bv32 {
    (a >> 12) & 0x3FF
  }

  function Join(high: bv32, middle: bv32): bv32 {
    (high << 22) | (middle << 12)
  }

  function Narrow(field: bv32): bv10
    requires field <= 0x3FF
  {
    field as bv10
  }

  function Widen(b: bv10): bv32 {
    b as bv32
  }

  function ToNat(b: bv10): nat {
    b as int
  }

  function ToBits(i: nat): bv10
    requires i < 1024
  {
    i as bv10
  }

  /** The index a ten-bit field stands for, and the field of an index. */
  function Index(field: bv32): (i: nat)
    requires field <= 0x3FF
    ensures i < 1024
  {
    NatSmall(Narrow(field));
    ToNat(Narrow(field))
  }

  lemma NatSmall(b: bv10)
    ensures ToNat(b) < 1024
  {
  }

  function Field(i: nat): bv32
    requires i < 1024
  {
    Widen(ToBits(i))
  }

  lemma FieldsSmall(a: bv32)
    ensures High(a) <= 0x3FF && Middle(a) <= 0x3FF
  {
  }

  function DirIndex(v: bv32): (i: nat)
    ensures i < 1024
  {
    FieldsSmall(v);
    Index(High(v))
  }

  function TableIndex(v: bv32): (j: nat)
    ensures j < 1024
  {
    FieldsSmall(v);
    Index(Middle(v))
  }

  /** The number of the frame (or page) an address lies in. */
  function Number(a: bv32): (n: nat)
    ensures n < 0x10_0000
  {
    1024 * DirIndex(a) + TableIndex(a)
  }

  /** The address of frame number n: n * 4096. */
  function AddrOf(n: nat): bv32
    requires n < 0x10_0000
  {
    Join(Field(n / 1024), Field(n % 1024))
  }

  function Offset(v: bv32): bv32 {
    v & 0xFFF
  }

  /** A 32-bit address given as a number: its page's address with the offset below it. */
  function Word32(a: nat): bv32
    requires a < 0x1_0000_0000
  {
    WithLow(AddrOf(a / 4096), a % 4096)
  }

  function WithLow(x: bv32, i: nat): bv32
    requires i < 4096
  {
    x | LowField(i)
  }

  function LowField(i: nat): bv32
    requires i < 4096
  {
    (i as bv12) as bv32
  }

  // ----- entries: bit 0 is the present bit, bit 1 the writable bit, bits 12-31 the frame

  predicate IsPresent(e: bv32) {
    e & 1 != 0
  }

  function GetFrame(e: bv32): bv32 {
    e & 0xFFFF_F000
  }

  function SetFrame(e: bv32, addr: bv32): bv32 {
    (e & !0xFFFF_F000) | addr
  }

  function AddAttrib(e: bv32, attrib: bv32): bv32 {
    e | attrib
  }

  function DelAttrib(e: bv32, attrib: bv32): bv32 {
    e & !attrib
  }

  /** Flags as the callers pass them: the present bit and no frame bits. */
  predicate GoodFlags(flags: bv32) {
    flags & 0xFFFF_F000 == 0 && flags & 1 != 0
  }

  // ----- laws of the fields

  lemma JoinSplit(high: bv32, middle: bv32)
    requires high <= 0x3FF && middle <= 0x3FF
    ensures High(Join(high, middle)) == high && Middle(Join(high, middle)) == middle
    ensures Offset(Join(high, middle)) == 0
  {
  }

  lemma SameFields(a: bv32, b: bv32)
    requires High(a) == High(b) && Middle(a) == Middle(b)
    ensures GetFrame(a) == GetFrame(b)
  {
  }

  lemma SameFrame(a: bv32, b: bv32)
    requires GetFrame(a) == GetFrame(b)
    ensures High(a) == High(b) && Middle(a) == Middle(b)
  {
  }

  lemma NarrowWiden(b: bv10)
    ensures Widen(b) <= 0x3FF && Narrow(Widen(b)) == b
  {
  }

  lemma WidenNarrow(x: bv32)
    requires x <= 0x3FF
    ensures Widen(Narrow(x)) == x
  {
  }

  lemma NatZero()
    ensures ToNat(0) == 0
  {
  }

  lemma NatNext(b: bv10)
    requires b != 0x3FF
    ensures ToNat(b + 1) == ToNat(b) + 1
  {
  }

  lemma NatLast()
    ensures ToNat(0x3FF) == 1023
  {
  }

  /** Every index below 1024 is the value of some ten bits. */
  lemma {:induction false} BitsReach(i: nat) returns (b: bv10)
    requires i < 1024
    ensures ToNat(b) == i
  {
    hide ToNat;
    NatZero();
    NatLast();
    b := 0;
    if i > 0 {
      b := BitsReach(i - 1);
      NatNext(b);
      b := b + 1;
    }
  }

  lemma NatBits(i: nat)
    requires i < 1024
    ensures ToNat(ToBits(i)) == i
  {
    hide ToNat, ToBits;
    var b := BitsReach(i);
    BitsNat(b);
  }

  lemma BitsNat(b: bv10)
    ensures ToBits(ToNat(b)) == b
  {
  }

  lemma IndexOfField(i: nat)
    requires i < 1024
    ensures Field(i) <= 0x3FF && Index(Field(i)) == i
  {
    hide Narrow, Widen, ToNat, ToBits;
    NarrowWiden(ToBits(i));
    NatBits(i);
  }

  lemma IndexInjective(x: bv32, y: bv32)
    requires x <= 0x3FF && y <= 0x3FF && Index(x) == Index(y)
    ensures x == y
  {
    hide Narrow, Widen, ToNat, ToBits;
    BitsNat(Narrow(x));
    BitsNat(Narrow(y));
    WidenNarrow(x);
    WidenNarrow(y);
  }

  /** A frame number is recovered from its address. */
  lemma NumberOfAddr(n: nat)
    requires n < 0x10_0000
    ensures Number(AddrOf(n)) == n && Offset(AddrOf(n)) == 0
  {
    hide High, Middle, Join, Offset, Index, Field;
    IndexOfField(n / 1024);
    IndexOfField(n % 1024);
    JoinSplit(Field(n / 1024), Field(n % 1024));
  }

  /** Two addresses have the same number exactly when they lie in the same frame. */
  lemma NumberIsFrame(a: bv32, b: bv32)
    ensures Number(a) == Number(b) <==> GetFrame(a) == GetFrame(b)
    ensures DirIndex(a) == DirIndex(b) && TableIndex(a) == TableIndex(b) <==> Number(a) == Number(b)
  {
    hide High, Middle, Index, GetFrame;
    FieldsSmall(a);
    FieldsSmall(b);
    if GetFrame(a) == GetFrame(b) { SameFrame(a, b); }
    if High(a) == High(b) && Middle(a) == Middle(b) { SameFields(a, b); }
    if DirIndex(a) == DirIndex(b) { IndexInjective(High(a), High(b)); }
    if TableIndex(a) == TableIndex(b) { IndexInjective(Middle(a), Middle(b)); }
  }

  /** The address of the word that holds the byte at `v`. */
  function WordOf(v: bv32): bv32 {
    v & 0xFFFF_FFFC
  }

  function ShiftTen(v: bv32): bv32 {
    v << 10
  }

  function JoinWord(frame: bv32, middle: bv32): bv32 {
    frame | (middle << 2)
  }

  lemma WordJoins(v: bv32)
    ensures WordOf(v) == JoinWord(GetFrame(v), Middle(ShiftTen(v)))
  {
  }

  lemma WordSplits(v: bv32)
    ensures GetFrame(WordOf(v)) == GetFrame(v) && Middle(ShiftTen(WordOf(v))) == Middle(ShiftTen(v))
  {
  }

  lemma WordParts(v: bv32, w: bv32)
    ensures WordOf(v) == WordOf(w) <==> GetFrame(v) == GetFrame(w) && Middle(ShiftTen(v)) == Middle(ShiftTen(w))
  {
    hide WordOf, GetFrame, Middle, ShiftTen, JoinWord;
    WordJoins(v);
    WordJoins(w);
    WordSplits(v);
    WordSplits(w);
  }

  function Plus(x: bv32, y: bv32): bv32 {
    x + y
  }

  /** Where an entry sends an address: its frame plus the offset in the page. */
  function PhysAddr(e: bv32, v: bv32): bv32 {
    Plus(GetFrame(e), Offset(v))
  }

  /** Adding an in-page offset to a frame address never carries into the frame, and the offset is
      that of the sum. */
  lemma OffsetStays(e: bv32, v: bv32)
    ensures GetFrame(PhysAddr(e, v)) == GetFrame(e)
    ensures Offset(PhysAddr(e, v)) == Offset(v)
  {
  }

  lemma PhysAddrByFrame(e: bv32, f: bv32, v: bv32)
    requires GetFrame(e) == GetFrame(f)
    ensures PhysAddr(e, v) == PhysAddr(f, v)
  {
    hide GetFrame, Offset, Plus;
  }

  // ----- laws of addresses given as numbers

  lemma LowSmall(b: bv12)
    ensures b as bv32 <= 0xFFF
  {
  }

  lemma LowFieldSmall(i: nat)
    requires i < 4096
    ensures LowField(i) <= 0xFFF
  {
    LowSmall(i as bv12);
  }

  lemma LowKeepsFrame(x: bv32, y: bv32)
    requires y <= 0xFFF
    ensures GetFrame(x | y) == GetFrame(x)
  {
  }

  lemma WithLowFrame(x: bv32, i: nat)
    requires i < 4096
    ensures GetFrame(WithLow(x, i)) == GetFrame(x)
  {
    hide LowField, GetFrame;
    LowFieldSmall(i);
    LowKeepsFrame(x, LowField(i));
  }

  /** The number of an address's page. */
  lemma Word32Page(a: nat)
    requires a < 0x1_0000_0000
    ensures Number(Word32(a)) == a / 4096
  {
    hide Number, WithLow, GetFrame, AddrOf, DirIndex, TableIndex;
    WithLowFrame(AddrOf(a / 4096), a % 4096);
    NumberIsFrame(Word32(a), AddrOf(a / 4096));
    NumberOfAddr(a / 4096);
  }

  lemma HighBelow(x: bv32)
    requires High(x) < 0x3C0
    ensures x < 0xF000_0000
  {
  }

  lemma NatBelow(b: bv10)
    requires ToNat(b) < 960
    ensures b < 0x3C0
  {
  }

  lemma WidenBelow(b: bv10)
    requires b < 0x3C0
    ensures Widen(b) < 0x3C0
  {
  }

  lemma FieldBelow(i: nat)
    requires i < 960
    ensures Field(i) < 0x3C0
  {
    hide ToNat, ToBits, Widen;
    NatBits(i);
    NatBelow(ToBits(i));
    WidenBelow(ToBits(i));
  }

  /** Addresses below 0xF0000000 as numbers are so as words. */
  lemma Word32Below(a: nat)
    requires a < 0xF000_0000
    ensures Word32(a) < 0xF000_0000
  {
    hide High, Middle, Join, Field, WithLow, GetFrame, Offset;
    var n := a / 4096;
    IndexOfField(n / 1024);
    IndexOfField(n % 1024);
    JoinSplit(Field(n / 1024), Field(n % 1024));
    FieldBelow(n / 1024);
    WithLowFrame(AddrOf(n), a % 4096);
    SameFrame(Word32(a), AddrOf(n));
    HighBelow(Word32(a));
  }

  // ----- laws of the entries

  lemma SetFrameSets(e: bv32, addr: bv32)
    ensures GetFrame(SetFrame(e, addr)) == GetFrame(addr)
  {
  }

  lemma SetFrameKeepsPresent(e: bv32, addr: bv32)
    requires IsPresent(e)
    ensures IsPresent(SetFrame(e, addr))
  {
  }

  lemma FlagsKeepFrame(e: bv32, flags: bv32)
    requires GoodFlags(flags)
    ensures GetFrame(AddAttrib(e, flags)) == GetFrame(e)
  {
  }

  lemma FlagsMakePresent(e: bv32, flags: bv32)
    requires GoodFlags(flags)
    ensures IsPresent(AddAttrib(e, flags))
  {
  }

  lemma DelKeepsFrame(e: bv32, attrib: bv32)
    requires attrib & 0xFFFF_F000 == 0
    ensures GetFrame(DelAttrib(e, attrib)) == GetFrame(e)
  {
  }

  lemma DelMakesAbsent(e: bv32)
    ensures !IsPresent(DelAttrib(DelAttrib(e, 1), 2))
  {
  }

  lemma FrameTwice(e: bv32)
    ensures GetFrame(GetFrame(e)) == GetFrame(e)
    ensures Offset(e) == 0 ==> GetFrame(e) == e
    ensures GetFrame(0) == 0
  {
  }

  /** The entry map_page writes: present, with the frame it was given. */
  lemma MappedEntry(e: bv32, flags: bv32, addr: bv32)
    requires GoodFlags(flags)
    ensures var r := SetFrame(AddAttrib(e, flags), addr); IsPresent(r) && Number(r) == Number(addr)
  {
    hide Number, GetFrame, SetFrame, AddAttrib, IsPresent, GoodFlags, DirIndex, TableIndex;
    FlagsMakePresent(e, flags);
    SetFrameKeepsPresent(AddAttrib(e, flags), addr);
    SetFrameSets(AddAttrib(e, flags), addr);
    NumberIsFrame(SetFrame(AddAttrib(e, flags), addr), addr);
  }

  /** The entry create_table writes, from a table address. */
  lemma TableEntry(e: bv32, flags: bv32, addr: bv32)
    requires GoodFlags(flags)
    ensures var r := AddAttrib(SetFrame(e, addr), flags); IsPresent(r) && Number(r) == Number(addr)
  {
    hide Number, GetFrame, SetFrame, AddAttrib, IsPresent, GoodFlags, DirIndex, TableIndex;
    SetFrameSets(e, addr);
    FlagsKeepFrame(SetFrame(e, addr), flags);
    FlagsMakePresent(SetFrame(e, addr), flags);
    NumberIsFrame(AddAttrib(SetFrame(e, addr), flags), addr);
  }

  /** The entry free_page leaves: absent, with its frame still in it. */
  lemma FreedEntry(e: bv32)
    ensures var r := DelAttrib(DelAttrib(e, 1), 2); !IsPresent(r) && Number(r) == Number(e)
  {
    hide Number, GetFrame, DelAttrib, IsPresent, DirIndex, TableIndex;
    DelKeepsFrame(e, 1);
    DelKeepsFrame(DelAttrib(e, 1), 2);
    DelMakesAbsent(e);
    NumberIsFrame(DelAttrib(DelAttrib(e, 1), 2), e);
  }

  /** The low bits of three words together. */
  function Joined(a: bv32, b: bv32, c: bv32): bv32 {
    Offset(a) | Offset(b) | Offset(c)
  }

  /** The low bits of an entry that map_page writes: what was there, the flags, and whatever the
      physical address has below its frame. */
  lemma MappedFlags(e: bv32, flags: bv32, addr: bv32)
    ensures Offset(SetFrame(AddAttrib(e, flags), addr)) == Joined(e, flags, addr)
  {
  }

  lemma TableFlags(e: bv32, flags: bv32, addr: bv32)
    ensures Offset(AddAttrib(SetFrame(e, addr), flags)) == Joined(e, flags, addr)
  {
  }

  function WithoutTwo(e: bv32): bv32 {
    Offset(e) & 0xFFC
  }

  /** And that free_page leaves: all but the present and the writable bit. */
  lemma FreedFlags(e: bv32)
    ensures Offset(DelAttrib(DelAttrib(e, 1), 2)) == WithoutTwo(e)
  {
  }

  lemma FieldZero()
    ensures Field(0) == 0 && Join(0, 0) == 0
  {
  }

  lemma ZeroNumber()
    ensures Number(0) == 0 && AddrOf(0) == 0
  {
    hide Join, Field, Number;
    FieldZero();
    NumberOfAddr(0);
  }

  /** The frame an entry holds, as an address, is the address of its frame number. */
  lemma GetFrameNumber(e: bv32)
    ensures GetFrame(e) == AddrOf(Number(e)) && Number(GetFrame(e)) == Number(e)
    ensures GetFrame(e) == 0 <==> Number(e) == 0
  {
    hide Number, AddrOf, GetFrame, DirIndex, TableIndex, Offset;
    FrameTwice(e);
    NumberIsFrame(GetFrame(e), e);
    NumberOfAddr(Number(e));
    FrameTwice(AddrOf(Number(e)));
    NumberIsFrame(AddrOf(Number(e)), e);
    ZeroNumber();
    NumberIsFrame(e, 0);
  }
}
