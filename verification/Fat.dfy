/** Editing the table on disk, eight sectors at a time (MeOS/FAT32_fs.cpp:304-335, 396-399,
    497-523, 771-788). */
module FatVolume {
  import opened FatSpec

  const SECTOR_WORDS := 128     // a 512-byte sector holds 128 entries
  const BUFFER_WORDS := 1024    // a page-cache buffer holds eight sectors

  class Volume {
    /** The disk as 32-bit words; the table starts at sector fatLba and has `entries` entries. */
    const disk: array<Word>
    const fatLba: nat
    const entries: nat

    constructor (words: array<Word>, lba: nat, count: nat)
      requires SECTOR_WORDS * lba + count + BUFFER_WORDS <= words.Length
      ensures disk == words && fatLba == lba && entries == count && Valid()
    {
      disk, fatLba, entries := words, lba, count;
    }

    /** What follows the table is at least one buffer long. */
    predicate Valid() {
      SECTOR_WORDS * fatLba + entries + BUFFER_WORDS <= disk.Length
    }

    ghost function Table(): (fat: seq<Word>)
      requires Valid()
      reads disk
      ensures |fat| == entries && forall i :: 0 <= i < entries ==> fat[i] == disk[SECTOR_WORDS * fatLba + i]
    {
      disk[..][SECTOR_WORDS * fatLba..SECTOR_WORDS * fatLba + entries]
    }

    /** fat_fs_read_by_lba: eight sectors into the buffer. */
    method ReadByLba(lba: nat, buffer: array<Word>)
      requires buffer != disk && buffer.Length == BUFFER_WORDS && SECTOR_WORDS * lba + BUFFER_WORDS <= disk.Length
      modifies buffer
      ensures forall k :: 0 <= k < BUFFER_WORDS ==> buffer[k] == disk[SECTOR_WORDS * lba + k]
    {
      for i := 0 to BUFFER_WORDS
        invariant forall k :: 0 <= k < i ==> buffer[k] == disk[SECTOR_WORDS * lba + k]
      {
        buffer[i] := disk[SECTOR_WORDS * lba + i];
      }
    }

    /** fat_fs_write_by_lba: the buffer over eight sectors. */
    method WriteByLba(lba: nat, buffer: array<Word>)
      requires buffer != disk && buffer.Length == BUFFER_WORDS && SECTOR_WORDS * lba + BUFFER_WORDS <= disk.Length
      modifies disk
      ensures forall w :: 0 <= w < disk.Length ==>
                disk[w] == if SECTOR_WORDS * lba <= w < SECTOR_WORDS * lba + BUFFER_WORDS
                           then buffer[w - SECTOR_WORDS * lba] else old(disk[w])
    {
      for i := 0 to BUFFER_WORDS
        invariant forall w :: 0 <= w < disk.Length ==>
                    disk[w] == if SECTOR_WORDS * lba <= w < SECTOR_WORDS * lba + i
                               then buffer[w - SECTOR_WORDS * lba] else old(disk[w])
      {
        disk[SECTOR_WORDS * lba + i] := buffer[i];
      }
    }

    /** Where the word of an entry stands on the disk, for numbers behind the table too. */
    function WordAt(fatIndex: nat): nat {
      SECTOR_WORDS * fatLba + fatIndex
    }

    /** The eight sectors from that of the entry on are on the disk. */
    predicate OnDisk(fatIndex: nat) {
      SECTOR_WORDS * (fatLba + fatIndex / SECTOR_WORDS) + BUFFER_WORDS <= disk.Length
    }

    /** fat_fs_mark_cluster for any number; a read behind the end of the disk fails.  Although it
        reads and writes 1024 words, one word of the disk changes: the entry, or for a number that
        is no cluster the word that would be its entry. */
    method MarkCluster(fatIndex: nat, value: Word, luck: Luck) returns (last: Word)
      requires Valid()
      modifies disk
      ensures luck == Works && OnDisk(fatIndex) ==>
                last == Low28(old(disk[..])[WordAt(fatIndex)])
                    && disk[..] == old(disk[..])[WordAt(fatIndex) := Low28(value)]
      ensures !(luck == Works && OnDisk(fatIndex)) ==>
                disk[..] == old(disk[..]) && last == if luck == NoBuffer then ERROR_OCCUR else 0
      ensures fatIndex < entries ==> (Table(), last) == Mark(old(Table()), fatIndex, value, luck)
    {
      hide Low28;
      var offset, slot := fatIndex / SECTOR_WORDS, fatIndex % SECTOR_WORDS;
      assert SECTOR_WORDS * (fatLba + offset) + slot == WordAt(fatIndex);
      if luck == NoBuffer {
        return ERROR_OCCUR;
      }
      var address := new Word[BUFFER_WORDS];
      if luck == ReadFails || !OnDisk(fatIndex) {
        return 0;
      }
      ReadByLba(fatLba + offset, address);
      last := Low28(address[slot]);
      address[slot] := Low28(value);
      if luck == WriteFails {
        return 0;
      }
      WriteBack(fatLba + offset, address, slot, fatIndex, Low28(value));
    }

    /** Writing back sectors of which one word was changed. */
    method WriteBack(lba: nat, buffer: array<Word>, slot: nat, fatIndex: nat, v: Word)
      requires Valid() && slot < SECTOR_WORDS && SECTOR_WORDS * lba + slot == WordAt(fatIndex)
      requires buffer != disk && buffer.Length == BUFFER_WORDS && SECTOR_WORDS * lba + BUFFER_WORDS <= disk.Length
      requires forall k :: 0 <= k < BUFFER_WORDS ==> buffer[k] == if k == slot then v else disk[SECTOR_WORDS * lba + k]
      modifies disk
      ensures WordAt(fatIndex) < disk.Length && disk[..] == old(disk[..])[WordAt(fatIndex) := v]
      ensures fatIndex < entries ==> Table() == old(Table())[fatIndex := v]
    {
      WriteByLba(lba, buffer);
      OneWordChanged(old(disk[..]), disk[..], buffer[..], SECTOR_WORDS * lba, slot, v);
      if fatIndex < entries { SliceChanged(old(disk[..]), SECTOR_WORDS * fatLba, entries, fatIndex, v); }
    }

    /** The chain walk of fat_fs_delete_node, from the file's first cluster, up to the mark that
        leaves the table if one does. */
    method DeleteChain(first: Word, lucks: seq<Luck>) returns (outcome: Outcome)
      requires Valid()
      modifies disk
      ensures (Table(), outcome) == Walk(old(Table()), first, lucks)
      ensures forall w :: 0 <= w < disk.Length && !(0 <= w - SECTOR_WORDS * fatLba < entries) ==>
                disk[w] == old(disk[w])
    {
      hide Low28;
      var next: Word := first;
      var k := 0;
      assert lucks[0..] == lucks;
      while next < FAT_EOF && k < |lucks|
        invariant k <= |lucks|
        invariant Walk(Table(), next, lucks[k..]) == Walk(old(Table()), first, lucks)
        invariant forall w :: 0 <= w < disk.Length && !(0 <= w - SECTOR_WORDS * fatLba < entries) ==>
                    disk[w] == old(disk[w])
        decreases |lucks| - k
      {
        assert lucks[k..][1..] == lucks[k + 1..] && lucks[k..][0] == lucks[k];
        if next >= entries && lucks[k] == Works { return Outside(next); }
        next := Step(next, lucks[k]);
        k := k + 1;
        if next == 0 { return Failure; }
      }
      outcome := if next >= FAT_EOF then Success else Running(next);
    }

    /** One mark of the walk that stays in the table. */
    method Step(cluster: Word, luck: Luck) returns (next: Word)
      requires Valid() && (cluster < entries || luck != Works)
      modifies disk
      ensures (Table(), next) == Mark(old(Table()), cluster, 0, luck)
      ensures forall w :: 0 <= w < disk.Length && !(0 <= w - SECTOR_WORDS * fatLba < entries) ==>
                disk[w] == old(disk[w])
    {
      hide Low28;
      ghost var before := disk[..];
      next := MarkCluster(cluster, 0, luck);
      assert forall w :: 0 <= w < |before| ==> disk[w] == disk[..][w] && before[w] == old(disk[w]);
      if luck != Works { assert Table() == old(Table()); }
    }
  }

  /** Reading 1024 words, changing one and writing them back changes one word. */
  lemma OneWordChanged(before: seq<Word>, after: seq<Word>, buffer: seq<Word>, at: nat, slot: nat, v: Word)
    requires |after| == |before| && |buffer| == BUFFER_WORDS && slot < BUFFER_WORDS && at + BUFFER_WORDS <= |before|
    requires forall k :: 0 <= k < BUFFER_WORDS ==> buffer[k] == if k == slot then v else before[at + k]
    requires forall w :: 0 <= w < |after| ==>
               after[w] == if at <= w < at + BUFFER_WORDS then buffer[w - at] else before[w]
    ensures after == before[at + slot := v]
  {
    forall w | 0 <= w < |after| ensures after[w] == before[at + slot := v][w] {
      if at <= w < at + BUFFER_WORDS { assert buffer[w - at] == if w - at == slot then v else before[at + (w - at)]; }
    }
  }

  lemma SliceChanged(words: seq<Word>, at: nat, n: nat, i: nat, v: Word)
    requires at + n <= |words| && i < n
    ensures words[at + i := v][at..at + n] == words[at..at + n][i := v]
  {
  }
}
