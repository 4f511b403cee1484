/** Loading a hive file: its bins are read block by block into a storage.  What was saved comes back. */
module HiveLoad {
  import opened Allocator
  import opened AllocatorSteps
  import opened Cells
  import opened Storage
  import Files
  import Flush
  import Header
  import HiveSync
  import Payload
  import Words

  // ----- words as the cells see them

  /** A 32-bit word as a signed number. */
  function Signed(w: Words.Word): int { if w < 0x8000_0000 then w else w - 0x1_0000_0000 }

  function Stored(x: int): Words.Word { x % 0x1_0000_0000 }

  /** Block k of a storage, as it is written to the hive file. */
  ghost function BlockOf(mem: Mem, k: nat): (b: Flush.Block)
    ensures forall j {:trigger b[j]} :: 0 <= j < 1024 ==> b[j] == Stored(Payload.Word(mem, 4096 * k, j))
  {
    seq(1024, j requires 0 <= j => Stored(Payload.Word(mem, 4096 * k, j)))
  }

  ghost function Image(mem: Mem, n: nat): (blocks: seq<Flush.Block>)
    ensures |blocks| == n && forall k {:trigger blocks[k]} :: 0 <= k < n ==> blocks[k] == BlockOf(mem, k)
  {
    seq(n, k requires 0 <= k => BlockOf(mem, k))
  }

  /** A storage that has been written and read again. */
  ghost function Reloaded(mem: Mem): (r: Mem)
    ensures r.Keys == mem.Keys && forall a {:trigger r[a]} :: a in mem ==> r[a] == Signed(Stored(mem[a]))
  {
    map a | a in mem :: Signed(Stored(mem[a]))
  }

  // ----- reading bins

  datatype Bins = NoBins | Bins(blockList: seq<MapEntry>, mem: Mem, healed: bool)

  /** The header of the bin that starts at this block. */
  predicate BinSound(header: Flush.Block, index: nat)
  {
    header[0] == HV_HBIN_SIGNATURE && header[2] % 4096 == 0 && header[2] != 0 && header[1] / 4096 == index
  }

  /** A bin with a bad header is made one of a single block. */
  function Repaired(header: Flush.Block, index: nat): (r: Flush.Block)
    requires index < 0x10_0000
    ensures BinSound(r, index) && r[2] == 4096
  {
    header[0 := HV_HBIN_SIGNATURE][1 := index * 4096][2 := 4096]
  }

  function EntriesOf(first: nat, count: nat): (entries: seq<MapEntry>)
    ensures |entries| == count
    ensures forall i {:trigger entries[i]} :: 0 <= i < count ==> entries[i] == MapEntry(4096 * (first + i), 4096 * first)
  {
    seq(count, i requires 0 <= i => MapEntry(4096 * (first + i), 4096 * first))
  }

  predicate InWords(a: nat, start: nat, count: nat) { start <= a < start + 4 * count && a % 4 == 0 }

  /** The words of a bin in memory. */
  function MemOf(start: nat, words: seq<Words.Word>): (mem: Mem)
    ensures forall a {:trigger a in mem} :: a in mem <==> InWords(a, start, |words|)
    ensures forall a: nat {:trigger mem[a]} :: InWords(a, start, |words|) ==> mem[a] == Signed(words[(a - start) / 4])
  {
    map a: nat | start <= a < start + 4 * |words| && InWords(a, start, |words|) :: Signed(words[(a - start) / 4])
  }

  function WithBin(bin: Bins, rest: Bins): Bins
  {
    if bin.NoBins? || rest.NoBins? then NoBins
    else Bins(bin.blockList + rest.blockList, bin.mem + rest.mem, bin.healed || rest.healed)
  }

  /** The bin that starts at this block: its first block decides how many more it has. */
  function BinAt(file: Files.File, index: nat, heal: bool): (bin: Bins)
    requires index < 0x10_0000
    ensures bin.Bins? ==> |bin.blockList| > 0
  {
    if !Files.Holds(file, Flush.BlockAt(index), 1024) then NoBins
    else
      var read: Flush.Block := Files.Read(file, Flush.BlockAt(index), 1024);
      var sound := BinSound(read, index);
      if !sound && !heal then NoBins
      else
        var header := if sound then read else Repaired(read, index);
        var count := header[2] / 4096;
        assert count > 0;
        if !Files.Holds(file, Flush.BlockAt(index + 1), 1024 * (count - 1)) then NoBins
        else
          var words := header + Files.Read(file, Flush.BlockAt(index + 1), 1024 * (count - 1));
          Bins(EntriesOf(index, count), MemOf(4096 * index, words), !sound)
  }

  /** The bins from this block up to the end of the storage. */
  function BinsFrom(file: Files.File, index: nat, length: nat, heal: bool): Bins
    requires length <= 0x10_0000
    decreases length - index
  {
    if index >= length then Bins([], map[], false)
    else
      var bin := BinAt(file, index, heal);
      if bin.NoBins? then NoBins
      else WithBin(bin, BinsFrom(file, index + |bin.blockList|, length, heal))
  }

  // ----- what is read

  /** Block s is there and starts with the header of a bin: its signature is "hbin", its offset is in this block,
      and its size is a number of blocks. */
  predicate HeadsBin(file: Files.File, s: nat)
  {
    && Files.Holds(file, 1024 + 1024 * s, 1024)
    && file[1024 + 1024 * s] == 0x6e696268 && file[1024 + 1024 * s + 1] / 4096 == s
    && file[1024 + 1024 * s + 2] % 4096 == 0 && file[1024 + 1024 * s + 2] > 0
  }

  /** A bin of the blocks from s up to next: that is what its header says or, where the header is wrong and is to
      be healed, it is one block. */
  predicate Leads(file: Files.File, s: nat, next: nat, heal: bool)
  {
    && s < next && Files.Holds(file, 1024 + 1024 * s, 1024 * (next - s))
    && if HeadsBin(file, s) then file[1024 + 1024 * s + 2] == 4096 * (next - s) else heal && next == s + 1
  }

  /** Bins start at each of these blocks but the last, which is where they end: one behind the other, from the first
      block on, up to the length. */
  ghost predicate Divides(file: Files.File, starts: seq<nat>, first: nat, length: nat, heal: bool)
  {
    && |starts| > 0 && starts[0] == first && starts[|starts| - 1] >= length
    && forall i {:trigger LeadsOn(file, starts, i, length, heal)} :: 0 <= i < |starts| - 1 ==> LeadsOn(file, starts, i, length, heal)
  }

  /** Bin i, with the start of the next. */
  ghost predicate LeadsOn(file: Files.File, starts: seq<nat>, i: nat, length: nat, heal: bool)
    requires i + 1 < |starts|
  {
    starts[i] < length && Leads(file, starts[i], starts[i + 1], heal)
  }

  /** Word j of the bin that starts at block s, as it is read: the file's, but for the three words that make a wrong
      header right. */
  function WordRead(file: Files.File, s: nat, j: nat): Words.Word
    requires 1024 + 1024 * s + j in file
  {
    if HeadsBin(file, s) || j >= 3 then file[1024 + 1024 * s + j]
    else if j == 0 then 0x6e696268 else if j == 1 then Stored(4096 * s) else 4096
  }

  /** A block of the bin that starts at block s. */
  ghost predicate BlockRead(file: Files.File, first: nat, bins: Bins, s: nat, k: nat)
    requires bins.Bins? && s <= k
  {
    && first <= k < first + |bins.blockList| && bins.blockList[k - first] == MapEntry(4096 * k, 4096 * s)
    && forall j {:trigger WordInMemory(file, bins.mem, s, j)} :: 1024 * (k - s) <= j < 1024 * (k - s + 1) ==> WordInMemory(file, bins.mem, s, j)
  }

  ghost predicate WordInMemory(file: Files.File, mem: Mem, s: nat, j: nat)
  {
    1024 + 1024 * s + j in file && 4096 * s + 4 * j in mem && mem[4096 * s + 4 * j] == Signed(WordRead(file, s, j))
  }

  /** The bins are read: the block map sends each block to the start of its bin, and the memory holds the words. */
  ghost predicate BinsRead(file: Files.File, starts: seq<nat>, bins: Bins)
    requires |starts| > 0 && bins.Bins?
  {
    && starts[0] + |bins.blockList| == starts[|starts| - 1]
    && (forall i {:trigger BlocksRead(file, starts, bins, i)} :: 0 <= i < |starts| - 1 ==> BlocksRead(file, starts, bins, i))
    && (forall a {:trigger a in bins.mem} :: a in bins.mem ==> a % 4 == 0 && 4096 * starts[0] <= a < 4096 * starts[|starts| - 1])
    && (bins.healed <==> exists i :: 0 <= i < |starts| - 1 && !HeadsBin(file, starts[i]))
  }

  /** All blocks of bin i. */
  ghost predicate BlocksRead(file: Files.File, starts: seq<nat>, bins: Bins, i: nat)
    requires i + 1 < |starts| && bins.Bins?
  {
    forall k {:trigger BlockRead(file, starts[0], bins, starts[i], k)} :: starts[i] <= k < starts[i + 1] ==> BlockRead(file, starts[0], bins, starts[i], k)
  }

  /** A bin is read exactly if it leads somewhere. */
  lemma BinLeads(file: Files.File, s: nat, heal: bool, next: nat)
    requires s < 0x10_0000
    ensures Leads(file, s, next, heal) ==> BinAt(file, s, heal).Bins? && |BinAt(file, s, heal).blockList| == next - s
    ensures var bin := BinAt(file, s, heal); bin.Bins? ==> Leads(file, s, s + |bin.blockList|, heal) && (bin.healed <==> !HeadsBin(file, s))
  {
    hide MemOf, EntriesOf;
  }

  lemma BinIsRead(file: Files.File, s: nat, heal: bool)
    requires s < 0x10_0000
    ensures var bin := BinAt(file, s, heal); bin.Bins? ==> BinsRead(file, [s, s + |bin.blockList|], bin)
  {
    var bin := BinAt(file, s, heal);
    if bin.Bins? {
      var starts := [s, s + |bin.blockList|];
      forall k | s <= k < s + |bin.blockList| ensures BlockRead(file, s, bin, s, k) { BlockIsRead(file, s, heal, k); }
      BinLeads(file, s, heal, s);
      hide BlockRead, HeadsBin, MemOf;
      assert BlocksRead(file, starts, bin, 0);
      forall a | a in bin.mem ensures a % 4 == 0 && 4096 * s <= a < 4096 * starts[1] { BinMemory(file, s, heal, a); }
      assert starts[0] == s;
    }
  }

  lemma BinExactly(file: Files.File, s: nat, heal: bool)
    requires s < 0x10_0000
    ensures var bin := BinAt(file, s, heal);
      && (bin.Bins? <==> exists next :: Leads(file, s, next, heal))
      && (bin.Bins? ==> BinsRead(file, [s, s + |bin.blockList|], bin))
  {
    hide BinAt, Leads, BinsRead;
    BinIsRead(file, s, heal);
    BinLeads(file, s, heal, s);
    forall next | Leads(file, s, next, heal) ensures BinAt(file, s, heal).Bins? { BinLeads(file, s, heal, next); }
  }

  lemma BinMemory(file: Files.File, s: nat, heal: bool, a: nat)
    requires s < 0x10_0000 && BinAt(file, s, heal).Bins?
    ensures a in BinAt(file, s, heal).mem <==> a % 4 == 0 && 4096 * s <= a < 4096 * (s + |BinAt(file, s, heal).blockList|)
  {
    hide HeadsBin;
  }

  lemma BlockIsRead(file: Files.File, s: nat, heal: bool, k: nat)
    requires s < 0x10_0000 && BinAt(file, s, heal).Bins? && s <= k < s + |BinAt(file, s, heal).blockList|
    ensures BlockRead(file, s, BinAt(file, s, heal), s, k)
  {
    var bin := BinAt(file, s, heal);
    forall j: nat | 1024 * (k - s) <= j < 1024 * (k - s + 1) ensures WordInMemory(file, bin.mem, s, j) {
      BinWords(file, s, heal, j);
    }
  }

  ghost function WordsOfBin(file: Files.File, s: nat, count: nat): (words: seq<Words.Word>)
    requires Files.Holds(file, 1024 + 1024 * s, 1024 * count)
    ensures |words| == 1024 * count && forall j :: 0 <= j < |words| ==> words[j] == WordRead(file, s, j)
  {
    seq(1024 * count, j requires 0 <= j < 1024 * count => WordRead(file, s, j))
  }

  lemma BinMemoryIs(file: Files.File, s: nat, heal: bool)
    requires s < 0x10_0000 && BinAt(file, s, heal).Bins?
    ensures var bin := BinAt(file, s, heal);
      |bin.blockList| > 0 && Files.Holds(file, 1024 + 1024 * s, 1024 * |bin.blockList|) && bin.mem == MemOf(4096 * s, WordsOfBin(file, s, |bin.blockList|))
  {
    var bin := BinAt(file, s, heal);
    var read := Files.Read(file, Flush.BlockAt(s), 1024);
    var header := if BinSound(read, s) then read else Repaired(read, s);
    var words := header + Files.Read(file, Flush.BlockAt(s + 1), 1024 * (|bin.blockList| - 1));
    assert bin.mem == MemOf(4096 * s, words) && (HeadsBin(file, s) <==> BinSound(read, s));
    assert words == WordsOfBin(file, s, |bin.blockList|);
  }

  /** Word j of a bin. */
  lemma BinWords(file: Files.File, s: nat, heal: bool, j: nat)
    requires s < 0x10_0000 && BinAt(file, s, heal).Bins? && j < 1024 * |BinAt(file, s, heal).blockList|
    ensures WordInMemory(file, BinAt(file, s, heal).mem, s, j)
  {
    BinMemoryIs(file, s, heal);
    hide BinAt, MemOf, HeadsBin, WordsOfBin, WordRead;
    assert InWords(4096 * s + 4 * j, 4096 * s, 1024 * |BinAt(file, s, heal).blockList|);
  }

  /** The bins from a block on are read exactly if they divide the rest of the storage, and where they start is
      determined. */
  lemma {:induction false} DividedAreRead(file: Files.File, starts: seq<nat>, first: nat, length: nat, heal: bool)
    requires length <= 0x10_0000 && Divides(file, starts, first, length, heal)
    ensures BinsFrom(file, first, length, heal).Bins?
    decreases length - first
  {
    if first < length {
      assert LeadsOn(file, starts, 0, length, heal);
      BinLeads(file, first, heal, starts[1]);
      DividesRest(file, starts, first, length, heal);
      hide BinAt, Leads, Divides;
      DividedAreRead(file, starts[1..], starts[1], length, heal);
    }
  }

  lemma DividesRest(file: Files.File, starts: seq<nat>, first: nat, length: nat, heal: bool)
    requires Divides(file, starts, first, length, heal) && |starts| > 1
    ensures Divides(file, starts[1..], starts[1], length, heal)
  {
    hide Leads;
    var rest := starts[1..];
    forall i | 0 <= i < |rest| - 1 ensures LeadsOn(file, rest, i, length, heal) { assert LeadsOn(file, starts, i + 1, length, heal); }
  }

  lemma {:induction false} ReadAreDivided(file: Files.File, first: nat, length: nat, heal: bool) returns (starts: seq<nat>)
    requires length <= 0x10_0000 && BinsFrom(file, first, length, heal).Bins?
    ensures Divides(file, starts, first, length, heal) && BinsRead(file, starts, BinsFrom(file, first, length, heal))
    decreases length - first
  {
    hide BinAt, Leads, BlockRead, HeadsBin;
    if first >= length {
      starts := [first];
    } else {
      var bin := BinAt(file, first, heal);
      var next := first + |bin.blockList|;
      BinLeads(file, first, heal, next);
      BinIsRead(file, first, heal);
      var rest := ReadAreDivided(file, next, length, heal);
      starts := [first] + rest;
      FirstBinAndRest(file, first, rest, length, heal, bin, BinsFrom(file, next, length, heal));
    }
  }

  lemma FirstBinAndRest(file: Files.File, first: nat, rest: seq<nat>, length: nat, heal: bool, bin: Bins, others: Bins)
    requires first < length && bin.Bins? && others.Bins? && Divides(file, rest, first + |bin.blockList|, length, heal)
    requires Leads(file, first, first + |bin.blockList|, heal) && BinsRead(file, [first, first + |bin.blockList|], bin) && BinsRead(file, rest, others)
    ensures Divides(file, [first] + rest, first, length, heal) && BinsRead(file, [first] + rest, WithBin(bin, others))
  {
    hide Leads, HeadsBin, BlocksRead;
    var starts, bins := [first] + rest, WithBin(bin, others);
    forall i | 0 <= i < |starts| - 1 ensures LeadsOn(file, starts, i, length, heal) {
      if i > 0 { assert LeadsOn(file, rest, i - 1, length, heal); }
    }
    forall i | 0 <= i < |starts| - 1 ensures BlocksRead(file, starts, bins, i) {
      if i == 0 {
        assert BlocksRead(file, [first, first + |bin.blockList|], bin, 0);
        FirstBlocks(file, first, rest, bin, others);
      } else {
        assert BlocksRead(file, rest, others, i - 1);
        OtherBlocks(file, first, rest, bin, others, i - 1);
      }
    }
    SomeHealed(file, first, rest);
    OneHealed(file, first, first + |bin.blockList|);
  }

  lemma OneHealed(file: Files.File, s: nat, next: nat)
    ensures (exists i :: 0 <= i < |[s, next]| - 1 && !HeadsBin(file, [s, next][i])) <==> !HeadsBin(file, s)
  {
    hide HeadsBin;
    if !HeadsBin(file, s) { assert [s, next][0] == s; }
  }

  lemma SomeHealed(file: Files.File, first: nat, rest: seq<nat>)
    requires |rest| > 0
    ensures (exists i :: 0 <= i < |[first] + rest| - 1 && !HeadsBin(file, ([first] + rest)[i])) <==>
      !HeadsBin(file, first) || exists i :: 0 <= i < |rest| - 1 && !HeadsBin(file, rest[i])
  {
    hide HeadsBin;
    var starts := [first] + rest;
    if !HeadsBin(file, first) { assert starts[0] == first; }
    if i :| 0 <= i < |rest| - 1 && !HeadsBin(file, rest[i]) { assert starts[i + 1] == rest[i]; }
  }

  lemma FirstBlocks(file: Files.File, first: nat, rest: seq<nat>, bin: Bins, others: Bins)
    requires bin.Bins? && others.Bins? && |rest| > 0 && rest[0] == first + |bin.blockList|
    requires BlocksRead(file, [first, first + |bin.blockList|], bin, 0) && forall a {:trigger a in others.mem} :: a in others.mem ==> 4096 * rest[0] <= a
    ensures BlocksRead(file, [first] + rest, WithBin(bin, others), 0)
  {
    hide HeadsBin, WordRead;
    var starts, bins, one := [first] + rest, WithBin(bin, others), [first, first + |bin.blockList|];
    forall k | starts[0] <= k < starts[1] ensures BlockRead(file, starts[0], bins, starts[0], k) {
      assert BlockRead(file, one[0], bin, one[0], k);
      FirstKept(file, first, bin, others, first, k);
    }
  }

  lemma FirstKept(file: Files.File, first: nat, bin: Bins, others: Bins, s: nat, k: nat)
    requires s <= k && bin.Bins? && others.Bins? && BlockRead(file, first, bin, s, k)
    requires forall a {:trigger a in others.mem} :: a in others.mem ==> 4096 * (k + 1) <= a
    ensures BlockRead(file, first, WithBin(bin, others), s, k)
  {
    hide HeadsBin, WordRead;
    forall j: nat | 1024 * (k - s) <= j < 1024 * (k - s + 1) ensures WordInMemory(file, WithBin(bin, others).mem, s, j) {
      assert WordInMemory(file, bin.mem, s, j);
    }
  }

  lemma OtherKept(file: Files.File, first: nat, bin: Bins, others: Bins, s: nat, k: nat)
    requires s <= k && bin.Bins? && others.Bins? && BlockRead(file, first + |bin.blockList|, others, s, k)
    ensures BlockRead(file, first, WithBin(bin, others), s, k)
  {
    hide HeadsBin, WordRead;
    forall j: nat | 1024 * (k - s) <= j < 1024 * (k - s + 1) ensures WordInMemory(file, WithBin(bin, others).mem, s, j) {
      assert WordInMemory(file, others.mem, s, j);
    }
  }

  lemma OtherBlocks(file: Files.File, first: nat, rest: seq<nat>, bin: Bins, others: Bins, i: nat)
    requires bin.Bins? && others.Bins? && i + 1 < |rest| && rest[0] == first + |bin.blockList|
    requires BlocksRead(file, rest, others, i)
    ensures BlocksRead(file, [first] + rest, WithBin(bin, others), i + 1)
  {
    hide HeadsBin, WordRead;
    var starts, bins := [first] + rest, WithBin(bin, others);
    assert starts[i + 1] == rest[i] && starts[i + 2] == rest[i + 1];
    forall k {:trigger BlockRead(file, starts[0], bins, starts[i + 1], k)} | starts[i + 1] <= k < starts[i + 2]
      ensures BlockRead(file, starts[0], bins, starts[i + 1], k)
    {
      assert BlockRead(file, rest[0], others, rest[i], k);
      OtherKept(file, first, bin, others, rest[i], k);
    }
  }

  /** One turn of the loop of HvpInitializeFileHive. */
  method ReadBin(primary: Files.File, blockIndex: nat, selfHeal: bool) returns (bin: Bins)
    requires blockIndex < 0x10_0000
    ensures bin == BinAt(primary, blockIndex, selfHeal)
    ensures bin.Bins? <==> exists next :: Leads(primary, blockIndex, next, selfHeal)
    ensures bin.Bins? ==> BinsRead(primary, [blockIndex, blockIndex + |bin.blockList|], bin)
  {
    hide *;
    BinExactly(primary, blockIndex, selfHeal);
    bin := ReadBlocks(primary, blockIndex, selfHeal);
  }

  /** The first block of a bin, and the others its header says it has. */
  method ReadBlocks(primary: Files.File, blockIndex: nat, selfHeal: bool) returns (bin: Bins)
    requires blockIndex < 0x10_0000
    ensures bin == BinAt(primary, blockIndex, selfHeal)
  {
    hide Files.Holds, Files.Read;
    var success, block := Files.FileRead(primary, Flush.BlockAt(blockIndex), 1024);
    if !success {
      return NoBins;
    }
    var healed := false;
    if block[0] != HV_HBIN_SIGNATURE || block[2] % 4096 != 0 || block[2] == 0 || block[1] / 4096 != blockIndex {
      if !selfHeal {
        return NoBins;
      }
      block := block[0 := HV_HBIN_SIGNATURE][1 := blockIndex * 4096][2 := 4096];
      healed := true;
    }
    NothingToRead(primary, Flush.BlockAt(blockIndex + 1));
    var words := block;
    if block[2] > 4096 {
      var body;
      success, body := Files.FileRead(primary, Flush.BlockAt(blockIndex + 1), 1024 * (block[2] / 4096 - 1));
      if !success {
        return NoBins;
      }
      words := block + body;
    }
    var blockList := [MapEntry(4096 * blockIndex, 4096 * blockIndex)];
    for i := 1 to block[2] / 4096
      invariant blockList == EntriesOf(blockIndex, i)
    {
      blockList := blockList + [MapEntry(4096 * (blockIndex + i), 4096 * blockIndex)];
    }
    bin := Bins(blockList, MemOf(4096 * blockIndex, words), healed);
  }

  /** HvpInitializeFileHive, up to the free lists: bin after bin until the length in the header is covered. */
  method InitializeFileHive(primary: Files.File, length: nat, selfHeal: bool) returns (bins: Bins, ghost starts: seq<nat>)
    requires length <= 0x10_0000
    ensures bins == BinsFrom(primary, 0, length, selfHeal)
    ensures bins.Bins? <==> exists s :: Divides(primary, s, 0, length, selfHeal)
    ensures bins.Bins? ==> Divides(primary, starts, 0, length, selfHeal) && BinsRead(primary, starts, bins)
  {
    hide *;
    starts := LoadedExactly(primary, length, selfHeal);
    bins := Bins([], map[], false);
    var blockIndex := 0;
    ghost var all := BinsFrom(primary, 0, length, selfHeal);
    NoBinYet(all);
    while blockIndex < length
      invariant bins.Bins? && WithBin(bins, BinsFrom(primary, blockIndex, length, selfHeal)) == all
      decreases length - blockIndex
    {
      var bin := ReadBin(primary, blockIndex, selfHeal);
      OneMoreBin(primary, blockIndex, length, selfHeal, bins);
      if bin.NoBins? {
        return NoBins, starts;
      }
      bins := Bins(bins.blockList + bin.blockList, bins.mem + bin.mem, bins.healed || bin.healed);
      blockIndex := blockIndex + |bin.blockList|;
    }
    AllBins(primary, blockIndex, length, selfHeal, bins);
  }

  lemma OneMoreBin(file: Files.File, index: nat, length: nat, heal: bool, bins: Bins)
    requires index < length <= 0x10_0000 && bins.Bins?
    ensures var bin := BinAt(file, index, heal); var all := WithBin(bins, BinsFrom(file, index, length, heal));
      if bin.NoBins? then all == NoBins
      else
        && |bin.blockList| > 0
        && all == WithBin(Bins(bins.blockList + bin.blockList, bins.mem + bin.mem, bins.healed || bin.healed),
                          BinsFrom(file, index + |bin.blockList|, length, heal))
  {
    hide BinAt;
    var bin := BinAt(file, index, heal);
    if bin.Bins? {
      var rest := BinsFrom(file, index + |bin.blockList|, length, heal);
      assert BinsFrom(file, index, length, heal) == WithBin(bin, rest);
      hide BinsFrom;
      BinsTogether(bins, bin, rest);
    }
  }

  lemma LoadedExactly(file: Files.File, length: nat, heal: bool) returns (starts: seq<nat>)
    requires length <= 0x10_0000
    ensures BinsFrom(file, 0, length, heal).Bins? <==> exists s :: Divides(file, s, 0, length, heal)
    ensures var bins := BinsFrom(file, 0, length, heal); bins.Bins? ==> Divides(file, starts, 0, length, heal) && BinsRead(file, starts, bins)
  {
    hide BinsFrom, Divides, BinsRead;
    forall s | Divides(file, s, 0, length, heal) ensures BinsFrom(file, 0, length, heal).Bins? { DividedAreRead(file, s, 0, length, heal); }
    starts := [];
    if BinsFrom(file, 0, length, heal).Bins? { starts := ReadAreDivided(file, 0, length, heal); }
  }

  lemma NothingToRead(file: Files.File, at: nat)
    ensures Files.Holds(file, at, 0) && Files.Read(file, at, 0) == []
  {
  }

  lemma NoBinYet(rest: Bins)
    ensures WithBin(Bins([], map[], false), rest) == rest
  {
    if rest.Bins? { assert [] + rest.blockList == rest.blockList; }
  }

  lemma AllBins(file: Files.File, index: nat, length: nat, heal: bool, bins: Bins)
    requires length <= index && length <= 0x10_0000
    ensures WithBin(bins, BinsFrom(file, index, length, heal)) == bins
  {
    if bins.Bins? { assert bins.blockList + [] == bins.blockList; }
  }

  lemma BinsTogether(one: Bins, two: Bins, rest: Bins)
    ensures WithBin(one, WithBin(two, rest)) == WithBin(WithBin(one, two), rest)
  {
    if one.Bins? && two.Bins? && rest.Bins? {
      assert one.blockList + (two.blockList + rest.blockList) == one.blockList + two.blockList + rest.blockList;
      assert one.mem + (two.mem + rest.mem) == one.mem + two.mem + rest.mem;
    }
  }

  // ----- what was saved comes back

  /** The file holds the blocks of the storage. */
  ghost predicate Saved(file: Files.File, mem: Mem, n: nat)
  {
    forall k {:trigger BlockOf(mem, k)} :: 0 <= k < n ==> Files.Contains(file, Flush.BlockAt(k), BlockOf(mem, k))
  }

  /** The part of a memory from a on. */
  ghost function From(mem: Mem, a: nat): Mem
  {
    map x | x in mem && x >= a :: mem[x]
  }

  /** Every block of a bin is the bin's in the block map. */
  lemma BlocksOfBin(blocks: seq<MapEntry>, mem: Mem, l: Layout, bin: nat, k: nat)
    requires Sound(blocks, mem, l) && bin in l.bins && bin <= 4096 * k < l.bins[bin]
    ensures k < |blocks| && blocks[k] == MapEntry(4096 * k, bin)
  {
    assert HeaderAt(blocks, mem, l, bin) && EntryAt(blocks, l, k);
    assert l.BinsApart(bin, blocks[k].BinAddress) && l.BinsApart(blocks[k].BinAddress, bin);
  }

  /** Bytes 4 * i from block k on lie in block k + i / 1024 of the file. */
  lemma SavedWord(file: Files.File, mem: Mem, n: nat, k: nat, i: nat)
    requires Saved(file, mem, n) && k + i / 1024 < n
    ensures Flush.BlockAt(k) + i in file && file[Flush.BlockAt(k) + i] == Stored(Payload.Word(mem, 4096 * k, i))
  {
    hide Payload.Word;
    var b, j := k + i / 1024, i % 1024;
    assert Files.Contains(file, Flush.BlockAt(b), BlockOf(mem, b));
    assert Flush.BlockAt(b) + j == Flush.BlockAt(k) + i;
    assert Files.Read(file, Flush.BlockAt(b), 1024)[j] == BlockOf(mem, b)[j];
    SameAddress(mem, 4096 * b, j, 4096 * k, i);
  }

  lemma SameAddress(mem: Mem, a: nat, i: nat, b: nat, j: nat)
    requires a + 4 * i == b + 4 * j
    ensures Payload.Word(mem, a, i) == Payload.Word(mem, b, j)
  {
  }

  /** The words of a bin are on disk as they are in memory. */
  lemma SavedWords(file: Files.File, mem: Mem, n: nat, k: nat, count: nat)
    requires Saved(file, mem, n) && k + count <= n && count > 0
    ensures Files.Holds(file, Flush.BlockAt(k), 1024) && Files.Holds(file, Flush.BlockAt(k + 1), 1024 * (count - 1))
    ensures var words := Files.Read(file, Flush.BlockAt(k), 1024) + Files.Read(file, Flush.BlockAt(k + 1), 1024 * (count - 1));
      |words| == 1024 * count && forall i {:trigger words[i]} :: 0 <= i < |words| ==> words[i] == Stored(Payload.Word(mem, 4096 * k, i))
  {
    hide Saved, Payload.Word;
    var base := Flush.BlockAt(k);
    forall x | base <= x < base + 1024 * count
      ensures x in file && file[x] == Stored(Payload.Word(mem, 4096 * k, x - base))
    {
      SavedWord(file, mem, n, k, x - base);
    }
  }

  /** One bin of a saved storage. */
  lemma SavedBin(blocks: seq<MapEntry>, mem: Mem, l: Layout, file: Files.File, k: nat, heal: bool)
    requires Sound(blocks, mem, l) && |blocks| <= 0x7FFFF && Saved(file, mem, |blocks|)
    requires k < |blocks| && 4096 * k in l.bins
    ensures var n := (l.bins[4096 * k] - 4096 * k) / 4096;
      && n > 0 && k + n <= |blocks| && 4096 * (k + n) == l.bins[4096 * k]
      && BinAt(file, k, heal).Bins? && !BinAt(file, k, heal).healed
      && BinAt(file, k, heal).blockList == blocks[k..k + n]
      && BinAt(file, k, heal).mem == Between(Reloaded(mem), 4096 * k, 4096 * (k + n))
  {
    assert HeaderAt(blocks, mem, l, 4096 * k) && l.BinOk(4096 * k);
    var end := l.bins[4096 * k];
    var n := (end - 4096 * k) / 4096;
    SavedWords(file, mem, |blocks|, k, n);
    hide Sound, Saved, Files.Holds, Files.Read, MemOf, EntriesOf, Reloaded, Between, Payload.Word, Stored, Signed, BlockOf;
    var words := Files.Read(file, Flush.BlockAt(k), 1024) + Files.Read(file, Flush.BlockAt(k + 1), 1024 * (n - 1));
    HeaderRead(mem, 4096 * k, words);
    EntriesAre(blocks, mem, l, k, n);
    SoundBacked(blocks, mem, l);
    hide Backed;
    MemRead(blocks, mem, k, n, words);
  }

  lemma EntriesAre(blocks: seq<MapEntry>, mem: Mem, l: Layout, k: nat, n: nat)
    requires Sound(blocks, mem, l) && 4096 * k in l.bins && 4096 * (k + n) == l.bins[4096 * k] && k + n <= |blocks|
    ensures EntriesOf(k, n) == blocks[k..k + n]
  {
    hide Sound;
    forall i | 0 <= i < n ensures EntriesOf(k, n)[i] == blocks[k + i] { BlocksOfBin(blocks, mem, l, 4096 * k, k + i); }
  }

  /** A bin's header fits signed words. */
  lemma HeaderRead(mem: Mem, bin: nat, words: seq<Words.Word>)
    requires bin in mem && bin + 4 in mem && bin + 8 in mem && |words| >= 1024
    requires mem[bin] == HV_HBIN_SIGNATURE && 0 <= mem[bin + 4] < 0x8000_0000 && 0 <= mem[bin + 8] < 0x8000_0000
    requires forall i {:trigger words[i]} :: 0 <= i < |words| ==> words[i] == Stored(Payload.Word(mem, bin, i))
    ensures words[0] == mem[bin] && words[1] == mem[bin + 4] && words[2] == mem[bin + 8]
  {
  }

  /** The part of a memory from a up to b. */
  ghost function Between(mem: Mem, a: nat, b: nat): Mem
  {
    map x | x in mem && a <= x < b :: mem[x]
  }

  lemma MemRead(blocks: seq<MapEntry>, mem: Mem, k: nat, n: nat, words: seq<Words.Word>)
    requires Backed(blocks, mem) && k + n <= |blocks| && |words| == 1024 * n
    requires forall i {:trigger words[i]} :: 0 <= i < |words| ==> words[i] == Stored(Payload.Word(mem, 4096 * k, i))
    ensures MemOf(4096 * k, words) == Between(Reloaded(mem), 4096 * k, 4096 * (k + n))
  {
    WordsBacked(blocks, mem, k, n);
    hide Backed, Signed, Stored, InWords;
    var m := MemOf(4096 * k, words);
    forall a | a in m ensures m[a] == Signed(Stored(mem[a])) {
      WordPlace(a, 4096 * k, 1024 * n);
      assert words[(a - 4096 * k) / 4] == Stored(Payload.Word(mem, 4096 * k, (a - 4096 * k) / 4));
    }
  }

  lemma WordsBacked(blocks: seq<MapEntry>, mem: Mem, k: nat, n: nat)
    requires Backed(blocks, mem) && k + n <= |blocks|
    ensures 4096 * k % 4 == 0
    ensures forall a: nat {:trigger InWords(a, 4096 * k, 1024 * n)} ::
      InWords(a, 4096 * k, 1024 * n) <==> a in mem && 4096 * k <= a < 4096 * (k + n)
  {
  }

  lemma WordPlace(a: nat, start: nat, count: nat)
    requires InWords(a, start, count) && start % 4 == 0
    ensures (a - start) / 4 < count && start + 4 * ((a - start) / 4) == a
  {
  }

  /** The bins of a saved storage, from a bin's start on, give its block map and its memory. */
  lemma {:induction false} SavedBins(blocks: seq<MapEntry>, mem: Mem, l: Layout, file: Files.File, k: nat, heal: bool)
    requires Sound(blocks, mem, l) && |blocks| <= 0x7FFFF && Saved(file, mem, |blocks|)
    requires k <= |blocks| && Boundary(l, 4096 * k)
    ensures BinsFrom(file, k, |blocks|, heal) == Bins(blocks[k..], From(Reloaded(mem), 4096 * k), false)
    decreases |blocks| - k
  {
    hide Sound, Saved, BinAt, Boundary;
    if k == |blocks| {
      NothingAbove(blocks, mem, l);
    } else {
      BinAtBoundary(blocks, mem, l, k);
      SavedBin(blocks, mem, l, file, k, heal);
      BinDone(blocks, mem, l, 4096 * k);
      var n := (l.bins[4096 * k] - 4096 * k) / 4096;
      SavedBins(blocks, mem, l, file, k + n, heal);
      FromParts(Reloaded(mem), 4096 * k, 4096 * (k + n));
      assert blocks[k..k + n] + blocks[k + n..] == blocks[k..];
    }
  }

  lemma NothingAbove(blocks: seq<MapEntry>, mem: Mem, l: Layout)
    requires Sound(blocks, mem, l)
    ensures From(Reloaded(mem), 4096 * |blocks|) == map[]
  {
  }

  lemma FromParts(mem: Mem, a: nat, b: nat)
    requires a <= b
    ensures Between(mem, a, b) + From(mem, b) == From(mem, a)
  {
  }

  /** A memory read again has the same layout, the same cells in use and free, and the same bytes. */
  lemma ReloadedSound(blocks: seq<MapEntry>, mem: Mem, l: Layout)
    requires Sound(blocks, mem, l) && |blocks| <= 0x7FFFF
    ensures var mem' := Reloaded(mem);
      && Sound(blocks, mem', l) && Frees(mem', l) == Frees(mem, l) && Live(mem', l) == Live(mem, l)
      && forall c {:trigger c in l.cells} :: c in l.cells ==> c in mem && mem'[c] == mem[c]
  {
    var mem' := Reloaded(mem);
    forall c | c in l.cells ensures c in mem && mem'[c] == mem[c] {
      CellBacked(blocks, mem, l, c);
      assert l.CellOk(c) && HeaderAt(blocks, mem, l, l.cells[c].bin);
    }
    forall b | b in l.bins ensures HeaderSame(mem, mem', b) {
      assert HeaderAt(blocks, mem, l, b);
      assert Offset(b, 0) == b && Offset(b, 4) == b + 4 && Offset(b, 8) == b + 8;
    }
    SameLayout(blocks, mem, mem', l);
  }

  lemma SignedBytes(x: int, j: nat)
    requires j < 4
    ensures Payload.Byte(Signed(Stored(x)), j) == Payload.Byte(x, j)
  {
    var y := Signed(Stored(x));
    var d := x / 0x1_0000_0000 + if Stored(x) < 0x8000_0000 then 0 else 1;
    assert x == y + 256 * (0x100_0000 * d);
    hide Signed, Stored, Payload.Byte;
    ByteSteps(x, y, 0x100_0000 * d, j);
    ByteSteps(x / 256, y / 256, 0x1_0000 * d, j - 1);
    ByteSteps(x / 256 / 256, y / 256 / 256, 0x100 * d, j - 2);
    ByteSteps(x / 256 / 256 / 256, y / 256 / 256 / 256, d, j - 3);
  }

  /** Two numbers that differ by a multiple of 256 have the same low byte. */
  lemma ByteSteps(x: int, y: int, d: int, j: int)
    ensures x == y + 256 * d ==> x / 256 == y / 256 + d && Payload.Byte(x, 0) == Payload.Byte(y, 0)
    ensures j > 0 ==> Payload.Byte(x, j) == Payload.Byte(x / 256, j - 1) && Payload.Byte(y, j) == Payload.Byte(y / 256, j - 1)
  {
  }

  lemma ReloadedBytes(mem: Mem, base: nat, n: nat)
    ensures Payload.SameBytes(mem, base, Reloaded(mem), base, n)
  {
    forall i | 0 <= i < n ensures Payload.ByteAt(Reloaded(mem), base, i) == Payload.ByteAt(mem, base, i) {
      SignedBytes(Payload.Word(mem, base, i / 4), i % 4);
    }
  }

  // ----- a storage saved and loaded

  /** The same bins and cells, in use or free, with the same bytes in the cells in use. */
  ghost predicate SameStorage(d: Dual, e: Dual)
    reads d, e
  {
    && e.BlockList == d.BlockList && e.L == d.L
    && Frees(e.Mem, e.L) == Frees(d.Mem, d.L) && Live(e.Mem, e.L) == Live(d.Mem, d.L)
    && forall c {:trigger c in Live(d.Mem, d.L)} :: c in Live(d.Mem, d.L) ==> SameCell(d.Mem, e.Mem, c)
  }

  ghost predicate SameCell(mem: Mem, mem': Mem, c: nat)
  {
    Capacity(mem', c) == Capacity(mem, c) && Payload.SameBytes(mem, c + 4, mem', c + 4, Capacity(mem, c))
  }

  /** The free lists of bins just read are built. */
  method BuildStorage(bins: Bins, ghost mem: Mem, ghost l: Layout) returns (e: Dual)
    requires bins.Bins? && |bins.blockList| <= 0x7FFFF && bins.mem == Reloaded(mem)
    requires Sound(bins.blockList, mem, l) && Coalesced(mem, l)
    ensures fresh(e) && e.Valid() && e.Kind == 0 && e.BlockList == bins.blockList && e.L == l
    ensures Frees(e.Mem, l) == Frees(mem, l) && Live(e.Mem, l) == Live(mem, l)
    ensures forall c {:trigger c in Live(mem, l)} :: c in Live(mem, l) ==> SameCell(mem, e.Mem, c)
  {
    ReloadedSound(bins.blockList, mem, l);
    hide Sound, Coalesced, Frees, Live, SameCell;
    e := new Dual.FromBins(0, 0x7FFFF, bins.blockList, bins.mem, l);
    e.CreateFreeCellList();
    LinksKeepAll(bins.mem, e.Mem, l);
    FewerFreesCoalesced(mem, e.Mem, l);
    forall c | c in Live(mem, l) ensures SameCell(mem, e.Mem, c) { CellReloaded(bins.blockList, mem, l, e.Mem, c); }
  }

  lemma CellReloaded(blocks: seq<MapEntry>, mem: Mem, l: Layout, mem': Mem, c: nat)
    requires Sound(blocks, mem, l) && |blocks| <= 0x7FFFF && c in Live(mem, l)
    requires Kept(Reloaded(mem), mem', c)
    ensures SameCell(mem, mem', c)
  {
    ReloadedSound(blocks, mem, l);
    OwnWords(blocks, Reloaded(mem), l, c, Capacity(mem, c));
    hide Sound, Payload.ByteAt;
    ReloadedBytes(mem, c + 4, Capacity(mem, c));
    KeptBytes(Reloaded(mem), mem', c, Capacity(mem, c));
    SameBytesTwice(mem, c + 4, Reloaded(mem), c + 4, mem', c + 4, Capacity(mem, c));
  }

  /** HvWriteHive, and HvLoadHive on what it wrote: a save that succeeds is a hive file that loads without
      repairs, into a storage that is the same and on which the allocator can go on. */
  method SaveAndLoad(d: Dual, hive: HiveSync.Hive, selfHeal: bool) returns (saved: bool, loaded: Dual?)
    requires d.Valid() && d.Kind == 0 && hive.Valid() && hive.Blocks == Image(d.Mem, |d.BlockList|)
    modifies hive`BaseBlock, hive`LogFile, hive`Primary, hive`AlternateFile, hive`Budget
    ensures saved ==> loaded != null && fresh(loaded) && loaded.Valid() && SameStorage(d, loaded)
    ensures !saved ==> loaded == null
  {
    hide Sound, Coalesced, Header.Checksum, BinsFrom;
    loaded := null;
    saved := hive.WriteWholeHive();
    if !saved {
      return;
    }
    var result, header, low, high := hive.GetHiveHeader();
    assert result == Flush.HiveSuccess;
    SavedImage(hive.Primary, hive.LogFile, d.Mem, |d.BlockList|);
    var bins, starts := InitializeFileHive(hive.Primary, header[Header.LENGTH] / 4096, selfHeal);
    NothingBelow(d.BlockList, d.Mem, d.L);
    SavedBins(d.BlockList, d.Mem, d.L, hive.Primary, 0, selfHeal);
    loaded := BuildStorage(bins, d.Mem, d.L);
  }

  lemma SavedImage(primary: Files.File, log: Files.File, mem: Mem, n: nat)
    requires Flush.LoadsAs(primary, log, Image(mem, n)) && Flush.Clean(primary)
    ensures Files.Holds(primary, 0, Header.HSECTOR) && Files.Read(primary, 0, Header.HSECTOR)[Header.LENGTH] / 4096 == n
    ensures Saved(primary, mem, n) && From(Reloaded(mem), 0) == Reloaded(mem)
  {
    hide Files.Contains;
    forall k | 0 <= k < n ensures Files.Contains(primary, Flush.BlockAt(k), BlockOf(mem, k)) {
      assert Image(mem, n)[k] == BlockOf(mem, k);
    }
  }
}
