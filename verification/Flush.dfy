/** Flushing a hive to disk and recovering it: the log of dirty blocks, the two sequence numbers, and
    what a load makes of the files wherever the flush stopped.  Addresses are in 32-bit words. */
module Flush {
  import opened Words
  import opened Files
  import opened Header
  import opened Bitmaps

  type Block = b: seq<Word> | |b| == HBLOCK witness seq(HBLOCK, i => 0)

  datatype Result = NotHive | HiveSuccess | RecoverHeader | RecoverData | SelfHeal | Fail

  /** Where block b lies in a hive file: after the base block. */
  function BlockAt(b: nat): nat { 1024 + 1024 * b }

  // ----- the log

  /** Where the dirty vector lies in the log: after the header's first sector. */
  const VECTOR: nat := 128

  /** Where a replay expects the first logged block: the dirty vector takes one sector. */
  const REPLAY_BASE: nat := 256

  /** The size in bytes of the dirty vector the flush writes: the signature and a byte for each bit,
      rounded up to sectors. */
  function VectorSize(size: nat): nat { (4 + size + 511) / 512 * 512 }

  /** Where the flush puts the first logged block. */
  function LogBase(size: nat): nat { VECTOR + VectorSize(size) / 4 }

  /** The flush and the replay agree on the layout of the log exactly as long as the dirty vector fits a
      sector; a larger one makes the replay read the vector itself as the first block. */
  lemma LayoutsAgree(size: nat)
    ensures LogBase(size) == REPLAY_BASE <==> size <= 508
    ensures size > 508 ==> REPLAY_BASE + HSECTOR <= LogBase(size)
  {
  }

  // The position of a block among the logged ones is its rank, the number of dirty blocks below it.

  lemma {:induction false} RankOrder(bits: seq<bool>, i: nat, j: nat)
    requires i < j <= |bits| && bits[i]
    ensures Rank(bits, i) < Rank(bits, j)
  {
    if i + 1 < j { RankOrder(bits, i, j - 1); }
  }

  lemma {:induction false} RankPrefix(bits: seq<bool>, n: nat, i: nat)
    requires i <= n <= |bits|
    ensures Rank(bits[..n], i) == Rank(bits, i)
  {
    if i > 0 { RankPrefix(bits, n, i - 1); }
  }

  /** The log has a readable dirty vector. */
  predicate VectorReadable(log: File)
  {
    Holds(log, VECTOR, HSECTOR) && log[VECTOR] == HV_LOG_DIRTY_SIGNATURE
  }

  /** Whether the log's dirty vector marks block b. */
  predicate Flag(log: File, b: nat)
    requires Holds(log, VECTOR, HSECTOR) && b < 508
  {
    ByteAt(Read(log, VECTOR, HSECTOR), b + 4) == 0xFF
  }

  function Flags(log: File, n: nat): (flags: seq<bool>)
    requires Holds(log, VECTOR, HSECTOR) && n <= 508
    ensures |flags| == n
    ensures forall b :: 0 <= b < n ==> flags[b] == Flag(log, b)
  {
    seq(n, b requires 0 <= b < n => Flag(log, b))
  }

  /** Where a replay looks for block b: in the log when flagged, else in the hive file itself. */
  ghost predicate ReplaysTo(primary: File, log: File, flags: seq<bool>, b: nat, block: Block)
    requires b < |flags|
  {
    if flags[b] then Contains(log, REPLAY_BASE + 1024 * Rank(flags, b), block)
    else Contains(primary, BlockAt(b), block)
  }

  // ----- what a load makes of the files

  /** A load of these files ends with these data blocks: the blocks themselves when the header's sequence
      numbers agree, and otherwise the outcome of the replay. */
  ghost predicate LoadsAs(primary: File, log: File, image: seq<Block>)
  {
    && Holds(primary, 0, HSECTOR)
    && var h := Read(primary, 0, HSECTOR);
       && SoundExceptSequences(h, HFILE_TYPE_PRIMARY)
       && h[LENGTH] / 4096 == |image|
       && if h[SEQUENCE1] == h[SEQUENCE2]
          then BlocksAre(primary, image)
          else Replays(primary, log, image)
  }

  ghost predicate BlocksAre(primary: File, image: seq<Block>)
  {
    forall b :: 0 <= b < |image| ==> Contains(primary, BlockAt(b), image[b])
  }

  ghost predicate Replays(primary: File, log: File, image: seq<Block>)
  {
    && |image| <= 508 && VectorReadable(log)
    && var flags := Flags(log, |image|);
       forall b :: 0 <= b < |image| ==> ReplaysTo(primary, log, flags, b, image[b])
  }

  /** The header on disk needs no recovery. */
  ghost predicate Clean(primary: File)
  {
    Holds(primary, 0, HSECTOR) && Read(primary, 0, HSECTOR)[SEQUENCE1] == Read(primary, 0, HSECTOR)[SEQUENCE2]
  }

  /** What a load ends with is determined by the files. */
  lemma LoadIsDetermined(primary: File, log: File, one: seq<Block>, two: seq<Block>)
    requires LoadsAs(primary, log, one) && LoadsAs(primary, log, two)
    ensures one == two
  {
    forall b | 0 <= b < |one| ensures one[b] == two[b] {
      var h := Read(primary, 0, HSECTOR);
      if h[SEQUENCE1] != h[SEQUENCE2] {
        assert ReplaysTo(primary, log, Flags(log, |one|), b, one[b]);
        assert ReplaysTo(primary, log, Flags(log, |one|), b, two[b]);
      } else {
        assert Contains(primary, BlockAt(b), one[b]) && Contains(primary, BlockAt(b), two[b]);
      }
    }
  }

  // ----- how far a flush got

  /** The words of block b are the same in both files. */
  ghost predicate BlockKept(before: File, after: File, b: nat)
  {
    forall i {:trigger i in after} {:trigger after[i]} ::
      BlockAt(b) <= i < BlockAt(b) + 1024 ==> (i in after <==> i in before) && (i in after ==> after[i] == before[i])
  }

  /** How far the block writes got: each chosen block below `done` holds its memory contents, and every
      other block is as it was. */
  ghost predicate Progress(before: File, after: File, blocks: seq<Block>, chosen: seq<bool>, done: nat)
  {
    forall b :: 0 <= b < |blocks| && b < |chosen| ==>
      if chosen[b] && b < done then Contains(after, BlockAt(b), blocks[b]) else BlockKept(before, after, b)
  }

  /** The log has the whole dirty vector: in its first sector a flag for each block that has room there, and
        behind it the flags of the next four. */
  ghost predicate VectorHolds(log: File, bits: seq<bool>)
  {
    && VectorReadable(log) && (forall b :: 0 <= b < |bits| && b < 508 ==> Flag(log, b) == bits[b])
    && (|bits| > 508 && Uniform(bits, 508, if |bits| < 512 then |bits| else 512, false) ==> REPLAY_BASE in log && log[REPLAY_BASE] == 0)
  }

  /** The log holds a complete transaction: the dirty vector, and the dirty blocks in order. */
  ghost predicate LogHolds(log: File, bits: seq<bool>, blocks: seq<Block>)
    requires |blocks| <= |bits|
  {
    && VectorHolds(log, bits)
    && forall b :: 0 <= b < |blocks| && bits[b] ==> Contains(log, LogBase(|bits|) + 1024 * Rank(bits, b), blocks[b])
  }

  /** Blocks that are not dirty are what the image has. */
  ghost predicate Tracked(bits: seq<bool>, image: seq<Block>, blocks: seq<Block>)
  {
    |blocks| <= |bits| && forall b :: 0 <= b < |blocks| && !bits[b] ==> b < |image| && image[b] == blocks[b]
  }

  lemma KeptContents(before: File, after: File, b: nat, block: Block)
    requires BlockKept(before, after, b) && Contains(before, BlockAt(b), block)
    ensures Contains(after, BlockAt(b), block)
  {
    assert Holds(after, BlockAt(b), |block|);
    forall i | 0 <= i < |block| ensures Read(after, BlockAt(b), |block|)[i] == block[i] {
      assert block[i] == Read(before, BlockAt(b), |block|)[i];
    }
  }

  /** The header alone was rewritten. */
  lemma HeaderOnly(before: File, h: BaseBlock, blocks: seq<Block>, chosen: seq<bool>)
    requires |h| == HBLOCK
    ensures Progress(before, Files.Written(before, 0, h), blocks, chosen, 0)
  {
  }

  /** A second header write changes no block. */
  lemma HeaderAgain(before: File, between: File, h: BaseBlock, blocks: seq<Block>, chosen: seq<bool>, done: nat)
    requires Progress(before, between, blocks, chosen, done) && |h| == HBLOCK
    ensures Progress(before, Files.Written(between, 0, h), blocks, chosen, done)
  {
    forall b | 0 <= b < |blocks| && b < |chosen| && chosen[b] && b < done
      ensures Contains(Files.Written(between, 0, h), BlockAt(b), blocks[b])
    {
      WrittenElsewhere(between, 0, h, BlockAt(b), blocks[b]);
    }
  }

  /** One more block was written, the ones skipped being clean. */
  lemma OneMore(before: File, between: File, blocks: seq<Block>, chosen: seq<bool>, from: nat, b: nat)
    requires Progress(before, between, blocks, chosen, from)
    requires from <= b < |blocks| && b < |chosen| && chosen[b]
    requires forall c :: from <= c < b ==> !chosen[c]
    ensures Progress(before, Files.Written(between, BlockAt(b), blocks[b]), blocks, chosen, b + 1)
  {
    var after := Files.Written(between, BlockAt(b), blocks[b]);
    WrittenContains(between, BlockAt(b), blocks[b]);
    hide Contains, BlockKept, Files.Written;
    forall c | 0 <= c < |blocks| && c < |chosen|
      ensures if chosen[c] && c < b + 1 then Contains(after, BlockAt(c), blocks[c]) else BlockKept(before, after, c)
    {
      if chosen[c] && c < b {
        WrittenElsewhere(between, BlockAt(b), blocks[b], BlockAt(c), blocks[c]);
      } else if c != b {
        KeptElsewhere(before, between, BlockAt(b), blocks[b], c);
      }
    }
  }

  lemma KeptElsewhere(before: File, between: File, at: nat, data: seq<Word>, c: nat)
    requires BlockKept(before, between, c)
    requires BlockAt(c) + 1024 <= at || at + |data| <= BlockAt(c)
    ensures BlockKept(before, Files.Written(between, at, data), c)
  {
  }

  /** With no chosen block from here on, everything is done. */
  lemma NoMore(before: File, after: File, blocks: seq<Block>, chosen: seq<bool>, from: nat)
    requires Progress(before, after, blocks, chosen, from)
    requires forall c :: from <= c < |blocks| && c < |chosen| ==> !chosen[c]
    ensures Progress(before, after, blocks, chosen, |blocks|)
  {
  }

  /** A flush stopped anywhere after its first header write and before its last: the log makes up for
      every dirty block that is not written yet. */
  lemma StoppedFlushReplays(before: File, after: File, log: File, image: seq<Block>, blocks: seq<Block>,
                            bits: seq<bool>, done: nat)
    requires BlocksAre(before, image)
    requires |blocks| <= |bits| <= 508 && LogHolds(log, bits, blocks)
    requires Tracked(bits, image, blocks)
    requires Progress(before, after, blocks, bits, done)
    ensures Replays(after, log, blocks)
  {
    hide Contains, BlockKept, Flags, Flag, Rank, LogHolds, LogBase, Holds, BlockAt;
    FlagsAgree(log, bits, blocks);
    LoggedWhereReplayed(log, bits, blocks);
    var flags := Flags(log, |blocks|);
    forall b | 0 <= b < |blocks| ensures ReplaysTo(after, log, flags, b, blocks[b]) {
      RankPrefix(bits, |blocks|, b);
      if !bits[b] {
        KeptContents(before, after, b, blocks[b]);
      }
    }
  }

  lemma FlagsAgree(log: File, bits: seq<bool>, blocks: seq<Block>)
    requires |blocks| <= |bits| <= 508 && LogHolds(log, bits, blocks)
    ensures VectorReadable(log) && Flags(log, |blocks|) == bits[..|blocks|]
  {
    hide Flag, Contains, LogBase, Holds, Rank, Flags;
    var flags := Flags(log, |blocks|);
    forall b | 0 <= b < |blocks| ensures flags[b] == bits[..|blocks|][b] {
      assert flags[b] == Flag(log, b);
    }
  }

  lemma LoggedWhereReplayed(log: File, bits: seq<bool>, blocks: seq<Block>)
    requires |blocks| <= |bits| <= 508 && LogHolds(log, bits, blocks)
    ensures forall b :: 0 <= b < |blocks| && bits[b] ==> Contains(log, REPLAY_BASE + 1024 * Rank(bits, b), blocks[b])
  {
    hide *;
    LayoutsAgree(|bits|);
    forall b | 0 <= b < |blocks| && bits[b] ensures Contains(log, REPLAY_BASE + 1024 * Rank(bits, b), blocks[b]) {
      LoggedAt(log, bits, blocks, b);
    }
  }

  lemma LoggedAt(log: File, bits: seq<bool>, blocks: seq<Block>, b: nat)
    requires b < |blocks| <= |bits| && bits[b] && LogHolds(log, bits, blocks)
    ensures Contains(log, LogBase(|bits|) + 1024 * Rank(bits, b), blocks[b])
  {
  }

  /** A finished flush: the hive file alone gives the memory image. */
  lemma FinishedFlushHolds(before: File, after: File, image: seq<Block>, blocks: seq<Block>, bits: seq<bool>)
    requires BlocksAre(before, image)
    requires |blocks| <= |bits|
    requires Tracked(bits, image, blocks)
    requires Progress(before, after, blocks, bits, |blocks|)
    ensures BlocksAre(after, blocks)
  {
    hide Contains, BlockKept;
    forall b | 0 <= b < |blocks| ensures Contains(after, BlockAt(b), blocks[b]) {
      if !bits[b] { KeptContents(before, after, b, blocks[b]); }
    }
  }
}
