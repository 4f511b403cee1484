/** HvSyncHive, the log and the replay as they run, one FileWrite at a time.  The device completes a
    number of writes and then fails for good, so each value of that number is a crash at one point. */
module HiveSync {
  import opened Words
  import opened Files
  import opened Header
  import opened Bitmaps
  import opened Flush
  import opened Recovery
  import Cells

  /** The header words a flush may change. */
  ghost predicate SameHeader(before: BaseBlock, after: BaseBlock)
  {
    && |after| == |before|
    && forall i :: 0 <= i < |before| && i !in {SEQUENCE1, SEQUENCE2, TYPE, CHECKSUM} ==>
         after[i] == before[i]
  }

  /** The header with the time of a flush: the source's clock reads 0. */
  function Stamped(header: BaseBlock): BaseBlock
    requires |header| == HBLOCK
  {
    header[TIMESTAMP := 0][TIMESTAMP + 1 := 0]
  }

  /** The blocks HvpWriteHive writes: the dirty ones, or all. */
  ghost function Chosen(bits: seq<bool>, onlyDirty: bool): (chosen: seq<bool>)
    ensures |chosen| == |bits|
  {
    if onlyDirty then bits else seq(|bits|, i => true)
  }

  /** What can happen to a hive in memory between loads. */
  datatype Op = Update(b: nat, block: Block) | Grow(blocks: seq<Block>) | Flush

  /** The memory image one operation leaves. */
  ghost function Applied(blocks: seq<Block>, op: Op): seq<Block>
  {
    match op
    case Update(b, block) => if b < |blocks| then blocks[b := block] else blocks
    case Grow(more) => blocks + more
    case Flush => blocks
  }

  /** The memory image a run of operations leaves. */
  ghost function MemoryAfter(blocks: seq<Block>, ops: seq<Op>): seq<Block>
  {
    if ops == [] then blocks else Applied(MemoryAfter(blocks, ops[..|ops| - 1]), ops[|ops| - 1])
  }

  /** What the k-th operation, a flush, put on disk; before any flush, what was there at first. */
  ghost function FlushedAt(start: seq<Block>, blocks: seq<Block>, ops: seq<Op>, k: nat): seq<Block>
    requires k <= |ops|
  {
    if k == 0 then start else MemoryAfter(blocks, ops[..k - 1])
  }

  /** Which blocks are dirty after an operation that succeeds. */
  ghost function DirtyAfter(dirty: seq<bool>, op: Op): seq<bool>
  {
    match op
    case Update(b, block) => if b < |dirty| then dirty[b := true] else dirty
    case Grow(more) => dirty + seq(|more|, i => true)
    case Flush => seq(|dirty|, i => false)
  }

  /** Which blocks are dirty once the first i operations have succeeded. */
  ghost function DirtyAt(dirty: seq<bool>, ops: seq<Op>, i: nat): seq<bool>
    requires i <= |ops|
  {
    if i == 0 then dirty else DirtyAfter(DirtyAt(dirty, ops, i - 1), ops[i - 1])
  }

  /** The writes a flush of d dirty blocks takes: the log's, the hive file's, and those of the alternate file. */
  function FlushCost(log: bool, alternate: bool, dirty: nat): nat
  {
    if dirty == 0 then 0 else (if log then dirty + 2 else 0) + (dirty + 2) + (if alternate then dirty + 2 else 0)
  }

  /** The writes that the flushes among the first i operations take. */
  ghost function Spent(log: bool, alternate: bool, dirty: seq<bool>, ops: seq<Op>, i: nat): nat
    requires i <= |ops|
  {
    if i == 0 then 0
    else
      var before := DirtyAt(dirty, ops, i - 1);
      Spent(log, alternate, dirty, ops, i - 1) + if ops[i - 1].Flush? then FlushCost(log, alternate, Rank(before, |before|)) else 0
  }

  /** After the first i operations a flush will succeed: nothing is dirty, or the sequence numbers agree and the
      device has the writes left that it takes, and one more. */
  ghost predicate Affords(log: bool, alternate: bool, agree: bool, budget: nat, dirty: seq<bool>, ops: seq<Op>, i: nat)
    requires i <= |ops|
  {
    var now := DirtyAt(dirty, ops, i);
    Rank(now, |now|) == 0 || (agree && Spent(log, alternate, dirty, ops, i) + FlushCost(log, alternate, Rank(now, |now|)) < budget)
  }

  /** Each flush before this operation could be afforded, and this one, if any, could not. */
  ghost predicate StopsForWrites(log: bool, alternate: bool, agree: bool, budget: nat, dirty: seq<bool>, ops: seq<Op>, executed: nat)
  {
    && executed <= |ops|
    && (forall j :: 0 <= j < executed && ops[j].Flush? ==> Affords(log, alternate, agree, budget, dirty, ops, j))
    && (executed < |ops| ==> !Affords(log, alternate, agree, budget, dirty, ops, executed))
  }

  function Growth(ops: seq<Op>): nat
  {
    if ops == [] then 0 else (if ops[0].Grow? then |ops[0].blocks| else 0) + Growth(ops[1..])
  }

  class Hive {
    var BaseBlock: BaseBlock
    var Blocks: seq<Block>          // the stable storage
    var DirtyVector: Bitmap
    var DirtyCount: nat
    var Volatile: bool
    var Log: bool
    var Alternate: bool
    var SelfHealing: bool

    // the device
    var Primary: File
    var LogFile: File
    var AlternateFile: File
    var Budget: nat                 // writes that will still succeed

    ghost predicate Valid()
      reads this`BaseBlock, this`Blocks, this`DirtyVector, DirtyVector, DirtyVector.Buffer
    {
      && WellFormed(BaseBlock)
      && BaseBlock[LENGTH] == |Blocks| * 4096
      && DirtyVector.Valid()
      && |Blocks| <= DirtyVector.SizeOfBitMap && DirtyVector.SizeOfBitMap % 32 == 0
      && forall b :: |Blocks| <= b < DirtyVector.SizeOfBitMap ==> !DirtyVector.Bits()[b]
    }

    /** HvpCreateHive: a hive that exists in memory only. */
    constructor Create(log: bool, alternate: bool, budget: nat)
      ensures Valid() && fresh(DirtyVector) && fresh(DirtyVector.Buffer)
      ensures DirtyVector.SizeOfBitMap == 0 && Blocks == [] && Log == log && Alternate == alternate && !Volatile && Budget == budget
      ensures BaseBlock[SEQUENCE1] == BaseBlock[SEQUENCE2] == 1 && Primary == LogFile == AlternateFile == map[]
      ensures BaseBlock[SIGNATURE] == HV_HBLOCK_SIGNATURE && BaseBlock[MAJOR] == HSYS_MAJOR && BaseBlock[MINOR] == HSYS_MINOR
      ensures BaseBlock[TYPE] == HFILE_TYPE_PRIMARY && BaseBlock[FORMAT] == HBASE_FORMAT_MEMORY && BaseBlock[CLUSTER] == 1
      ensures BaseBlock[ROOTCELL] == Cells.HCELL_NIL
      ensures forall i {:trigger BaseBlock[i]} :: 0 <= i < HBLOCK ==>
        BaseBlock[i] == 0 || i in {SEQUENCE1, SEQUENCE2, SIGNATURE, MAJOR, MINOR, TYPE, FORMAT, CLUSTER, ROOTCELL}
      ensures DirtyVector.Buffer.Length == 0 && DirtyCount == 0 && !SelfHealing
    {
      BaseBlock := seq(HBLOCK, i => 0)[SIGNATURE := HV_HBLOCK_SIGNATURE][MAJOR := HSYS_MAJOR][MINOR := HSYS_MINOR]
        [TYPE := HFILE_TYPE_PRIMARY][FORMAT := HBASE_FORMAT_MEMORY][CLUSTER := 1][ROOTCELL := Cells.HCELL_NIL]
        [LENGTH := 0][SEQUENCE1 := 1][SEQUENCE2 := 1];
      Blocks := [];
      var buffer := new Word[0];
      DirtyVector := new Bitmap(0, buffer);
      DirtyCount, Volatile, Log, Alternate, SelfHealing := 0, false, log, alternate, false;
      Primary, LogFile, AlternateFile, Budget := map[], map[], map[], budget;
    }

    ghost function FileOf(fileType: Word): File
      reads this
    {
      if fileType == HFILE_TYPE_LOG then LogFile else if fileType == HFILE_TYPE_PRIMARY then Primary else AlternateFile
    }

    /** One write to the device: done completely, or not at all once the budget is used up. */
    method FileWrite(fileType: Word, at: nat, data: seq<Word>) returns (success: bool)
      modifies this`Primary, this`LogFile, this`AlternateFile, this`Budget
      ensures success <==> old(Budget) > 0
      ensures Budget == if success then old(Budget) - 1 else 0
      ensures FileOf(fileType) == if success then Files.Written(old(FileOf(fileType)), at, data) else old(FileOf(fileType))
      ensures fileType != HFILE_TYPE_LOG ==> LogFile == old(LogFile)
      ensures fileType != HFILE_TYPE_PRIMARY ==> Primary == old(Primary)
      ensures fileType == HFILE_TYPE_LOG || fileType == HFILE_TYPE_PRIMARY ==> AlternateFile == old(AlternateFile)
    {
      if Budget == 0 {
        return false;
      }
      Budget := Budget - 1;
      if fileType == HFILE_TYPE_LOG {
        LogFile := Files.Written(LogFile, at, data);
      } else if fileType == HFILE_TYPE_PRIMARY {
        Primary := Files.Written(Primary, at, data);
      } else {
        AlternateFile := Files.Written(AlternateFile, at, data);
      }
      return true;
    }

    method FileFlush(fileType: Word) returns (success: bool)
      ensures success <==> Budget > 0
    {
      return Budget > 0;
    }

    /** The next dirty block at or after blockIndex, if any: the search wraps around, and an answer below
        the last index ends the walk. */
    method NextDirty(blockIndex: nat) returns (next: nat, found: bool)
      requires DirtyVector.Valid() && blockIndex < DirtyVector.SizeOfBitMap
      ensures found ==> blockIndex <= next < DirtyVector.SizeOfBitMap && DirtyVector.Bits()[next]
      ensures found ==> forall b :: blockIndex <= b < next ==> !DirtyVector.Bits()[b]
      ensures !found ==> forall b :: blockIndex <= b < DirtyVector.SizeOfBitMap ==> !DirtyVector.Bits()[b]
    {
      var lastIndex := blockIndex;
      next := DirtyVector.FindSetBits(1, blockIndex);
      FirstBit(DirtyVector.Bits(), blockIndex, next);
      found := !(next == MAXINDEX || next < lastIndex);
    }

    /** The dirty vector of the log: a byte for each block. */
    method BuildVector() returns (bytes: seq<Byte>)
      requires Valid()
      ensures |bytes| == VectorSize(DirtyVector.SizeOfBitMap) - 4 && |bytes| % 4 == 0
      ensures forall b :: 0 <= b < |bytes| ==> bytes[b] == if b < DirtyVector.SizeOfBitMap && DirtyVector.Bits()[b] then 0xFF else 0
    {
      var size := DirtyVector.SizeOfBitMap;
      VectorFits(size);
      hide VectorSize, On, WellFormed;
      ghost var bits := DirtyVector.Bits();
      bytes := seq(VectorSize(size) - 4, i => 0);
      var blockIndex := 0;
      while blockIndex < |Blocks|
        invariant |bytes| == VectorSize(size) - 4 && blockIndex <= size
        invariant forall b :: 0 <= b < |bytes| ==> bytes[b] == if b < size && bits[b] && b < blockIndex then 0xFF else 0
        decreases |Blocks| - blockIndex
      {
        var next, found := NextDirty(blockIndex);
        if !found {
          break;
        }
        bytes := bytes[next := 0xFF];
        blockIndex := next + 1;
      }
    }

    /** The dirty blocks, in ascending order, to the log. */
    method LogDirtyBlocks() returns (success: bool)
      requires Valid() && VectorHolds(LogFile, DirtyVector.Bits())
      modifies this`LogFile, this`Primary, this`AlternateFile, this`Budget
      ensures Primary == old(Primary) && AlternateFile == old(AlternateFile)
      ensures success ==> LogHolds(LogFile, DirtyVector.Bits(), Blocks)
      ensures success <==> Rank(DirtyVector.Bits(), |Blocks|) <= old(Budget)
      ensures success ==> old(Budget) == Budget + Rank(DirtyVector.Bits(), |Blocks|)
    {
      hide VectorHolds, LogBase, Rank, LoggedBelow, LogHolds, WellFormed, Files.Written;
      ghost var bits := DirtyVector.Bits();
      var fileOffset := LogBase(DirtyVector.SizeOfBitMap);
      var blockIndex := 0;
      NothingLogged(LogFile, bits, Blocks);
      while blockIndex < |Blocks|
        invariant bits == DirtyVector.Bits()
        invariant blockIndex <= |bits| && fileOffset == LogBase(|bits|) + 1024 * Rank(bits, blockIndex)
        invariant VectorHolds(LogFile, bits) && LoggedBelow(LogFile, bits, Blocks, blockIndex)
        invariant Primary == old(Primary) && AlternateFile == old(AlternateFile)
        invariant old(Budget) == Budget + Rank(bits, blockIndex)
        decreases |Blocks| - blockIndex
      {
        var next, found := NextDirty(blockIndex);
        assert !found ==> forall c :: blockIndex <= c < |bits| ==> !bits[c];
        if !found {
          break;
        }
        OneMoreLogged(LogFile, bits, Blocks, blockIndex, next);
        success := FileWrite(HFILE_TYPE_LOG, fileOffset, Blocks[next]);
        if !success {
          RankOrder(bits, next, |Blocks|);
          return false;
        }
        blockIndex := next + 1;
        fileOffset := fileOffset + 1024;
      }
      assert forall c :: blockIndex <= c < |Blocks| ==> !bits[c];
      AllLogged(LogFile, bits, Blocks, blockIndex);
      AllRanked(bits, blockIndex, |Blocks|);
      success := true;
    }

    /** A new sequence number, sealed by a new checksum. */
    method Advance(sequence: nat)
      requires sequence in {SEQUENCE1, SEQUENCE2} && |BaseBlock| == HBLOCK
      modifies this`BaseBlock
      ensures SameHeader(old(BaseBlock), BaseBlock)
      ensures BaseBlock[sequence] == Next(old(BaseBlock[sequence]))
      ensures BaseBlock[SEQUENCE1 + SEQUENCE2 - sequence] == old(BaseBlock[SEQUENCE1 + SEQUENCE2 - sequence])
      ensures BaseBlock[TYPE] == old(BaseBlock[TYPE]) && BaseBlock[CHECKSUM] == Checksum(BaseBlock)
    {
      hide Checksum;
      BaseBlock := BaseBlock[sequence := Next(BaseBlock[sequence])];
      var sum := HiveHeaderChecksum(BaseBlock);
      SealedChecksum(BaseBlock);
      BaseBlock := BaseBlock[CHECKSUM := sum];
    }

    /** HvpWriteLog: the header, the dirty vector and the dirty blocks go to the log between two increments
        of the sequence numbers. */
    method WriteLog() returns (success: bool)
      requires Valid()
      modifies this`BaseBlock, this`LogFile, this`Primary, this`AlternateFile, this`Budget
      ensures Valid() && Primary == old(Primary) && AlternateFile == old(AlternateFile)
      ensures SameHeader(old(BaseBlock), BaseBlock)
      ensures old(BaseBlock[SEQUENCE1] != BaseBlock[SEQUENCE2]) ==> !success && LogFile == old(LogFile)
      ensures success ==> LogHolds(LogFile, DirtyVector.Bits(), Blocks)
      ensures success ==> HeaderInLog(LogFile, BaseBlock[TIMESTAMP], BaseBlock[TIMESTAMP + 1]) && Read(LogFile, 0, HSECTOR)[LENGTH] == BaseBlock[LENGTH]
      ensures success <==> old(BaseBlock[SEQUENCE1] == BaseBlock[SEQUENCE2]) && Rank(DirtyVector.Bits(), |Blocks|) + 3 <= old(Budget)
      ensures success ==> BaseBlock[SEQUENCE1] == BaseBlock[SEQUENCE2] && old(Budget) == Budget + Rank(DirtyVector.Bits(), |Blocks|) + 2
    {
      hide Rank, Checksum, VectorHolds, LogHolds, VectorSize, LogBase, Pack, Files.Written, HeaderInLog, Holds, Read;
      if BaseBlock[SEQUENCE1] != BaseBlock[SEQUENCE2] {
        return false;
      }
      BaseBlock := BaseBlock[TYPE := HFILE_TYPE_LOG];
      Advance(SEQUENCE1);
      var bytes := BuildVector();
      HeaderWritten(LogFile, BaseBlock[..HSECTOR], bytes, DirtyVector.Bits());
      success := FileWrite(HFILE_TYPE_LOG, 0, BaseBlock[..HSECTOR] + [HV_LOG_DIRTY_SIGNATURE] + Pack(bytes));
      if !success {
        return false;
      }
      success := LogDirtyBlocks();
      if !success {
        return false;
      }
      success := FileFlush(HFILE_TYPE_LOG);
      if !success {
        return false;
      }
      Advance(SEQUENCE2);
      LogHeaderAgain(LogFile, BaseBlock[..HSECTOR], DirtyVector.Bits(), Blocks);
      LogHeaderPasses(LogFile, BaseBlock);
      success := FileWrite(HFILE_TYPE_LOG, 0, BaseBlock[..HSECTOR]);
      if !success {
        return false;
      }
      success := FileFlush(HFILE_TYPE_LOG);
    }

    // ----- the hive file

    /** The blocks go to the hive file in ascending order, each to its own place. */
    method WriteBlocks(onlyDirty: bool, fileType: Word, ghost before: File) returns (success: bool, ghost done: nat)
      requires Valid() && fileType in {HFILE_TYPE_PRIMARY, HFILE_TYPE_ALTERNATE}
      requires Progress(before, FileOf(fileType), Blocks, Chosen(DirtyVector.Bits(), onlyDirty), 0)
      requires Contains(FileOf(fileType), 0, BaseBlock)
      modifies this`LogFile, this`Primary, this`AlternateFile, this`Budget
      ensures LogFile == old(LogFile)
      ensures fileType == HFILE_TYPE_ALTERNATE ==> Primary == old(Primary)
      ensures fileType == HFILE_TYPE_PRIMARY ==> AlternateFile == old(AlternateFile)
      ensures Contains(FileOf(fileType), 0, BaseBlock)
      ensures Progress(before, FileOf(fileType), Blocks, Chosen(DirtyVector.Bits(), onlyDirty), done)
      ensures success ==> done == |Blocks|
      ensures success <==> Rank(Chosen(DirtyVector.Bits(), onlyDirty), |Blocks|) <= old(Budget)
      ensures success ==> old(Budget) == Budget + Rank(Chosen(DirtyVector.Bits(), onlyDirty), |Blocks|)
    {
      hide Contains, Progress, Files.Written, Rank;
      ghost var chosen := Chosen(DirtyVector.Bits(), onlyDirty);
      var blockIndex := 0;
      RankStart(chosen);
      while blockIndex < |Blocks|
        invariant blockIndex <= |Blocks|
        invariant Progress(before, FileOf(fileType), Blocks, chosen, blockIndex)
        invariant Contains(FileOf(fileType), 0, BaseBlock)
        invariant LogFile == old(LogFile)
        invariant fileType == HFILE_TYPE_ALTERNATE ==> Primary == old(Primary)
        invariant fileType == HFILE_TYPE_PRIMARY ==> AlternateFile == old(AlternateFile)
        invariant old(Budget) == Budget + Rank(chosen, blockIndex)
        decreases |Blocks| - blockIndex
      {
        var next := blockIndex;
        if onlyDirty {
          var found;
          next, found := NextDirty(blockIndex);
          if !found {
            break;
          }
        }
        OneMore(before, FileOf(fileType), Blocks, chosen, blockIndex, next);
        RankSkips(chosen, blockIndex, next);
        RankStep(chosen, next);
        WrittenElsewhere(FileOf(fileType), BlockAt(next), Blocks[next], 0, BaseBlock);
        success := FileWrite(fileType, BlockAt(next), Blocks[next]);
        if !success {
          RankOrder(chosen, next, |Blocks|);
          return false, blockIndex;
        }
        blockIndex := next + 1;
      }
      assert blockIndex < |Blocks| ==> onlyDirty && chosen == DirtyVector.Bits();
      assert forall c :: blockIndex <= c < |Blocks| ==> !chosen[c];
      NoMore(before, FileOf(fileType), Blocks, chosen, blockIndex);
      AllRanked(chosen, blockIndex, |Blocks|);
      return true, |Blocks|;
    }

    /** HvpWriteHive: the header with a new first sequence number, the blocks, and the header again with the
        second number caught up.  Where it stops, the file is as before, or has the first header and some of
        the blocks, or is finished. */
    method WriteHive(onlyDirty: bool, fileType: Word) returns (success: bool, ghost done: nat)
      requires Valid() && fileType in {HFILE_TYPE_PRIMARY, HFILE_TYPE_ALTERNATE}
      modifies this`BaseBlock, this`LogFile, this`Primary, this`AlternateFile, this`Budget
      ensures Valid() && LogFile == old(LogFile) && SameHeader(old(BaseBlock), BaseBlock)
      ensures fileType == HFILE_TYPE_ALTERNATE ==> Primary == old(Primary)
      ensures old(BaseBlock[SEQUENCE1] != BaseBlock[SEQUENCE2]) ==> !success
      ensures FileOf(fileType) == old(FileOf(fileType)) || Stage(old(FileOf(fileType)), FileOf(fileType), Blocks, Chosen(DirtyVector.Bits(), onlyDirty), done)
      ensures success ==> Stage(old(FileOf(fileType)), FileOf(fileType), Blocks, Chosen(DirtyVector.Bits(), onlyDirty), done) && Clean(FileOf(fileType))
      ensures success ==> BaseBlock[SEQUENCE1] == BaseBlock[SEQUENCE2]
      ensures success ==> old(Budget) == Budget + Rank(Chosen(DirtyVector.Bits(), onlyDirty), |Blocks|) + 2
      ensures fileType == HFILE_TYPE_PRIMARY ==> AlternateFile == old(AlternateFile)
      ensures old(BaseBlock[SEQUENCE1] == BaseBlock[SEQUENCE2]) ==>
        var cost := Rank(Chosen(DirtyVector.Bits(), onlyDirty), |Blocks|);
        && (success <==> cost + 3 <= old(Budget))
        && (1 <= old(Budget) <= cost + 1 ==> !Clean(FileOf(fileType)))
    {
      hide Rank, Checksum, Contains, Progress, Stage, Files.Written, Clean, Chosen;
      done := 0;
      if BaseBlock[SEQUENCE1] != BaseBlock[SEQUENCE2] {
        return false, 0;
      }
      ghost var before, chosen := FileOf(fileType), Chosen(DirtyVector.Bits(), onlyDirty);
      success := WriteHeader(SEQUENCE1, fileType);
      if !success {
        return;
      }
      HeaderOnly(before, BaseBlock, Blocks, chosen);
      WrittenContains(before, 0, BaseBlock);
      success, done := WriteBlocks(onlyDirty, fileType, before);
      StageReached(before, FileOf(fileType), BaseBlock, Blocks, chosen, done);
      if !success {
        return;
      }
      success := FileFlush(fileType);
      if !success {
        return;
      }
      ghost var between := FileOf(fileType);
      success := WriteHeader(SEQUENCE2, fileType);
      if !success {
        return;
      }
      HeaderAgain(before, between, BaseBlock, Blocks, chosen, done);
      WrittenContains(between, 0, BaseBlock);
      StageReached(before, FileOf(fileType), BaseBlock, Blocks, chosen, done);
      success := FileFlush(fileType);
    }

    /** The base block with one sequence number advanced, sealed, and written whole. */
    method WriteHeader(sequence: nat, fileType: Word) returns (success: bool)
      requires Valid() && sequence in {SEQUENCE1, SEQUENCE2} && fileType in {HFILE_TYPE_PRIMARY, HFILE_TYPE_ALTERNATE}
      modifies this`BaseBlock, this`LogFile, this`Primary, this`AlternateFile, this`Budget
      ensures Valid() && LogFile == old(LogFile) && SameHeader(old(BaseBlock), BaseBlock)
      ensures fileType == HFILE_TYPE_ALTERNATE ==> Primary == old(Primary)
      ensures fileType == HFILE_TYPE_PRIMARY ==> AlternateFile == old(AlternateFile)
      ensures BaseBlock[sequence] == Next(old(BaseBlock[sequence]))
      ensures BaseBlock[SEQUENCE1 + SEQUENCE2 - sequence] == old(BaseBlock[SEQUENCE1 + SEQUENCE2 - sequence])
      ensures Sealable(BaseBlock)
      ensures (success <==> old(Budget) > 0) && Budget == if success then old(Budget) - 1 else 0
      ensures FileOf(fileType) == if success then Files.Written(old(FileOf(fileType)), 0, BaseBlock) else old(FileOf(fileType))
    {
      hide Checksum, Files.Written;
      BaseBlock := BaseBlock[TYPE := HFILE_TYPE_PRIMARY];
      Advance(sequence);
      success := FileWrite(fileType, 0, BaseBlock);
    }

    // ----- the whole flush

    /** image is what the hive file held when memory last agreed with it: the file needs no recovery, and
        every block that differs now is dirty. */
    ghost predicate Coherent(image: seq<Block>)
      reads this, DirtyVector, DirtyVector.Buffer
      requires Valid()
    {
      && Clean(Primary) && LoadsAs(Primary, LogFile, image)
      && |image| <= |Blocks| && Tracked(DirtyVector.Bits(), image, Blocks)
    }

    /** The device fails after the log is complete, with the hive file begun and not finished. */
    ghost predicate CutShort(dirty: nat)
      reads this
    {
      dirty > 0 && dirty + 3 <= Budget <= 2 * dirty + 3
    }

    /** HvSyncHive.  Wherever it stops, the next load sees either all of the memory image or none of the
        changes, provided the hive has a log and its dirty vector fits one sector.  It succeeds exactly when the
        device has the writes for each file, and one more for the last to be flushed. */
    method SyncHive(ghost image: seq<Block>) returns (success: bool)
      requires Valid() && Coherent(image)
      modifies this`BaseBlock, this`LogFile, this`Primary, this`AlternateFile, this`Budget, this`DirtyCount,
               DirtyVector.Buffer
      ensures Valid()
      ensures SameHeader(if Volatile || old(Rank(DirtyVector.Bits(), |Blocks|)) == 0 then old(BaseBlock) else Stamped(old(BaseBlock)), BaseBlock)
      ensures DirtyCount == if Volatile || !success || old(Rank(DirtyVector.Bits(), |Blocks|)) == 0 then old(DirtyCount) else 0
      ensures Log && DirtyVector.SizeOfBitMap <= 508 ==>
        LoadsAs(Primary, LogFile, image) || LoadsAs(Primary, LogFile, Blocks)
      ensures success <==> Volatile || old(Affordable(Rank(DirtyVector.Bits(), |Blocks|)))
      ensures success ==> Volatile || (Coherent(Blocks) && BlocksAre(Primary, Blocks))
      ensures success ==> Volatile || forall b :: 0 <= b < DirtyVector.SizeOfBitMap ==> !DirtyVector.Bits()[b]
      ensures success && !Volatile && Alternate ==> Progress(old(AlternateFile), AlternateFile, Blocks, old(DirtyVector.Bits()), |Blocks|)
      ensures success ==> Budget + (if Volatile then 0 else FlushCost(Log, Alternate, old(Rank(DirtyVector.Bits(), |Blocks|)))) == old(Budget)
      ensures success ==> (BaseBlock[SEQUENCE1] == BaseBlock[SEQUENCE2] <==> old(BaseBlock[SEQUENCE1] == BaseBlock[SEQUENCE2]))
      ensures !success ==> DirtyVector.Bits() == old(DirtyVector.Bits())
      ensures !Volatile && Log && old(BaseBlock[SEQUENCE1] == BaseBlock[SEQUENCE2]) && old(CutShort(Rank(DirtyVector.Bits(), |Blocks|))) ==>
        LogHolds(LogFile, old(DirtyVector.Bits()), Blocks) && !Clean(Primary)
    {
      hide LoadsAs, LogHolds, Stage, Clean, Rank, BlocksAre, Progress;
      if Volatile {
        return true;
      }
      CoherentBlocks(image);
      var first := DirtyVector.FindSetBits(1, 0);
      if first == MAXINDEX {
        ghost var bits := DirtyVector.Bits();
        assert 0 < |bits| ==> FirstRun(bits, 1, 0, MAXINDEX);
        NothingDirty(bits, image, Blocks);
        RankStart(bits);
        RankSkips(bits, 0, |Blocks|);
        NothingWritten(AlternateFile, Blocks, bits);
        return true;
      }
      SomeDirty(DirtyVector.Bits(), |Blocks|, first);
      success := WriteFiles(image);
      if !success {
        return false;
      }
      DirtyVector.FillAll(false);
      DirtyCount := 0;
      CoherentBlocks(Blocks);
      return true;
    }

    /** The sequence numbers agree: no flush has begun and not been finished. */
    ghost predicate Agree()
      reads this`BaseBlock
    {
      BaseBlock[SEQUENCE1] == BaseBlock[SEQUENCE2]
    }

    /** The flush can be finished: there is nothing to do, or the sequence numbers agree and the device takes every
        write and has not failed after the last. */
    ghost predicate Affordable(dirty: nat)
      reads this`Log, this`Alternate, this`Budget, this`BaseBlock
    {
      dirty == 0 || (Agree() && FlushCost(Log, Alternate, dirty) < Budget)
    }

    /** The log, the hive file and the alternate hive file, in that order. */
    method WriteFiles(ghost image: seq<Block>) returns (success: bool)
      requires Valid() && Coherent(image) && Rank(DirtyVector.Bits(), |Blocks|) > 0
      modifies this`BaseBlock, this`LogFile, this`Primary, this`AlternateFile, this`Budget
      ensures Valid() && SameHeader(Stamped(old(BaseBlock)), BaseBlock)
      ensures Log && DirtyVector.SizeOfBitMap <= 508 ==>
        LoadsAs(Primary, LogFile, image) || LoadsAs(Primary, LogFile, Blocks)
      ensures success ==> Clean(Primary) && LoadsAs(Primary, LogFile, Blocks) && BaseBlock[SEQUENCE1] == BaseBlock[SEQUENCE2]
      ensures success <==> old(Affordable(Rank(DirtyVector.Bits(), |Blocks|)))
      ensures success ==> Budget + FlushCost(Log, Alternate, Rank(DirtyVector.Bits(), |Blocks|)) == old(Budget)
      ensures success && Alternate ==> Progress(old(AlternateFile), AlternateFile, Blocks, DirtyVector.Bits(), |Blocks|)
      ensures Log && old(BaseBlock[SEQUENCE1] == BaseBlock[SEQUENCE2]) && old(CutShort(Rank(DirtyVector.Bits(), |Blocks|))) ==>
        !success && LogHolds(LogFile, DirtyVector.Bits(), Blocks) && !Clean(Primary)
    {
      ghost var stamped := Stamped(BaseBlock);
      hide LoadsAs, LogHolds, Stage, Clean, Rank, Progress, Coherent, Valid, SameHeader, Stamped, CutShort;
      success := WriteLogAndHive(image);
      if success && Alternate {
        ghost var header := BaseBlock;
        success := WriteAlternate();
        SameHeaderTwice(stamped, header, BaseBlock);
      }
    }

    /** The alternate hive file takes the dirty blocks as the hive file does. */
    method WriteAlternate() returns (success: bool)
      requires Valid()
      modifies this`BaseBlock, this`LogFile, this`Primary, this`AlternateFile, this`Budget
      ensures Valid() && SameHeader(old(BaseBlock), BaseBlock) && LogFile == old(LogFile) && Primary == old(Primary)
      ensures success <==> old(Agree()) && Rank(DirtyVector.Bits(), |Blocks|) + 2 < old(Budget)
      ensures success ==> Agree() && Budget + Rank(DirtyVector.Bits(), |Blocks|) + 2 == old(Budget)
      ensures success ==> Progress(old(AlternateFile), AlternateFile, Blocks, DirtyVector.Bits(), |Blocks|)
    {
      hide LoadsAs, LogHolds, Stage, Clean, Rank, Progress, Coherent, Valid, SameHeader;
      ghost var done;
      success, done := WriteHive(true, HFILE_TYPE_ALTERNATE);
      if success { StageDone(old(AlternateFile), AlternateFile, Blocks, DirtyVector.Bits(), done); }
    }

    /** The log, if there is one, and the hive file. */
    method WriteLogAndHive(ghost image: seq<Block>) returns (success: bool)
      requires Valid() && Coherent(image) && Rank(DirtyVector.Bits(), |Blocks|) > 0
      modifies this`BaseBlock, this`LogFile, this`Primary, this`AlternateFile, this`Budget
      ensures Valid() && SameHeader(Stamped(old(BaseBlock)), BaseBlock) && AlternateFile == old(AlternateFile)
      ensures Log && DirtyVector.SizeOfBitMap <= 508 ==>
        LoadsAs(Primary, LogFile, image) || LoadsAs(Primary, LogFile, Blocks)
      ensures success ==> Clean(Primary) && LoadsAs(Primary, LogFile, Blocks) && BaseBlock[SEQUENCE1] == BaseBlock[SEQUENCE2]
      ensures var d := Rank(DirtyVector.Bits(), |Blocks|);
        && (success <==> old(BaseBlock[SEQUENCE1] == BaseBlock[SEQUENCE2]) && (if Log then d + 2 else 0) + d + 2 < old(Budget))
        && (success ==> Budget + (if Log then d + 2 else 0) + d + 2 == old(Budget))
      ensures Log && old(BaseBlock[SEQUENCE1] == BaseBlock[SEQUENCE2]) && old(CutShort(Rank(DirtyVector.Bits(), |Blocks|))) ==>
        !success && LogHolds(LogFile, DirtyVector.Bits(), Blocks) && !Clean(Primary)
    {
      hide LoadsAs, LogHolds, Stage, Clean, Rank, HeaderInLog, Progress;
      BaseBlock := Stamped(BaseBlock);
      if Log {
        success := WriteLog();
        CleanLoads(Primary, old(LogFile), LogFile, image);
        if !success {
          return false;
        }
      }
      ghost var done;
      success, done := WriteHive(true, HFILE_TYPE_PRIMARY);
      CleanLoads(old(Primary), old(LogFile), LogFile, image);
      StageLoads(old(Primary), Primary, LogFile, image, Blocks, DirtyVector.Bits(), done);
    }

    /** HvWriteHive: every block, dirty or not, so that the file does not depend on what it held before. */
    method WriteWholeHive() returns (success: bool)
      requires Valid()
      modifies this`BaseBlock, this`LogFile, this`Primary, this`AlternateFile, this`Budget
      ensures Valid() && SameHeader(Stamped(old(BaseBlock)), BaseBlock) && LogFile == old(LogFile)
      ensures success ==> Coherent(Blocks) && BaseBlock[SEQUENCE1] == BaseBlock[SEQUENCE2]
      ensures success ==> VerifyHiveHeader(Read(Primary, 0, HSECTOR), HFILE_TYPE_PRIMARY) && old(Budget) == Budget + |Blocks| + 2
      ensures old(BaseBlock[SEQUENCE1] == BaseBlock[SEQUENCE2]) ==> (success <==> |Blocks| + 3 <= old(Budget))
    {
      RankAll(Chosen(DirtyVector.Bits(), false), |Blocks|);
      hide LoadsAs, Checksum, Rank;
      BaseBlock := Stamped(BaseBlock);
      ghost var done;
      success, done := WriteHive(false, HFILE_TYPE_PRIMARY);
      if success {
        WholeHiveLoads(old(Primary), Primary, LogFile, Blocks, Chosen(DirtyVector.Bits(), false));
      }
    }

    // ----- changing memory

    /** A block changes, and is marked dirty. */
    method UpdateBlock(b: nat, block: Block, ghost image: seq<Block>)
      requires Valid() && b < |Blocks|
      modifies this`Blocks, this`DirtyCount, DirtyVector.Buffer
      ensures Valid() && Blocks == old(Blocks)[b := block]
      ensures old(Coherent(image)) ==> Coherent(image)
      ensures DirtyVector.Bits() == old(DirtyVector.Bits())[b := true] && DirtyCount == old(DirtyCount) + 1
    {
      hide LoadsAs, Clean;
      Blocks := Blocks[b := block];
      DirtyVector.SetBits(b, 1);
      DirtyCount := DirtyCount + 1;
    }

    /** The part of HvpAddBin that concerns the flush: the new blocks, a larger dirty vector when the old one
        has no room, and the new blocks' bits. */
    method AddBin(blocks: seq<Block>, ghost image: seq<Block>)
      requires Valid()
      requires (|Blocks| + |blocks|) * 4096 <= ALL_ONES
      modifies this`Blocks, this`BaseBlock, DirtyVector, DirtyVector.Buffer
      ensures Valid() && Blocks == old(Blocks) + blocks
      ensures old(Coherent(image)) ==> Coherent(image)
      ensures SameHeaderButLength(old(BaseBlock), BaseBlock)
      ensures DirtyVector.Buffer == old(DirtyVector.Buffer) || fresh(DirtyVector.Buffer)
      ensures DirtyVector.SizeOfBitMap == old(DirtyVector.SizeOfBitMap) || DirtyVector.SizeOfBitMap < |Blocks| + 32
      ensures |Blocks| <= old(DirtyVector.SizeOfBitMap) ==>
        DirtyVector.Buffer == old(DirtyVector.Buffer) && DirtyVector.SizeOfBitMap == old(DirtyVector.SizeOfBitMap)
      ensures old(DirtyVector.SizeOfBitMap) <= DirtyVector.SizeOfBitMap
      ensures DirtyVector.Bits() ==
        Filled(Extended(old(DirtyVector.Bits()), DirtyVector.SizeOfBitMap), old(|Blocks|), |blocks|, true)
    {
      hide LoadsAs, Clean, On, BitsOf;
      var first := |Blocks|;
      Blocks := Blocks + blocks;
      GrowDirtyVector();
      assert DirtyVector.Bits() == Extended(old(DirtyVector.Bits()), DirtyVector.SizeOfBitMap);
      DirtyVector.SetBits(first, |blocks|);
      BaseBlock := BaseBlock[LENGTH := |Blocks| * 4096];
    }

    /** The dirty vector always covers whole words; a larger one starts as a copy of the old. */
    method GrowDirtyVector()
      requires DirtyVector.Valid() && DirtyVector.SizeOfBitMap % 32 == 0 && |Blocks| * 4096 <= ALL_ONES
      modifies DirtyVector
      ensures DirtyVector.Valid() && DirtyVector.SizeOfBitMap % 32 == 0 && |Blocks| <= DirtyVector.SizeOfBitMap
      ensures old(DirtyVector.SizeOfBitMap) <= DirtyVector.SizeOfBitMap
      ensures DirtyVector.SizeOfBitMap == old(DirtyVector.SizeOfBitMap) || DirtyVector.SizeOfBitMap < |Blocks| + 32
      ensures |Blocks| <= old(DirtyVector.SizeOfBitMap) ==>
        DirtyVector.Buffer == old(DirtyVector.Buffer) && DirtyVector.SizeOfBitMap == old(DirtyVector.SizeOfBitMap)
      ensures DirtyVector.Buffer == old(DirtyVector.Buffer) || fresh(DirtyVector.Buffer)
      ensures DirtyVector.Bits() == Extended(old(DirtyVector.Bits()), DirtyVector.SizeOfBitMap)
    {
      hide On;
      var bitmapSize := (|Blocks| + 31) / 32 * 32 / 8;
      if bitmapSize > DirtyVector.SizeOfBitMap / 8 {
        var buffer := LargerBuffer(DirtyVector.Buffer, DirtyVector.SizeOfBitMap / 32, bitmapSize / 4);
        GrownBits(DirtyVector.Buffer[..], buffer[..], DirtyVector.SizeOfBitMap);
        DirtyVector.Buffer, DirtyVector.SizeOfBitMap := buffer, bitmapSize * 8;
      }
    }

    /** A zeroed buffer with the old words copied to its front. */
    method LargerBuffer(source: array<Word>, copied: nat, size: nat) returns (buffer: array<Word>)
      requires copied <= source.Length && copied <= size
      ensures fresh(buffer) && buffer.Length == size && buffer[..copied] == source[..copied]
      ensures forall j :: copied <= j < size ==> buffer[j] == 0
    {
      buffer := new Word[size](i => 0);
      for i := 0 to copied
        invariant buffer[..i] == source[..i]
        invariant forall j :: i <= j < size ==> buffer[j] == 0
      {
        buffer[i] := source[i];
      }
    }

    // ----- whole runs

    /** One operation of a run. */
    method Step(op: Op, ghost image: seq<Block>) returns (success: bool, ghost after: seq<Block>)
      requires Valid() && Coherent(image) && !Volatile && |Blocks| + Growth([op]) <= 0xF_FFFF
      requires Log ==> |Blocks| + Growth([op]) <= 480 && DirtyVector.SizeOfBitMap <= 480
      modifies this, DirtyVector, DirtyVector.Buffer
      ensures Valid() && Log == old(Log) && Alternate == old(Alternate) && !Volatile && DirtyVector == old(DirtyVector)
      ensures DirtyVector.Buffer == old(DirtyVector.Buffer) || fresh(DirtyVector.Buffer)
      ensures Blocks == Applied(old(Blocks), op) && |Blocks| == old(|Blocks|) + Growth([op])
      ensures Log ==> DirtyVector.SizeOfBitMap <= 480
      ensures success ==> Coherent(after) && after == if op.Flush? then Blocks else image
      ensures !success ==> op.Flush? && after in {image, Blocks} && Blocks == old(Blocks) && (Log ==> LoadsAs(Primary, LogFile, after))
      ensures success <==> !op.Flush? || old(Affordable(Rank(DirtyVector.Bits(), |Blocks|)))
      ensures success ==> old(Budget) == Budget + if op.Flush? then FlushCost(Log, Alternate, old(Rank(DirtyVector.Bits(), |Blocks|))) else 0
      ensures success ==> Agree() == old(Agree())
      ensures success ==> |Blocks| <= |DirtyVector.Bits()| && DirtyVector.Bits()[..|Blocks|] == DirtyAfter(old(DirtyVector.Bits()[..|Blocks|]), op)
    {
      hide LoadsAs, Clean, BitsOf, Rank, Coherent, Affordable, FlushCost, Valid;
      success, after := true, image;
      ghost var bits, n := DirtyVector.Bits(), |Blocks|;
      CoherentBlocks(image);
      match op {
        case Update(b, block) =>
          if b < |Blocks| {
            UpdateBlock(b, block, image);
            MarkedPrefix(bits, n, b);
          }
        case Grow(more) =>
          GrowBlocks(more, image);
        case Flush =>
          success := SyncHive(image);
          if success { ClearPrefix(DirtyVector.Bits(), bits, n); }
          if success || LoadsAs(Primary, LogFile, Blocks) {
            after := Blocks;
          }
      }
      if success { CoherentBlocks(after); }
    }

    method GrowBlocks(more: seq<Block>, ghost image: seq<Block>)
      requires Valid() && Coherent(image) && |Blocks| + |more| <= 0xF_FFFF
      modifies this`Blocks, this`BaseBlock, DirtyVector, DirtyVector.Buffer
      ensures Valid() && Coherent(image) && Blocks == old(Blocks) + more && Agree() == old(Agree())
      ensures DirtyVector.Buffer == old(DirtyVector.Buffer) || fresh(DirtyVector.Buffer)
      ensures DirtyVector.SizeOfBitMap == old(DirtyVector.SizeOfBitMap) || DirtyVector.SizeOfBitMap < |Blocks| + 32
      ensures |Blocks| <= old(DirtyVector.SizeOfBitMap) ==>
        DirtyVector.Buffer == old(DirtyVector.Buffer) && DirtyVector.SizeOfBitMap == old(DirtyVector.SizeOfBitMap)
      ensures DirtyVector.SizeOfBitMap % 32 == 0 && |Blocks| <= |DirtyVector.Bits()| && old(|Blocks| <= |DirtyVector.Bits()|)
      ensures DirtyVector.Bits()[..|Blocks|] == old(DirtyVector.Bits()[..|Blocks|]) + seq(|more|, i => true)
    {
      hide LoadsAs, Clean, BitsOf, Filled, Extended, Coherent, Valid, SameHeaderButLength;
      CoherentBlocks(image);
      ghost var bits, n := DirtyVector.Bits(), |Blocks|;
      AddBin(more, image);
      CoherentBlocks(image);
      KeptSequences(old(BaseBlock), BaseBlock);
      GrownPrefix(bits, n, |more|, DirtyVector.SizeOfBitMap);
    }

    /** A run of changes and flushes, up to the first flush the device cuts short, which is the first it does not
        have the writes for.  What a later load finds is the memory image of one flush of the run (or what the
        file held at first), and no flush that was completed after that one is lost. */
    method Run(ops: seq<Op>, ghost start: seq<Block>) returns (executed: nat, ghost kept: nat, ghost image: seq<Block>)
      requires Valid() && Coherent(start) && !Volatile && |Blocks| + Growth(ops) <= 0xF_FFFF
      requires Log ==> |Blocks| + Growth(ops) <= 480 && DirtyVector.SizeOfBitMap <= 480
      modifies this, DirtyVector, DirtyVector.Buffer
      ensures Valid() && Log == old(Log) && Alternate == old(Alternate)
      ensures Log || executed == |ops| ==> LoadsAs(Primary, LogFile, image)
      ensures executed <= |ops| && (executed < |ops| ==> ops[executed].Flush?)
      ensures kept <= executed + 1 && kept <= |ops| && image == FlushedAt(start, old(Blocks), ops, kept)
      ensures kept > 0 ==> ops[kept - 1].Flush?
      ensures forall j :: kept <= j < executed ==> !ops[j].Flush?
      ensures Blocks == MemoryAfter(old(Blocks), ops[..executed]) && (executed == |ops| ==> Coherent(image))
      ensures old(|Blocks| <= |DirtyVector.Bits()|) &&
        StopsForWrites(Log, Alternate, old(Agree()), old(Budget), old(DirtyVector.Bits()[..|Blocks|]), ops, executed)
    {
      hide *;
      RunStart(start, Blocks, ops);
      CoherentBlocks(start);
      ghost var blocks, dirty, budget, agree := Blocks, DirtyVector.Bits()[..|Blocks|], Budget, Agree();
      NothingSpent(Log, Alternate, agree, budget, dirty, ops);
      executed, kept, image := 0, 0, start;
      while executed < |ops|
        invariant Valid() && Coherent(image) && Log == old(Log) && Alternate == old(Alternate) && !Volatile
        invariant DirtyVector == old(DirtyVector) && (DirtyVector.Buffer == old(DirtyVector.Buffer) || fresh(DirtyVector.Buffer))
        invariant Ran(start, blocks, ops, executed, kept, image, Blocks) && (Log ==> DirtyVector.SizeOfBitMap <= 480)
        invariant executed <= |ops| && |Blocks| + Growth(ops[executed..]) <= if Log then 480 else 0xF_FFFF
        invariant Agree() == agree && |Blocks| <= |DirtyVector.Bits()|
        invariant SpentSoFar(Log, Alternate, agree, budget, dirty, ops, executed, Budget, DirtyVector.Bits()[..|Blocks|])
        decreases |ops| - executed
      {
        OneMoreOp(ops, executed);
        RankPrefix(DirtyVector.Bits(), |Blocks|, |Blocks|);
        ghost var before, now, left, was := Blocks, DirtyVector.Bits()[..|Blocks|], Budget, image;
        IsAffordable(Rank(now, |now|));
        var success;
        success, image := Step(ops[executed], image);
        if !success {
          RanUntil(start, blocks, ops, executed, kept, was, before, image);
          kept := if image == before then executed + 1 else kept;
          CannotAfford(Log, Alternate, agree, budget, dirty, ops, executed, left, now);
          return;
        }
        OneMoreRan(start, blocks, ops, executed, kept, was, before, image, Blocks);
        OneMoreSpent(Log, Alternate, agree, budget, dirty, ops, executed, left, now, Budget, DirtyVector.Bits()[..|Blocks|]);
        kept := if ops[executed].Flush? then executed + 1 else kept;
        executed := executed + 1;
      }
      RanAll(start, blocks, ops, kept, image, Blocks);
      CannotAfford(Log, Alternate, agree, budget, dirty, ops, executed, Budget, DirtyVector.Bits()[..|Blocks|]);
      CoherentLoads(image);
    }

    lemma IsAffordable(d: nat)
      ensures Affordable(d) <==> d == 0 || (Agree() && FlushCost(Log, Alternate, d) < Budget)
    {
    }

    /** What is lost beyond 480 blocks: the flush of any such hive, cut short, leaves files that load neither as
        what was there nor as what was to be written, if neither of the two versions of the first dirty block
        starts with a word of zeros. */
    method SyncLoses(ghost image: seq<Block>, ghost b: nat) returns (success: bool)
      requires Valid() && Coherent(image) && Log && !Volatile && BaseBlock[SEQUENCE1] == BaseBlock[SEQUENCE2]
      requires 480 < |Blocks| <= 508 && CutShort(Rank(DirtyVector.Bits(), |Blocks|))
      requires b < |image| && DirtyVector.Bits()[b] && forall c :: 0 <= c < b ==> !DirtyVector.Bits()[c]
      requires image[b][0] != 0 && Blocks[b][0] != 0
      modifies this`BaseBlock, this`LogFile, this`Primary, this`AlternateFile, this`Budget, this`DirtyCount,
               DirtyVector.Buffer
      ensures Valid() && !LoadsAs(Primary, LogFile, image) && !LoadsAs(Primary, LogFile, Blocks)
    {
      hide LoadsAs, LogHolds, Clean, Rank;
      ghost var bits := DirtyVector.Bits();
      success := SyncHive(image);
      VectorReplayed(Primary, LogFile, bits, Blocks, image, b);
      VectorReplayed(Primary, LogFile, bits, Blocks, Blocks, b);
    }

    lemma CoherentBlocks(image: seq<Block>)
      requires Valid() && Coherent(image)
      ensures |image| <= |Blocks| <= |DirtyVector.Bits()| == DirtyVector.SizeOfBitMap && DirtyVector.SizeOfBitMap % 32 == 0
      ensures BlocksAre(Primary, image) && Tracked(DirtyVector.Bits(), image, Blocks) && |Blocks| * 4096 == BaseBlock[LENGTH]
    {
      hide On;
    }

    lemma CoherentLoads(image: seq<Block>)
      requires Valid() && Coherent(image)
      ensures LoadsAs(Primary, LogFile, image)
    {
    }

    // ----- loading

    /** HvpGetHiveHeader: what the first sector of the hive file says about it. */
    method GetHiveHeader() returns (result: Result, header: seq<Word>, low: Word, high: Word)
      ensures result == HiveSuccess <==> Holds(Primary, 0, HSECTOR) && VerifyHiveHeader(Read(Primary, 0, HSECTOR), HFILE_TYPE_PRIMARY)
      ensures result == RecoverData <==>
        && Holds(Primary, 0, HSECTOR)
        && SoundExceptSequences(Read(Primary, 0, HSECTOR), HFILE_TYPE_PRIMARY)
        && !Clean(Primary)
      ensures result == NotHive <==> !Holds(Primary, 0, HSECTOR) && !FirstBin(Primary)
      ensures result == RecoverHeader <==>
        if Holds(Primary, 0, HSECTOR) then !SoundExceptSequences(Read(Primary, 0, HSECTOR), HFILE_TYPE_PRIMARY) else FirstBin(Primary)
      ensures result in {HiveSuccess, RecoverData} ==> header == Read(Primary, 0, HSECTOR)
      ensures result != NotHive ==> (low, high) == TimeStamp(Primary)
    {
      hide Checksum;
      var success, h := FileRead(Primary, 0, HSECTOR);
      if !success {
        success, h := FileRead(Primary, HBLOCK, HSECTOR);
        if !success {
          return NotHive, [], 0, 0;
        }
        if h[0] != Cells.HV_HBIN_SIGNATURE || h[1] != 0 {
          return NotHive, [], 0, 0;
        }
        return RecoverHeader, [], h[TIMESTAMP], h[TIMESTAMP + 1];
      }
      if h[SEQUENCE1] != h[SEQUENCE2] {
        var sum := HiveHeaderChecksum(h);
        if && h[SIGNATURE] == HV_HBLOCK_SIGNATURE && h[MAJOR] == HSYS_MAJOR && h[MINOR] >= HSYS_MINOR
           && h[TYPE] == HFILE_TYPE_PRIMARY && h[FORMAT] == HBASE_FORMAT_MEMORY && h[CLUSTER] == 1
           && sum == h[CHECKSUM] {
          return RecoverData, h, h[TIMESTAMP], h[TIMESTAMP + 1];
        }
        return RecoverHeader, [], h[TIMESTAMP], h[TIMESTAMP + 1];
      }
      if !VerifyHiveHeader(h, HFILE_TYPE_PRIMARY) {
        return RecoverHeader, [], h[TIMESTAMP], h[TIMESTAMP + 1];
      }
      return HiveSuccess, h, h[TIMESTAMP], h[TIMESTAMP + 1];
    }

    /** HvpRecoverDataFromLog: the flagged blocks are copied from the log to the hive file, up to one that the log
        does not have or the device does not take. */
    method RecoverDataFromLog(header: seq<Word>) returns (result: Result)
      requires |header| == HSECTOR && header[LENGTH] / 4096 <= 508
      modifies this`LogFile, this`Primary, this`AlternateFile, this`Budget
      ensures LogFile == old(LogFile) && result in {HiveSuccess, SelfHeal, Fail}
      ensures Outcome(result, Primary, Budget) == DataOutcome(old(Primary), LogFile, header[LENGTH] / 4096, old(Budget), SelfHealing)
    {
      var success, vector := FileRead(LogFile, VECTOR, HSECTOR);
      if !success {
        return if SelfHealing then SelfHeal else Fail;
      }
      if vector[0] != HV_LOG_DIRTY_SIGNATURE {
        return if SelfHealing then SelfHeal else Fail;
      }
      result := ReplayBlocks(vector, header);
    }

    /** HvpRecoverHeaderFromLog: the log's header, or one built anew, becomes the hive file's. */
    method RecoverHeaderFromLog(low: Word, high: Word, hiveSize: Word) returns (result: Result, header: seq<Word>)
      modifies this`LogFile, this`Primary, this`AlternateFile, this`Budget
      ensures LogFile == old(LogFile)
      ensures Outcome(result, Primary, Budget) == HeaderOutcome(old(Primary), LogFile, (low, high), old(Budget), SelfHealing, hiveSize)
      ensures result in {HiveSuccess, SelfHeal, Fail}
      ensures result == Fail <==> old(Budget) == 0 || !(HeaderInLog(LogFile, low, high) || (SelfHealing && hiveSize != 0))
      ensures result == Fail ==> Primary == old(Primary)
      ensures result != Fail ==> |header| == HSECTOR && HeaderIs(Primary, header)
      ensures result != Fail ==> header[LENGTH] == if HeaderInLog(LogFile, low, high) then Read(LogFile, 0, HSECTOR)[LENGTH] else hiveSize
    {
      hide Checksum, Files.Written;
      var success, h := FileRead(LogFile, 0, HSECTOR);
      var resuscitated := false;
      if !success || !VerifyHiveHeader(h, HFILE_TYPE_LOG) || h[TIMESTAMP] != low || h[TIMESTAMP + 1] != high {
        if !SelfHealing || hiveSize == 0 {
          return Fail, [];
        }
        if !success {
          h := Uniformly(0)[..HSECTOR];
        }
        header := h[SIGNATURE := HV_HBLOCK_SIGNATURE][SEQUENCE1 := 1][SEQUENCE2 := 1][CLUSTER := 1][LENGTH := hiveSize];
        var sum := HiveHeaderChecksum(header);
        header := header[CHECKSUM := sum];
        resuscitated := true;
      } else {
        header := h;
      }
      header := header[TYPE := HFILE_TYPE_PRIMARY];
      if !resuscitated {
        var sum := HiveHeaderChecksum(header);
        header := header[CHECKSUM := sum];
      }
      WrittenContains(Primary, 0, header);
      success := FileWrite(HFILE_TYPE_PRIMARY, 0, header);
      if !success {
        return Fail, [];
      }
      return if resuscitated then SelfHeal else HiveSuccess, header;
    }

    /** HvLoadHive up to the reading of the bins: the header is looked at and, if it says so, recovered, and the
        log replayed. */
    method LoadFiles(hiveSize: Word) returns (result: Result)
      requires Stale(Primary) ==> Read(Primary, 0, HSECTOR)[LENGTH] / 4096 <= 508
      requires Damaged(Primary) ==> ReplayFits(Primary, LogFile, hiveSize)
      modifies this`LogFile, this`Primary, this`AlternateFile, this`Budget
      ensures LogFile == old(LogFile)
      ensures result == NotHive <==> old(!Holds(Primary, 0, HSECTOR) && !FirstBin(Primary))
      ensures old(Passes(Primary)) ==> result == HiveSuccess
      ensures !Log ==> (result == HiveSuccess <==> old(Passes(Primary))) && result in {NotHive, HiveSuccess, Fail}
      ensures !Log || result == NotHive || old(Passes(Primary)) ==> Primary == old(Primary) && Budget == old(Budget)
      ensures Log && old(Stale(Primary)) ==>
        Outcome(result, Primary, Budget) == DataOrHeader(old(Primary), LogFile, old(Budget), SelfHealing, hiveSize)
      ensures Log && old(Damaged(Primary)) ==>
        Outcome(result, Primary, Budget) == HeaderAndData(old(Primary), LogFile, old(Budget), SelfHealing, hiveSize)
    {
      FourKinds(Primary);
      hide *;
      var header, low, high;
      result, header, low, high := GetHiveHeader();
      match result {
        case RecoverData =>
          if !Log {
            return Fail;
          }
          result := LoadData(header, low, high, hiveSize);
        case RecoverHeader =>
          if !Log {
            return Fail;
          }
          result := LoadHeaderAndData(low, high, hiveSize);
        case _ =>
      }
    }

    /** A load of files that load as an image: it succeeds if no replay is needed, or the device has the writes for
        it.  One that is cut short leaves files that load as they would have, unless it had to recover the header:
        with that written the hive file passes for one that needs no recovery, so that only what was in place
        already, or has been put there, is right. */
    method Load(hiveSize: Word, ghost image: seq<Block>) returns (result: Result)
      requires |image| <= 508 && (LoadsAs(Primary, LogFile, image) || ReplayFits(Primary, LogFile, hiveSize))
      modifies this`LogFile, this`Primary, this`AlternateFile, this`Budget
      ensures LogFile == old(LogFile)
      ensures old(LoadsAs(Primary, LogFile, image)) ==>
        && LoadsAs(Primary, LogFile, image) && result in {HiveSuccess, Fail}
        && (result == HiveSuccess ==> BlocksAre(Primary, image))
        && (result == HiveSuccess <==> old(Clean(Primary)) || (Log && ReplayCost(LogFile, image) <= old(Budget)))
      ensures Log && old(HeaderLost(Primary, LogFile, image)) ==>
        HeaderThenBlocks(old(Primary), Primary, LogFile, image, old(Budget), result == HiveSuccess)
    {
      hide *;
      ghost var primary, budget := Primary, Budget;
      FourKinds(Primary);
      LoadableKinds(Primary, LogFile, image, hiveSize);
      result := LoadFiles(hiveSize);
      if LoadsAs(primary, LogFile, image) {
        if !Clean(primary) { StaleLoads(primary, LogFile, image, budget, SelfHealing, hiveSize); }
      } else if HeaderLost(primary, LogFile, image) {
        DamagedLoads(primary, LogFile, image, budget, SelfHealing, hiveSize);
      }
    }

    /** The sound header's sequence numbers differ: the log is replayed, or else the header recovered. */
    method LoadData(header: seq<Word>, low: Word, high: Word, hiveSize: Word) returns (result: Result)
      requires Stale(Primary) && header == Read(Primary, 0, HSECTOR) && header[LENGTH] / 4096 <= 508 && (low, high) == TimeStamp(Primary)
      modifies this`LogFile, this`Primary, this`AlternateFile, this`Budget
      ensures LogFile == old(LogFile) && result in {HiveSuccess, SelfHeal, Fail}
      ensures Outcome(result, Primary, Budget) == DataOrHeader(old(Primary), LogFile, old(Budget), SelfHealing, hiveSize)
    {
      hide Stale, TimeStamp, DataOutcome, HeaderOutcome;
      result := RecoverDataFromLog(header);
      if result == Fail {
        var header';
        result, header' := RecoverHeaderFromLog(low, high, hiveSize);
      }
    }

    /** The header is recovered from the log, and then the data. */
    method LoadHeaderAndData(low: Word, high: Word, hiveSize: Word) returns (result: Result)
      requires Damaged(Primary) && ReplayFits(Primary, LogFile, hiveSize) && (low, high) == TimeStamp(Primary)
      modifies this`LogFile, this`Primary, this`AlternateFile, this`Budget
      ensures LogFile == old(LogFile) && result in {HiveSuccess, SelfHeal, Fail}
      ensures Outcome(result, Primary, Budget) == HeaderAndData(old(Primary), LogFile, old(Budget), SelfHealing, hiveSize)
    {
      hide Damaged, TimeStamp, DataOutcome, HeaderOutcome, VerifyHiveHeader, HeaderIs;
      var header;
      result, header := RecoverHeaderFromLog(low, high, hiveSize);
      if result == Fail {
        return;
      }
      var result2 := RecoverDataFromLog(header);
      result := if result2 == HiveSuccess then result else result2;
    }

    /** A flush that stops anywhere, and any number of loads that stop anywhere: a load that gets through finds
        the blocks of the whole image there was before the flush, or of the whole image it was to write, and
        the loads before it have not changed which. */
    method CrashAndLoad(ghost image: seq<Block>, syncBudget: nat, budgets: seq<nat>, hiveSize: Word)
      returns (result: Result, ghost found: seq<Block>)
      requires Valid() && Coherent(image) && Log && |Blocks| <= 508 && DirtyVector.SizeOfBitMap <= 508
      modifies this`BaseBlock, this`LogFile, this`Primary, this`AlternateFile, this`Budget, this`DirtyCount, DirtyVector.Buffer
      ensures found in {image, Blocks} && LoadsAs(Primary, LogFile, found)
      ensures budgets != [] && result == HiveSuccess ==> BlocksAre(Primary, found)
      ensures budgets != [] && ReplayCost(LogFile, found) <= budgets[|budgets| - 1] ==> result == HiveSuccess
    {
      hide LoadsAs, Clean, BlocksAre, ReplayCost, HeaderLost, ReplayFits, HeaderThenBlocks, Passes, Stale, Damaged, FirstBin, DataOrHeader, HeaderAndData;
      Budget := syncBudget;
      var success := SyncHive(image);
      found := if LoadsAs(Primary, LogFile, image) then image else Blocks;
      result := HiveSuccess;
      for i := 0 to |budgets|
        invariant LoadsAs(Primary, LogFile, found) && Log
        invariant i > 0 && result == HiveSuccess ==> BlocksAre(Primary, found)
        invariant i > 0 && ReplayCost(LogFile, found) <= budgets[i - 1] ==> result == HiveSuccess
      {
        Budget := budgets[i];
        result := Load(hiveSize, found);
      }
    }

    /** A flush that stops with its log complete, then damage to the header of the hive file, and a load.  Given
        enough writes it finds the memory image.  Given fewer it leaves a mixture, which from then on passes for
        sound: the memory image if the blocks it did not get to were in place, the old image if those it did
        get to had not changed. */
    method LoseHeaderAndLoad(ghost image: seq<Block>, sector: seq<Word>, loadBudget: nat)
      returns (logged: bool, result: Result)
      requires Valid() && Coherent(image) && Log && DirtyVector.SizeOfBitMap <= 508
      requires |sector| == HSECTOR && sector[SIGNATURE] != HV_HBLOCK_SIGNATURE
      modifies this`BaseBlock, this`LogFile, this`Primary, this`AlternateFile, this`Budget
      ensures Valid() && (logged <==> old(BaseBlock[SEQUENCE1] == BaseBlock[SEQUENCE2]) && Rank(DirtyVector.Bits(), |Blocks|) + 3 <= old(Budget))
      ensures logged ==> (result == HiveSuccess <==> 1 + Rank(DirtyVector.Bits(), |Blocks|) <= loadBudget)
      ensures logged && loadBudget > 0 ==> Mixed(old(Primary), Primary, LogFile, image, Blocks, DirtyVector.Bits(), loadBudget - 1)
    {
      hide *;
      ghost var primary, bits := Primary, DirtyVector.Bits();
      CoherentBlocks(image);
      result := Fail;
      ghost var damaged;
      logged, damaged := LoseHeader(image, sector);
      if !logged {
        return;
      }
      Budget := loadBudget;
      result := Load(0, Blocks);
      HeaderRecovered(primary, damaged, Primary, LogFile, image, Blocks, bits, loadBudget, result == HiveSuccess);
    }

    /** The log is written, and the header of the hive file is lost but for its time stamp. */
    method LoseHeader(ghost image: seq<Block>, sector: seq<Word>) returns (logged: bool, ghost damaged: seq<Word>)
      requires Valid() && Coherent(image) && DirtyVector.SizeOfBitMap <= 508
      requires |sector| == HSECTOR && sector[SIGNATURE] != HV_HBLOCK_SIGNATURE
      modifies this`BaseBlock, this`LogFile, this`Primary, this`AlternateFile, this`Budget
      ensures Valid() && (logged <==> old(BaseBlock[SEQUENCE1] == BaseBlock[SEQUENCE2]) && Rank(DirtyVector.Bits(), |Blocks|) + 3 <= old(Budget))
      ensures logged ==> |damaged| == HSECTOR && Primary == Files.Written(old(Primary), 0, damaged)
      ensures logged ==> HeaderLost(Primary, LogFile, Blocks) && ReplayFits(Primary, LogFile, 0)
      ensures logged ==> VectorReadable(LogFile) && Flags(LogFile, |Blocks|) == DirtyVector.Bits()[..|Blocks|]
    {
      ghost var primary, bits := Primary, DirtyVector.Bits();
      CoherentBlocks(image);
      NoProgress(Primary, Blocks, bits);
      hide *;
      logged := WriteLog();
      damaged := sector;
      if !logged {
        return;
      }
      var d := sector[TIMESTAMP := BaseBlock[TIMESTAMP]][TIMESTAMP + 1 := BaseBlock[TIMESTAMP + 1]];
      NoSignature(sector, BaseBlock[TIMESTAMP], BaseBlock[TIMESTAMP + 1]);
      Primary := Files.Written(Primary, 0, d);
      damaged := d;
      StoppedFlushLosesHeader(primary, primary, LogFile, image, Blocks, bits, 0, d);
      LostFits(Primary, LogFile, Blocks);
    }

    /** The loop of the replay, with the dirty vector read. */
    method ReplayBlocks(vector: seq<Word>, header: seq<Word>) returns (result: Result)
      requires |header| == HSECTOR && header[LENGTH] / 4096 <= 508
      requires VectorReadable(LogFile) && vector == Read(LogFile, VECTOR, HSECTOR)
      modifies this`LogFile, this`Primary, this`AlternateFile, this`Budget
      ensures LogFile == old(LogFile)
      ensures var stop := StopAt(LogFile, header[LENGTH] / 4096, old(Budget));
        && result == (if stop == header[LENGTH] / 4096 then HiveSuccess else Fail)
        && Primary == Copied(old(Primary), LogFile, stop) && old(Budget) == Budget + LoggedBefore(LogFile, stop)
    {
      var logIndex := 0;
      var storageLength := header[LENGTH] / 4096;
      ghost var primary, budget := Primary, Budget;
      NothingReplayed(Primary, LogFile, Budget);
      hide *;
      for blockIndex := 0 to storageLength
        invariant LogFile == old(LogFile) && VectorReadable(LogFile)
        invariant ReplayedTo(primary, Primary, LogFile, budget, Budget, blockIndex, logIndex)
      {
        FlagByte(LogFile, vector, blockIndex);
        if ByteAt(vector, blockIndex + 4) != 0xFF {
          OneSkipped(primary, Primary, LogFile, budget, Budget, blockIndex, logIndex);
          continue;
        }
        OneReplayed(primary, Primary, LogFile, budget, Budget, blockIndex, logIndex, storageLength);
        var success := CopyBlock(blockIndex, logIndex);
        if !success {
          return Fail;
        }
        logIndex := logIndex + 1;
      }
      AllReplayed(primary, Primary, LogFile, budget, Budget, storageLength, logIndex);
      return HiveSuccess;
    }

    /** One logged block to its place in the hive file. */
    method CopyBlock(blockIndex: nat, logIndex: nat) returns (success: bool)
      modifies this`LogFile, this`Primary, this`AlternateFile, this`Budget
      ensures LogFile == old(LogFile) && (success <==> Holds(LogFile, REPLAY_BASE + 1024 * logIndex, 1024) && old(Budget) > 0)
      ensures Budget == old(Budget) - if success then 1 else 0
      ensures Primary == if success then Files.Written(old(Primary), BlockAt(blockIndex), Read(LogFile, REPLAY_BASE + 1024 * logIndex, 1024)) else old(Primary)
    {
      hide Files.Written, Holds;
      var buffer;
      success, buffer := FileRead(LogFile, REPLAY_BASE + 1024 * logIndex, HBLOCK);
      if !success {
        return;
      }
      success := FileWrite(HFILE_TYPE_PRIMARY, BlockAt(blockIndex), buffer);
    }
  }

  /** After some operations of a run: what has been spent, what is dirty, and that every flush could be afforded. */
  ghost predicate SpentSoFar(log: bool, alternate: bool, agree: bool, budget: nat, dirty: seq<bool>, ops: seq<Op>, executed: nat,
                             left: nat, now: seq<bool>)
  {
    && executed <= |ops| && budget == left + Spent(log, alternate, dirty, ops, executed) && now == DirtyAt(dirty, ops, executed)
    && (forall j :: 0 <= j < executed && ops[j].Flush? ==> Affords(log, alternate, agree, budget, dirty, ops, j))
  }

  /** What one more operation does to it. */
  lemma OneMoreSpent(log: bool, alternate: bool, agree: bool, budget: nat, dirty: seq<bool>, ops: seq<Op>, i: nat,
                     left: nat, now: seq<bool>, left': nat, now': seq<bool>)
    requires SpentSoFar(log, alternate, agree, budget, dirty, ops, i, left, now) && i < |ops| && now' == DirtyAfter(now, ops[i])
    requires left == left' + if ops[i].Flush? then FlushCost(log, alternate, Rank(now, |now|)) else 0
    requires ops[i].Flush? ==> Rank(now, |now|) == 0 || (agree && FlushCost(log, alternate, Rank(now, |now|)) < left)
    ensures SpentSoFar(log, alternate, agree, budget, dirty, ops, i + 1, left', now')
  {
    hide FlushCost, DirtyAfter, Rank;
  }

  lemma CannotAfford(log: bool, alternate: bool, agree: bool, budget: nat, dirty: seq<bool>, ops: seq<Op>, i: nat, left: nat, now: seq<bool>)
    requires SpentSoFar(log, alternate, agree, budget, dirty, ops, i, left, now)
    requires i < |ops| ==> !(Rank(now, |now|) == 0 || (agree && FlushCost(log, alternate, Rank(now, |now|)) < left))
    ensures StopsForWrites(log, alternate, agree, budget, dirty, ops, i)
  {
    hide FlushCost, DirtyAfter, Rank, DirtyAt, Spent;
  }

  lemma MarkedPrefix(bits: seq<bool>, n: nat, b: nat)
    requires b < n <= |bits|
    ensures bits[b := true][..n] == bits[..n][b := true]
  {
  }

  lemma GrownPrefix(bits: seq<bool>, n: nat, more: nat, size: nat)
    requires n <= |bits| <= size && n + more <= size
    ensures Filled(Extended(bits, size), n, more, true)[..n + more] == bits[..n] + seq(more, i => true)
  {
  }

  lemma ClearPrefix(bits: seq<bool>, before: seq<bool>, n: nat)
    requires n <= |bits| && n <= |before| && forall b :: 0 <= b < |bits| ==> !bits[b]
    ensures bits[..n] == seq(|before[..n]|, i => false)
  {
  }

  lemma KeptSequences(before: BaseBlock, after: BaseBlock)
    requires SameHeaderButLength(before, after)
    ensures after[SEQUENCE1] == before[SEQUENCE1] && after[SEQUENCE2] == before[SEQUENCE2]
  {
  }

  /** Some operations have been executed: what the hive file holds is the image of a flush, and there is no flush
      after it. */
  ghost predicate Ran(start: seq<Block>, blocks: seq<Block>, ops: seq<Op>, executed: nat, kept: nat, image: seq<Block>, memory: seq<Block>)
  {
    && executed <= |ops| && kept <= executed && image == FlushedAt(start, blocks, ops, kept) && (kept > 0 ==> ops[kept - 1].Flush?)
    && (forall j :: kept <= j < executed ==> !ops[j].Flush?) && memory == MemoryAfter(blocks, ops[..executed])
  }

  lemma RunStart(start: seq<Block>, blocks: seq<Block>, ops: seq<Op>)
    ensures Ran(start, blocks, ops, 0, 0, start, blocks) && ops[0..] == ops
  {
  }

  lemma NothingSpent(log: bool, alternate: bool, agree: bool, budget: nat, dirty: seq<bool>, ops: seq<Op>)
    ensures SpentSoFar(log, alternate, agree, budget, dirty, ops, 0, budget, dirty)
  {
  }

  lemma OneMoreOp(ops: seq<Op>, i: nat)
    requires i < |ops|
    ensures Growth(ops[i..]) == Growth([ops[i]]) + Growth(ops[i + 1..])
  {
    assert ops[i..][1..] == ops[i + 1..];
  }

  lemma OneMoreRan(start: seq<Block>, blocks: seq<Block>, ops: seq<Op>, i: nat, kept: nat, image: seq<Block>, memory: seq<Block>,
                   image': seq<Block>, memory': seq<Block>)
    requires Ran(start, blocks, ops, i, kept, image, memory) && i < |ops| && memory' == Applied(memory, ops[i])
    requires image' == if ops[i].Flush? then memory' else image
    ensures Ran(start, blocks, ops, i + 1, if ops[i].Flush? then i + 1 else kept, image', memory')
  {
    assert ops[..i + 1][..i] == ops[..i];
  }

  /** The flush that stops a run has left the image before it or the one it was to write. */
  lemma RanUntil(start: seq<Block>, blocks: seq<Block>, ops: seq<Op>, i: nat, kept: nat, image: seq<Block>, memory: seq<Block>,
                 image': seq<Block>)
    requires Ran(start, blocks, ops, i, kept, image, memory) && i < |ops| && ops[i].Flush? && image' in {image, memory}
    ensures var k := if image' == memory then i + 1 else kept;
      && k <= i + 1 && k <= |ops| && image' == FlushedAt(start, blocks, ops, k) && (k > 0 ==> ops[k - 1].Flush?)
      && (forall j :: k <= j < i ==> !ops[j].Flush?) && memory == MemoryAfter(blocks, ops[..i])
  {
  }

  lemma RanAll(start: seq<Block>, blocks: seq<Block>, ops: seq<Op>, kept: nat, image: seq<Block>, memory: seq<Block>)
    requires Ran(start, blocks, ops, |ops|, kept, image, memory)
    ensures kept <= |ops| && image == FlushedAt(start, blocks, ops, kept) && (kept > 0 ==> ops[kept - 1].Flush?)
    ensures (forall j :: kept <= j < |ops| ==> !ops[j].Flush?) && memory == MemoryAfter(blocks, ops[..|ops|])
  {
  }

  /** The header words adding a bin keeps. */
  ghost predicate SameHeaderButLength(before: BaseBlock, after: BaseBlock)
  {
    |after| == |before| && forall i :: 0 <= i < |before| && i != LENGTH ==> after[i] == before[i]
  }

  /** The bits of a dirty vector made larger: the new ones are clear. */
  ghost function Extended(bits: seq<bool>, size: nat): (r: seq<bool>)
    requires |bits| <= size
    ensures |r| == size
    ensures forall b :: 0 <= b < size ==> r[b] == (b < |bits| && bits[b])
  {
    bits + seq(size - |bits|, b => false)
  }

  lemma GrownBits(before: seq<Word>, after: seq<Word>, size: nat)
    requires size % 32 == 0 && size / 32 <= |before| && size / 32 <= |after|
    requires after[..size / 32] == before[..size / 32]
    requires forall j :: size / 32 <= j < |after| ==> after[j] == 0
    ensures forall i: nat :: i < |after| * 32 ==> On(after, i) == (i < size && On(before, i))
  {
    ZeroHasNoBits();
    hide Bit;
    forall i: nat | i < |after| * 32 ensures On(after, i) == (i < size && On(before, i)) {
      if i < size { assert after[i / 32] == after[..size / 32][i / 32] == before[..size / 32][i / 32]; }
    }
  }

  /** A finished write of every block does not depend on the file it was written over. */
  lemma WholeHiveLoads(before: File, after: File, log: File, blocks: seq<Block>, chosen: seq<bool>)
    requires Stage(before, after, blocks, chosen, |blocks|) && Clean(after)
    requires |blocks| <= |chosen| && forall b :: 0 <= b < |blocks| ==> chosen[b]
    ensures LoadsAs(after, log, blocks)
    ensures VerifyHiveHeader(Read(after, 0, HSECTOR), HFILE_TYPE_PRIMARY)
  {
    hide Contains, Checksum;
  }

  lemma NothingDirty(bits: seq<bool>, image: seq<Block>, blocks: seq<Block>)
    requires |image| <= |blocks| <= |bits| < MAXINDEX
    requires Tracked(bits, image, blocks)
    requires 0 < |bits| ==> FirstRun(bits, 1, 0, MAXINDEX)
    ensures image == blocks && forall b :: 0 <= b < |bits| ==> !bits[b]
  {
    var beyond := |image| < |blocks| && !bits[|image|];
    if |bits| > 0 { FirstBit(bits, 0, MAXINDEX); }
    assert forall b :: 0 <= b < |bits| ==> !bits[b];
    assert !beyond;
  }

  lemma CleanLoads(primary: File, log: File, other: File, image: seq<Block>)
    requires Clean(primary) && LoadsAs(primary, log, image)
    ensures LoadsAs(primary, other, image)
  {
  }

  /** Every stage of a flush loads: unfinished ones through the log, the finished one by itself. */
  lemma StageLoads(before: File, after: File, log: File, image: seq<Block>, blocks: seq<Block>, bits: seq<bool>,
                   done: nat)
    requires Clean(before) && LoadsAs(before, log, image)
    requires |blocks| <= |bits|
    requires Tracked(bits, image, blocks)
    ensures Stage(before, after, blocks, bits, done) && (Clean(after) || (|bits| <= 508 && LogHolds(log, bits, blocks))) ==>
              LoadsAs(after, log, blocks)
  {
    hide Progress, LogHolds;
    if Stage(before, after, blocks, bits, done) {
      if Clean(after) {
        FinishedFlushHolds(before, after, image, blocks, bits);
      } else if |bits| <= 508 && LogHolds(log, bits, blocks) {
        StoppedFlushReplays(before, after, log, image, blocks, bits, done);
      }
    }
  }

  /** A header that is sound on disk whatever its sequence numbers. */
  ghost predicate Sealable(h: BaseBlock)
  {
    WellFormed(h) && h[TYPE] == HFILE_TYPE_PRIMARY && h[CHECKSUM] == Checksum(h)
  }

  /** A hive file on which a flush has begun: its header is the flush's, unequal sequence numbers mean that
      blocks may be missing, and equal ones that none is. */
  ghost predicate Stage(before: File, after: File, blocks: seq<Block>, chosen: seq<bool>, done: nat)
  {
    && Holds(after, 0, HSECTOR)
    && SoundExceptSequences(Read(after, 0, HSECTOR), HFILE_TYPE_PRIMARY)
    && Read(after, 0, HSECTOR)[LENGTH] / 4096 == |blocks|
    && Progress(before, after, blocks, chosen, done)
    && (Clean(after) ==> done == |blocks|)
  }

  lemma SameHeaderTwice(before: BaseBlock, between: BaseBlock, after: BaseBlock)
    requires SameHeader(before, between) && SameHeader(between, after)
    ensures SameHeader(before, after)
  {
  }

  lemma StageDone(before: File, after: File, blocks: seq<Block>, chosen: seq<bool>, done: nat)
    requires Stage(before, after, blocks, chosen, done) && Clean(after)
    ensures Progress(before, after, blocks, chosen, |blocks|)
  {
  }

  /** Where nothing is dirty everything has been written. */
  lemma NothingWritten(f: File, blocks: seq<Block>, bits: seq<bool>)
    requires forall b :: 0 <= b < |bits| ==> !bits[b]
    ensures Progress(f, f, blocks, bits, |blocks|)
  {
    NoProgress(f, blocks, bits);
    NoMore(f, f, blocks, bits, 0);
  }

  lemma SomeDirty(bits: seq<bool>, n: nat, p: nat)
    requires n <= |bits| < MAXINDEX && p != MAXINDEX && (0 < |bits| ==> FirstRun(bits, 1, 0, p)) && (|bits| == 0 ==> p == MAXINDEX)
    requires forall b :: n <= b < |bits| ==> !bits[b]
    ensures Rank(bits, n) > 0
  {
    FirstBit(bits, 0, p);
    RankStep(bits, p);
    RankOrder(bits, p, n);
  }

  lemma StageReached(before: File, after: File, h: BaseBlock, blocks: seq<Block>, chosen: seq<bool>, done: nat)
    requires Sealable(h)
    requires h[LENGTH] == |blocks| * 4096
    requires Contains(after, 0, h) && Progress(before, after, blocks, chosen, done)
    requires h[SEQUENCE1] == h[SEQUENCE2] ==> done == |blocks|
    ensures Stage(before, after, blocks, chosen, done)
    ensures Clean(after) <==> h[SEQUENCE1] == h[SEQUENCE2]
  {
    assert Read(after, 0, HSECTOR) == Read(after, 0, |h|)[..HSECTOR];
    FirstSectorDecides(h, HFILE_TYPE_PRIMARY);
  }

  // ----- the log as it grows

  lemma FirstBit(bits: seq<bool>, hint: nat, p: nat)
    requires hint < |bits| < MAXINDEX && FirstRun(bits, 1, hint, p)
    ensures p != MAXINDEX && hint <= p ==> p < |bits| && bits[p] && forall b :: hint <= b < p ==> !bits[b]
    ensures p == MAXINDEX || p < hint ==> forall b :: hint <= b < |bits| ==> !bits[b]
  {
    forall q: nat ensures RunAt(bits, q, 1) <==> q < |bits| && bits[q] {
    }
  }

  ghost predicate LoggedBelow(log: File, bits: seq<bool>, blocks: seq<Block>, n: nat)
  {
    forall b :: 0 <= b < n && b < |blocks| && b < |bits| && bits[b] ==>
      Contains(log, LogBase(|bits|) + 1024 * Rank(bits, b), blocks[b])
  }

  lemma NothingLogged(log: File, bits: seq<bool>, blocks: seq<Block>)
    ensures LoggedBelow(log, bits, blocks, 0) && Rank(bits, 0) == 0
  {
  }

  lemma ByteBehind(word: Word, packed: seq<Word>, sector: seq<Word>, b: nat)
    requires b / 4 < |packed| && (b + 4) / 4 < |sector| <= 1 + |packed| && sector == ([word] + packed)[..|sector|]
    ensures ByteAt(sector, b + 4) == ByteAt(packed, b)
  {
    assert (b + 4) / 4 == b / 4 + 1 && (b + 4) % 4 == b % 4;
    hide ByteOf;
  }

  lemma VectorFits(size: nat)
    ensures VectorSize(size) - 4 >= size && VectorSize(size) >= 512 && (VectorSize(size) - 4) % 4 == 0
    ensures size > 508 ==> VectorSize(size) >= 1024
  {
    assert VectorSize(size) == 4 * ((4 + size + 511) / 512 * 128);
  }

  lemma SectorWritten(before: File, header: seq<Word>, packed: seq<Word>)
    requires |header| == HSECTOR && |packed| >= 127
    ensures var log := Files.Written(before, 0, header + [HV_LOG_DIRTY_SIGNATURE] + packed);
            && VectorReadable(log) && Read(log, VECTOR, HSECTOR) == ([HV_LOG_DIRTY_SIGNATURE] + packed)[..HSECTOR]
            && (|packed| > 127 ==> REPLAY_BASE in log && log[REPLAY_BASE] == packed[127])
  {
  }

  /** The flags of four clear blocks make a word of zeros. */
  lemma ClearFlags(bytes: seq<Byte>, bits: seq<bool>)
    requires |bits| > 508 && Uniform(bits, 508, if |bits| < 512 then |bits| else 512, false)
    requires |bytes| == VectorSize(|bits|) - 4 && |bytes| % 4 == 0
    requires forall b :: 0 <= b < |bytes| ==> bytes[b] == if b < |bits| && bits[b] then 0xFF else 0
    ensures |Pack(bytes)| > 127 && Pack(bytes)[127] == 0
  {
    VectorFits(|bits|);
    hide VectorSize;
    assert Pack(bytes)[127] == PackWord(bytes[508], bytes[509], bytes[510], bytes[511]);
  }

  lemma HeaderWritten(before: File, header: seq<Word>, bytes: seq<Byte>, bits: seq<bool>)
    requires |header| == HSECTOR && |bytes| == VectorSize(|bits|) - 4
    requires forall b :: 0 <= b < |bytes| ==> bytes[b] == if b < |bits| && bits[b] then 0xFF else 0
    ensures |bytes| % 4 == 0 && VectorHolds(Files.Written(before, 0, header + [HV_LOG_DIRTY_SIGNATURE] + Pack(bytes)), bits)
  {
    VectorFits(|bits|);
    var packed := Pack(bytes);
    var clear := |bits| > 508 && Uniform(bits, 508, if |bits| < 512 then |bits| else 512, false);
    if clear { ClearFlags(bytes, bits); }
    hide VectorSize, Pack, Files.Written, ByteAt, Holds, Read, Uniform;
    var log := Files.Written(before, 0, header + [HV_LOG_DIRTY_SIGNATURE] + packed);
    SectorWritten(before, header, packed);
    var sector := Read(log, VECTOR, HSECTOR);
    forall b | 0 <= b < |bits| && b < 508 ensures Flag(log, b) == bits[b] {
      PackedByte(bytes, b);
      ByteBehind(HV_LOG_DIRTY_SIGNATURE, packed, sector, b);
    }
  }

  lemma VectorKept(before: File, at: nat, data: seq<Word>, bits: seq<bool>)
    requires VectorHolds(before, bits)
    requires at + |data| <= VECTOR || LogBase(|bits|) <= at
    ensures VectorHolds(Files.Written(before, at, data), bits)
  {
    LayoutsAgree(|bits|);
    assert Read(Files.Written(before, at, data), VECTOR, HSECTOR) == Read(before, VECTOR, HSECTOR);
  }

  lemma OneMoreLogged(before: File, bits: seq<bool>, blocks: seq<Block>, from: nat, b: nat)
    requires from <= b < |blocks| && b < |bits| && bits[b]
    requires forall c :: from <= c < b ==> !bits[c]
    requires VectorHolds(before, bits) && LoggedBelow(before, bits, blocks, from)
    ensures Rank(bits, from) == Rank(bits, b) && Rank(bits, b + 1) == Rank(bits, b) + 1
    ensures var after := Files.Written(before, LogBase(|bits|) + 1024 * Rank(bits, b), blocks[b]);
            VectorHolds(after, bits) && LoggedBelow(after, bits, blocks, b + 1)
  {
    RankSkips(bits, from, b);
    RankStep(bits, b);
    hide Files.Written, VectorHolds, LogBase, Rank, LoggedBelow;
    VectorKept(before, LogBase(|bits|) + 1024 * Rank(bits, b), blocks[b], bits);
    AllLoggedBelow(before, bits, blocks, from, b);
  }

  lemma AllLoggedBelow(before: File, bits: seq<bool>, blocks: seq<Block>, from: nat, b: nat)
    requires from <= b < |blocks| && b < |bits| && bits[b]
    requires forall c :: from <= c < b ==> !bits[c]
    requires LoggedBelow(before, bits, blocks, from)
    ensures LoggedBelow(Files.Written(before, LogBase(|bits|) + 1024 * Rank(bits, b), blocks[b]), bits, blocks, b + 1)
  {
    hide Contains, Files.Written, LogBase, Rank;
    forall c | 0 <= c < b + 1 && bits[c]
      ensures Contains(Files.Written(before, LogBase(|bits|) + 1024 * Rank(bits, b), blocks[b]),
                       LogBase(|bits|) + 1024 * Rank(bits, c), blocks[c])
    {
      OneLogged(before, bits, blocks, b, c);
    }
  }

  lemma OneLogged(before: File, bits: seq<bool>, blocks: seq<Block>, b: nat, c: nat)
    requires c <= b < |blocks| && b < |bits| && bits[c]
    requires c < b ==> Contains(before, LogBase(|bits|) + 1024 * Rank(bits, c), blocks[c])
    ensures Contains(Files.Written(before, LogBase(|bits|) + 1024 * Rank(bits, b), blocks[b]),
                     LogBase(|bits|) + 1024 * Rank(bits, c), blocks[c])
  {
    hide Contains, Files.Written, LogBase, Rank;
    var base := LogBase(|bits|);
    if c < b {
      RankOrder(bits, c, b);
      WrittenElsewhere(before, base + 1024 * Rank(bits, b), blocks[b], base + 1024 * Rank(bits, c), blocks[c]);
    } else {
      WrittenContains(before, base + 1024 * Rank(bits, b), blocks[b]);
    }
  }

  lemma AllLogged(log: File, bits: seq<bool>, blocks: seq<Block>, from: nat)
    requires |blocks| <= |bits| && VectorHolds(log, bits) && LoggedBelow(log, bits, blocks, from)
    requires forall c :: from <= c < |blocks| ==> !bits[c]
    ensures LogHolds(log, bits, blocks)
  {
  }

  lemma LogHeaderAgain(before: File, header: seq<Word>, bits: seq<bool>, blocks: seq<Block>)
    requires |header| == HSECTOR && |blocks| <= |bits| && LogHolds(before, bits, blocks)
    ensures LogHolds(Files.Written(before, 0, header), bits, blocks)
  {
    VectorKept(before, 0, header, bits);
    hide Contains;
    forall b | 0 <= b < |blocks| && bits[b]
      ensures Contains(Files.Written(before, 0, header), LogBase(|bits|) + 1024 * Rank(bits, b), blocks[b])
    {
      WrittenElsewhere(before, 0, header, LogBase(|bits|) + 1024 * Rank(bits, b), blocks[b]);
    }
  }

  // ----- from a new hive on

  /** A new hive with a log, with its first bins, saved. */
  method NewHive(blocks: seq<Block>, budget: nat) returns (h: Hive, saved: bool)
    requires |blocks| <= 508
    ensures fresh(h) && fresh(h.DirtyVector) && fresh(h.DirtyVector.Buffer)
    ensures h.Valid() && h.Blocks == blocks && h.Log && !h.Volatile && h.DirtyVector.SizeOfBitMap < |blocks| + 32
    ensures forall b :: 0 <= b < |blocks| ==> h.DirtyVector.Bits()[b]
    ensures (saved <==> |blocks| + 3 <= budget)
    ensures saved ==> h.Coherent(blocks) && h.BaseBlock[SEQUENCE1] == h.BaseBlock[SEQUENCE2] && budget == h.Budget + |blocks| + 2
    ensures !h.Alternate
  {
    hide LoadsAs, Clean, WellFormed, On, BitsOf;
    h := new Hive.Create(true, false, budget);
    h.AddBin(blocks, []);
    assert h.Blocks == blocks;
    saved := h.WriteWholeHive();
  }

  /** The bound of 480 blocks is exact: for every size from 481 blocks on, as far as a replay takes blocks at
      all, there is a run of a new hive (bins added, saved, one block changed, a flush cut short) after which
      the files load neither as the image saved nor as the one in memory. */
  method LargeHiveLoses(n: nat) returns (h: Hive, ghost image: seq<Block>)
    requires 480 < n <= 508
    ensures fresh(h) && h.Valid() && h.Log && |h.Blocks| == |image| == n
    ensures !LoadsAs(h.Primary, h.LogFile, image) && !LoadsAs(h.Primary, h.LogFile, h.Blocks)
  {
    hide LoadsAs, Clean, Rank, WellFormed, Files.Written;
    var success;
    h, success := NewHive(seq(n, i => Uniformly(1)), n + 3);
    image := h.Blocks;
    h.UpdateBlock(0, Uniformly(2), image);
    h.Budget := n + 3;
    RankAll(h.DirtyVector.Bits(), n);
    success := h.SyncLoses(image, 0);
  }

  /** The recovery of a header, unlike a replay, must not be cut short: a new hive of two blocks, saved, both
      blocks changed, the log written, the header lost, and a load that the device lets write the header and one
      block.  The files load neither as what was saved nor as what was logged, and say they need no recovery. */
  method HeaderRecoveryLoses() returns (h: Hive, result: Result, ghost image: seq<Block>)
    ensures fresh(h) && h.Valid() && |h.Blocks| == |image| == 2 && result != HiveSuccess && PassesFor(h.Primary, 2)
    ensures !LoadsAs(h.Primary, h.LogFile, image) && !LoadsAs(h.Primary, h.LogFile, h.Blocks)
  {
    hide LoadsAs, Clean, Rank, WellFormed, Files.Written, PassesFor, On;
    var success;
    h, success := NewHive([Uniformly(1), Uniformly(1)], 5);
    image := h.Blocks;
    h.UpdateBlock(0, Uniformly(2), image);
    h.UpdateBlock(1, Uniformly(2), image);
    h.Budget := 5;
    RankAll(h.DirtyVector.Bits(), 0);
    RankAll(h.DirtyVector.Bits(), 1);
    RankAll(h.DirtyVector.Bits(), 2);
    assert Uniformly(1)[0] != Uniformly(2)[0];
    h.CoherentBlocks(image);
    OneContent(h.Primary, BlockAt(1), Uniformly(1), Uniformly(2));
    hide Contains, Uniformly;
    success, result := h.LoseHeaderAndLoad(image, seq(HSECTOR, i => 0), 2);
  }

  /** A whole run that starts with a new hive: its first bins, the first save, and then changes and flushes. */
  method RunFromNew(blocks: seq<Block>, budget: nat, ops: seq<Op>)
    returns (h: Hive, saved: bool, executed: nat, ghost kept: nat, ghost image: seq<Block>)
    requires |blocks| + Growth(ops) <= 480
    ensures fresh(h) && h.Valid() && (saved <==> |blocks| + 3 <= budget)
    ensures executed <= |ops| && kept <= executed + 1 && kept <= |ops|
    ensures saved ==>
      && LoadsAs(h.Primary, h.LogFile, image) && image == FlushedAt(blocks, blocks, ops, kept)
      && (executed < |ops| ==> ops[executed].Flush?) && (kept > 0 ==> ops[kept - 1].Flush?)
      && (forall j :: kept <= j < executed ==> !ops[j].Flush?)
      && h.Blocks == MemoryAfter(blocks, ops[..executed])
      && StopsForWrites(true, false, true, budget - |blocks| - 2, seq(|blocks|, i => true), ops, executed)
  {
    hide LoadsAs, Clean, Growth, FlushedAt, MemoryAfter, WellFormed, StopsForWrites, On, BitsOf;
    h, saved := NewHive(blocks, budget);
    executed, kept, image := 0, 0, blocks;
    if saved {
      assert h.DirtyVector.Bits()[..|blocks|] == seq(|blocks|, i => true);
      executed, kept, image := h.Run(ops, blocks);
    }
  }
}
