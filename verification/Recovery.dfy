/** What a load makes of the files of a hive: the replay of a log, cut short or not, and the recovery of a header
    that is lost. */
module Recovery {
  import opened Words
  import opened Files
  import opened Header
  import opened Bitmaps
  import opened Flush
  import Cells

  // ----- ranks

  lemma RankStart(bits: seq<bool>)
    ensures Rank(bits, 0) == 0
  {
  }

  lemma RankStep(bits: seq<bool>, i: nat)
    requires i < |bits|
    ensures Rank(bits, i + 1) == Rank(bits, i) + if bits[i] then 1 else 0
  {
  }

  lemma {:induction false} RankAll(bits: seq<bool>, n: nat)
    requires n <= |bits| && forall b :: 0 <= b < n ==> bits[b]
    ensures Rank(bits, n) == n
  {
    if n > 0 { RankAll(bits, n - 1); }
  }

  lemma {:induction false} RankSkips(bits: seq<bool>, from: nat, b: nat)
    requires from <= b <= |bits| && forall c :: from <= c < b ==> !bits[c]
    ensures Rank(bits, from) == Rank(bits, b)
  {
    if from < b { RankSkips(bits, from, b - 1); }
  }

  lemma AllRanked(bits: seq<bool>, from: nat, n: nat)
    requires n <= |bits| && from <= |bits| && (forall c :: from <= c < n ==> !bits[c]) && (forall c :: n <= c < from ==> !bits[c])
    ensures Rank(bits, from) == Rank(bits, n)
  {
    if from <= n { RankSkips(bits, from, n); } else { RankSkips(bits, n, from); }
  }

  // ----- loading

  function Uniformly(w: Word): Block { seq(HBLOCK, i => w) }

  /** A first bin with the right signature, at offset 0. */
  predicate FirstBin(primary: File)
  {
    Holds(primary, HBLOCK, HSECTOR) && primary[HBLOCK] == Cells.HV_HBIN_SIGNATURE && primary[HBLOCK + 1] == 0
  }

  /** The writes it takes to replay a log. */
  ghost function ReplayCost(log: File, image: seq<Block>): nat
  {
    if VectorReadable(log) && |image| <= 508 then Rank(Flags(log, |image|), |image|) else 0
  }

  // ----- the replay

  /** The logged blocks before block b. */
  function LoggedBefore(log: File, b: nat): nat
    requires Holds(log, VECTOR, HSECTOR) && b <= 508
  {
    Rank(Flags(log, b), b)
  }

  /** Where the log has block b. */
  function LoggedAt(log: File, b: nat): nat
    requires Holds(log, VECTOR, HSECTOR) && b <= 508
  {
    REPLAY_BASE + 1024 * LoggedBefore(log, b)
  }

  /** A replay cannot get past block b: it is flagged, and not in the log, or the device takes no more writes. */
  predicate Blocked(log: File, b: nat, budget: nat)
    requires Holds(log, VECTOR, HSECTOR) && b < 508
  {
    Flag(log, b) && (!Holds(log, LoggedAt(log, b), 1024) || LoggedBefore(log, b) >= budget)
  }

  /** The first block of n that a replay cannot get past, or n. */
  function StopAt(log: File, n: nat, budget: nat): (stop: nat)
    requires Holds(log, VECTOR, HSECTOR) && n <= 508
    ensures stop <= n && (forall b :: 0 <= b < stop ==> !Blocked(log, b, budget)) && (stop < n ==> Blocked(log, stop, budget))
  {
    if n == 0 then 0
    else
      var stop := StopAt(log, n - 1, budget);
      if stop < n - 1 || Blocked(log, n - 1, budget) then stop else n
  }

  /** The hive file with the logged ones of the first n blocks copied into it. */
  ghost function Copied(primary: File, log: File, n: nat): File
    requires Holds(log, VECTOR, HSECTOR) && n <= 508
  {
    if n == 0 then primary
    else
      var before := Copied(primary, log, n - 1);
      if Flag(log, n - 1) && Holds(log, LoggedAt(log, n - 1), 1024)
      then Files.Written(before, BlockAt(n - 1), Read(log, LoggedAt(log, n - 1), 1024)) else before
  }

  /** Each of the n blocks that is flagged is the log's, and nothing else is different. */
  lemma {:induction false} CopiedBlock(primary: File, log: File, n: nat, b: nat)
    requires Holds(log, VECTOR, HSECTOR) && n <= 508 && b < 508
    ensures if b < n && Flag(log, b) && Holds(log, LoggedAt(log, b), 1024)
      then Contains(Copied(primary, log, n), BlockAt(b), Read(log, LoggedAt(log, b), 1024)) else BlockKept(primary, Copied(primary, log, n), b)
  {
    hide Flag, Holds, Contains, LoggedAt, Read, Files.Written;
    if n == 0 {
      SameBlocks(primary, b);
    } else {
      CopiedBlock(primary, log, n - 1, b);
      if Flag(log, n - 1) && Holds(log, LoggedAt(log, n - 1), 1024) {
        var before, data := Copied(primary, log, n - 1), Read(log, LoggedAt(log, n - 1), 1024);
        if b == n - 1 {
          WrittenContains(before, BlockAt(b), data);
        } else if b < n && Flag(log, b) && Holds(log, LoggedAt(log, b), 1024) {
          WrittenElsewhere(before, BlockAt(n - 1), data, BlockAt(b), Read(log, LoggedAt(log, b), 1024));
        } else {
          KeptElsewhere(primary, before, BlockAt(n - 1), data, b);
        }
      }
    }
  }

  lemma SameBlocks(primary: File, b: nat)
    ensures BlockKept(primary, primary, b)
  {
  }

  lemma {:induction false} CopiedHeader(primary: File, log: File, n: nat, header: seq<Word>)
    requires Holds(log, VECTOR, HSECTOR) && n <= 508 && |header| == HSECTOR && HeaderIs(primary, header)
    ensures HeaderIs(Copied(primary, log, n), header)
  {
    hide HeaderIs, Files.Written, Flag, LoggedAt, Holds, Read;
    if n > 0 {
      CopiedHeader(primary, log, n - 1, header);
      if Flag(log, n - 1) && Holds(log, LoggedAt(log, n - 1), 1024) {
        HeaderStays(Copied(primary, log, n - 1), header, BlockAt(n - 1), Read(log, LoggedAt(log, n - 1), 1024));
      }
    }
  }

  lemma RankOfFlags(log: File, n: nat, b: nat)
    requires Holds(log, VECTOR, HSECTOR) && b <= n <= 508
    ensures Rank(Flags(log, n), b) == LoggedBefore(log, b)
  {
    hide Flag, Holds;
    assert Flags(log, n)[..b] == Flags(log, b);
    RankPrefix(Flags(log, n), b, b);
  }

  lemma LoggedNext(log: File, b: nat)
    requires Holds(log, VECTOR, HSECTOR) && b < 508
    ensures LoggedBefore(log, b + 1) == LoggedBefore(log, b) + if Flag(log, b) then 1 else 0
  {
    RankOfFlags(log, b + 1, b);
    RankStep(Flags(log, b + 1), b);
    hide Holds, Flag, Rank;
    assert Flags(log, b + 1)[b] == Flag(log, b);
  }

  lemma StopsThere(log: File, n: nat, budget: nat, i: nat)
    requires Holds(log, VECTOR, HSECTOR) && i <= n <= 508 && forall b :: 0 <= b < i ==> !Blocked(log, b, budget)
    requires i < n ==> Blocked(log, i, budget)
    ensures StopAt(log, n, budget) == i
  {
  }

  /** A replay that has got to block i, after k logged blocks. */
  ghost predicate ReplayedTo(before: File, after: File, log: File, budget: nat, left: nat, i: nat, k: nat)
    requires Holds(log, VECTOR, HSECTOR) && i <= 508
  {
    && after == Copied(before, log, i) && k == LoggedBefore(log, i) && budget == left + k
    && forall b :: 0 <= b < i ==> !Blocked(log, b, budget)
  }

  lemma NothingReplayed(primary: File, log: File, budget: nat)
    requires VectorReadable(log)
    ensures ReplayedTo(primary, primary, log, budget, budget, 0, 0)
  {
  }

  lemma FlagByte(log: File, vector: seq<Word>, b: nat)
    requires VectorReadable(log) && vector == Read(log, VECTOR, HSECTOR) && b < 508
    ensures (b + 4) / 4 < |vector| && Holds(log, VECTOR, HSECTOR) && (ByteAt(vector, b + 4) == 0xFF <==> Flag(log, b))
  {
  }

  lemma OneSkipped(before: File, after: File, log: File, budget: nat, left: nat, i: nat, k: nat)
    requires VectorReadable(log) && i < 508 && ReplayedTo(before, after, log, budget, left, i, k) && !Flag(log, i)
    ensures ReplayedTo(before, after, log, budget, left, i + 1, k)
  {
    LoggedNext(log, i);
    hide Flag, Holds, LoggedAt, LoggedBefore, Read, Files.Written;
  }

  /** What one more logged block does, or that there is none to be had. */
  lemma OneReplayed(before: File, after: File, log: File, budget: nat, left: nat, i: nat, k: nat, n: nat)
    requires VectorReadable(log) && i < n <= 508 && ReplayedTo(before, after, log, budget, left, i, k) && Flag(log, i)
    ensures Holds(log, REPLAY_BASE + 1024 * k, 1024) && left > 0 ==>
      ReplayedTo(before, Files.Written(after, BlockAt(i), Read(log, REPLAY_BASE + 1024 * k, 1024)), log, budget, left - 1, i + 1, k + 1)
    ensures !Holds(log, REPLAY_BASE + 1024 * k, 1024) || left == 0 ==>
      StopAt(log, n, budget) == i && i != n && after == Copied(before, log, i) && budget == left + LoggedBefore(log, i)
  {
    hide Flag, Holds, LoggedBefore, Read, Files.Written, StopAt, Copied;
    if !Holds(log, REPLAY_BASE + 1024 * k, 1024) || left == 0 {
      StopsThere(log, n, budget, i);
    } else {
      OneCopied(before, after, log, budget, left, i, k);
    }
  }

  lemma OneCopied(before: File, after: File, log: File, budget: nat, left: nat, i: nat, k: nat)
    requires VectorReadable(log) && i < 508 && ReplayedTo(before, after, log, budget, left, i, k) && Flag(log, i)
    requires Holds(log, REPLAY_BASE + 1024 * k, 1024) && left > 0
    ensures ReplayedTo(before, Files.Written(after, BlockAt(i), Read(log, REPLAY_BASE + 1024 * k, 1024)), log, budget, left - 1, i + 1, k + 1)
  {
    LoggedNext(log, i);
    hide Flag, Holds, LoggedBefore, Read, Files.Written;
    NotBlocked(log, i, budget);
    hide Blocked;
  }

  lemma NotBlocked(log: File, b: nat, budget: nat)
    requires VectorReadable(log) && b < 508 && Holds(log, LoggedAt(log, b), 1024) && LoggedBefore(log, b) < budget
    ensures !Blocked(log, b, budget)
  {
  }

  lemma AllReplayed(before: File, after: File, log: File, budget: nat, left: nat, n: nat, k: nat)
    requires VectorReadable(log) && n <= 508 && ReplayedTo(before, after, log, budget, left, n, k)
    ensures StopAt(log, n, budget) == n && after == Copied(before, log, n) && budget == left + LoggedBefore(log, n)
  {
    StopsThere(log, n, budget, n);
  }

  /** At the stop for want of writes as many blocks have been copied as the device took. */
  lemma {:induction false} CopiedWithin(log: File, n: nat, budget: nat, i: nat)
    requires Holds(log, VECTOR, HSECTOR) && n <= 508 && i <= StopAt(log, n, budget)
    ensures LoggedBefore(log, i) <= budget
  {
    hide Flag, Holds, StopAt;
    if i > 0 {
      CopiedWithin(log, n, budget, i - 1);
      LoggedNext(log, i - 1);
      assert !Blocked(log, i - 1, budget);
    }
  }

  /** A replay of files that replay to an image: it ends exactly if the device takes a write for each logged block,
      and then the blocks are the image's; wherever it stops, the files replay to the image still. */
  lemma ReplayIs(primary: File, log: File, image: seq<Block>, budget: nat)
    requires Replays(primary, log, image)
    ensures var n := |image|; var stop := StopAt(log, n, budget); var after := Copied(primary, log, stop);
      && (stop == n <==> ReplayCost(log, image) <= budget) && (stop < n ==> LoggedBefore(log, stop) == budget)
      && Replays(after, log, image) && PartlyReplayed(primary, after, log, image, budget) && (stop == n ==> BlocksAre(after, image))
  {
    hide *;
    StopsInTime(primary, log, image, budget);
    ReplaysAfterwards(primary, log, image, budget);
    ReplayedPartly(primary, log, image, budget);
  }

  lemma ReplaysAfterwards(primary: File, log: File, image: seq<Block>, budget: nat)
    requires Replays(primary, log, image)
    ensures var after := Copied(primary, log, StopAt(log, |image|, budget));
      Replays(after, log, image) && (StopAt(log, |image|, budget) == |image| ==> BlocksAre(after, image))
  {
    var after := Copied(primary, log, StopAt(log, |image|, budget));
    hide Flag, Flags, Holds, Contains, StopAt, Copied, ReplaysTo, BlockKept, VectorReadable, Rank;
    forall b | 0 <= b < |image|
      ensures ReplaysTo(after, log, Flags(log, |image|), b, image[b])
      ensures StopAt(log, |image|, budget) == |image| ==> Contains(after, BlockAt(b), image[b])
    {
      ReplayedBlock(primary, log, image, budget, b);
    }
  }

  lemma ReplayedPartly(primary: File, log: File, image: seq<Block>, budget: nat)
    requires Replays(primary, log, image)
    ensures PartlyReplayed(primary, Copied(primary, log, StopAt(log, |image|, budget)), log, image, budget)
  {
    var after, flags := Copied(primary, log, StopAt(log, |image|, budget)), Flags(log, |image|);
    hide Flag, Flags, Holds, Contains, StopAt, Copied, ReplaysTo, BlockKept, Rank;
    forall b | 0 <= b < |image|
      ensures if flags[b] && Rank(flags, b) < budget then Contains(after, BlockAt(b), image[b]) else BlockKept(primary, after, b)
    {
      ReplayedBlock(primary, log, image, budget, b);
    }
  }

  /** The replay stops only when the device takes no more writes. */
  lemma StopsInTime(primary: File, log: File, image: seq<Block>, budget: nat)
    requires Replays(primary, log, image)
    ensures var n := |image|; var stop := StopAt(log, n, budget);
      (stop == n <==> ReplayCost(log, image) <= budget) && (stop < n ==> LoggedBefore(log, stop) == budget)
  {
    var n := |image|;
    var stop := StopAt(log, n, budget);
    AllInLog(primary, log, image);
    RankOfFlags(log, n, n);
    CopiedWithin(log, n, budget, stop);
    hide Flag, Flags, Holds, Replays, StopAt, Rank, LoggedAt, LoggedBefore;
    if stop < n {
      assert Blocked(log, stop, budget);
      AllLoggedAfter(log, n, stop);
    }
  }

  lemma {:induction false} AllLoggedAfter(log: File, n: nat, b: nat)
    requires Holds(log, VECTOR, HSECTOR) && b < n <= 508 && Flag(log, b)
    ensures LoggedBefore(log, b) < LoggedBefore(log, n)
    decreases n
  {
    hide Flag, Holds;
    LoggedNext(log, n - 1);
    if b < n - 1 { AllLoggedAfter(log, n - 1, b); }
  }

  lemma ReplayedBlock(primary: File, log: File, image: seq<Block>, budget: nat, b: nat)
    requires Replays(primary, log, image) && b < |image|
    ensures var stop := StopAt(log, |image|, budget); var after := Copied(primary, log, stop); var flags := Flags(log, |image|);
      && (if flags[b] && Rank(flags, b) < budget then Contains(after, BlockAt(b), image[b]) else BlockKept(primary, after, b))
      && ReplaysTo(after, log, flags, b, image[b]) && (stop == |image| ==> Contains(after, BlockAt(b), image[b]))
  {
    var stop, flags := StopAt(log, |image|, budget), Flags(log, |image|);
    var after := Copied(primary, log, stop);
    BlockInFiles(primary, log, image, b);
    CopiedBlock(primary, log, stop, b);
    hide *;
    if flags[b] {
      PassedIf(primary, log, image, budget, b);
    } else {
      KeptContents(primary, after, b, image[b]);
    }
    StillReplays(primary, after, log, image, b);
  }

  /** What replaying to an image says of a block. */
  lemma BlockInFiles(primary: File, log: File, image: seq<Block>, b: nat)
    requires Replays(primary, log, image) && b < |image|
    ensures |image| <= 508 && Holds(log, VECTOR, HSECTOR) && Flags(log, |image|)[b] == Flag(log, b)
    ensures Rank(Flags(log, |image|), b) == LoggedBefore(log, b)
    ensures if Flag(log, b) then Holds(log, LoggedAt(log, b), 1024) && Read(log, LoggedAt(log, b), 1024) == image[b]
      else Contains(primary, BlockAt(b), image[b])
  {
    assert ReplaysTo(primary, log, Flags(log, |image|), b, image[b]);
    RankOfFlags(log, |image|, b);
    hide Flag;
  }

  lemma StillReplays(primary: File, after: File, log: File, image: seq<Block>, b: nat)
    requires Replays(primary, log, image) && b < |image|
    requires !Flags(log, |image|)[b] ==> Contains(after, BlockAt(b), image[b])
    ensures ReplaysTo(after, log, Flags(log, |image|), b, image[b])
  {
    assert ReplaysTo(primary, log, Flags(log, |image|), b, image[b]);
  }

  /** A logged block has been copied exactly if its turn came before the writes were used up. */
  lemma PassedIf(primary: File, log: File, image: seq<Block>, budget: nat, b: nat)
    requires Replays(primary, log, image) && b < |image| && Flag(log, b)
    ensures b < StopAt(log, |image|, budget) <==> LoggedBefore(log, b) < budget
    ensures StopAt(log, |image|, budget) == |image| ==> b < StopAt(log, |image|, budget)
  {
    var stop := StopAt(log, |image|, budget);
    AllInLog(primary, log, image);
    hide Flag, Holds, Replays, LoggedAt, LoggedBefore;
    assert b < stop ==> !Blocked(log, b, budget);
    if stop <= b { NotPassed(log, |image|, budget, b); }
  }

  lemma AllInLog(primary: File, log: File, image: seq<Block>)
    requires Replays(primary, log, image)
    ensures forall c :: 0 <= c < |image| && Flag(log, c) ==> Holds(log, LoggedAt(log, c), 1024)
  {
    var flags := Flags(log, |image|);
    hide Flag, Holds, Contains, Read, Rank;
    forall c | 0 <= c < |image| && Flag(log, c) ensures Holds(log, LoggedAt(log, c), 1024) {
      assert ReplaysTo(primary, log, flags, c, image[c]);
      RankOfFlags(log, |image|, c);
      FoundInLog(log, LoggedAt(log, c), image[c]);
    }
  }

  lemma FoundInLog(log: File, at: nat, block: Block)
    requires Contains(log, at, block)
    ensures Holds(log, at, 1024) && Read(log, at, 1024) == block
  {
  }

  lemma NotPassed(log: File, n: nat, budget: nat, b: nat)
    requires Holds(log, VECTOR, HSECTOR) && b < n <= 508 && Flag(log, b) && StopAt(log, n, budget) <= b
    requires forall c :: 0 <= c < n && Flag(log, c) ==> Holds(log, LoggedAt(log, c), 1024)
    ensures LoggedBefore(log, b) >= budget
  {
    var stop := StopAt(log, n, budget);
    hide Flag, Holds, StopAt;
    assert Blocked(log, stop, budget);
    if stop < b { AllLoggedAfter(log, b, stop); }
  }

  // ----- the header

  /** The log's header can stand in for a lost one: it passes the check and has the same time stamp. */
  predicate HeaderInLog(log: File, low: Word, high: Word)
  {
    && Holds(log, 0, HSECTOR)
    && var h := Read(log, 0, HSECTOR); VerifyHiveHeader(h, HFILE_TYPE_LOG) && h[TIMESTAMP] == low && h[TIMESTAMP + 1] == high
  }

  /** The header passes. */
  predicate Passes(primary: File)
  {
    Holds(primary, 0, HSECTOR) && VerifyHiveHeader(Read(primary, 0, HSECTOR), HFILE_TYPE_PRIMARY)
  }

  /** The header passes but for its sequence numbers. */
  ghost predicate Stale(primary: File)
  {
    Holds(primary, 0, HSECTOR) && SoundExceptSequences(Read(primary, 0, HSECTOR), HFILE_TYPE_PRIMARY) && !Clean(primary)
  }

  /** The header does not pass, or is not there at the front of what is a hive otherwise. */
  predicate Damaged(primary: File)
  {
    if Holds(primary, 0, HSECTOR) then !SoundExceptSequences(Read(primary, 0, HSECTOR), HFILE_TYPE_PRIMARY) else FirstBin(primary)
  }

  /** The time stamp of a header, or of the first bin where there is none. */
  function TimeStamp(primary: File): (Word, Word)
    requires Holds(primary, 0, HSECTOR) || FirstBin(primary)
  {
    var at := if Holds(primary, 0, HSECTOR) then TIMESTAMP else HBLOCK + TIMESTAMP;
    (primary[at], primary[at + 1])
  }

  /** The header of a hive file is lost, with its log complete: the log's header can stand in for it, and what is
      not in place is in the log. */
  ghost predicate HeaderLost(primary: File, log: File, image: seq<Block>)
  {
    && Damaged(primary) && HeaderInLog(log, TimeStamp(primary).0, TimeStamp(primary).1)
    && Read(log, 0, HSECTOR)[LENGTH] / 4096 == |image| && Replays(primary, log, image)
  }

  /** The header passes for that of a hive of n blocks that needs no recovery. */
  ghost predicate PassesFor(primary: File, n: nat)
  {
    Passes(primary) && Read(primary, 0, HSECTOR)[LENGTH] / 4096 == n
  }

  /** No header that may come to be used asks the replay for more blocks than there are flags in a sector. */
  predicate ReplayFits(primary: File, log: File, hiveSize: Word)
  {
    && (Holds(primary, 0, HSECTOR) && SoundExceptSequences(Read(primary, 0, HSECTOR), HFILE_TYPE_PRIMARY) ==>
        Read(primary, 0, HSECTOR)[LENGTH] / 4096 <= 508)
    && (Holds(log, 0, HSECTOR) ==> Read(log, 0, HSECTOR)[LENGTH] / 4096 <= 508) && hiveSize / 4096 <= 508
  }

  /** The first k of the logged blocks have been put in their places, and the other blocks are as they were. */
  ghost predicate PartlyReplayed(before: File, after: File, log: File, image: seq<Block>, k: nat)
  {
    && |image| <= 508 && VectorReadable(log)
    && var flags := Flags(log, |image|);
       forall b :: 0 <= b < |image| ==>
         if flags[b] && Rank(flags, b) < k then Contains(after, BlockAt(b), image[b]) else BlockKept(before, after, b)
  }

  /** The logged blocks from the k-th on are what is in their places already. */
  ghost predicate InPlaceFrom(primary: File, log: File, image: seq<Block>, k: nat)
  {
    && |image| <= 508 && VectorReadable(log)
    && var flags := Flags(log, |image|);
       forall b :: 0 <= b < |image| && flags[b] && Rank(flags, b) >= k ==> Contains(primary, BlockAt(b), image[b])
  }

  lemma NoProgress(primary: File, blocks: seq<Block>, bits: seq<bool>)
    ensures Progress(primary, primary, blocks, bits, 0)
  {
  }

  /** With the log's header in place the blocks still replay. */
  lemma HeaderFound(primary: File, log: File, image: seq<Block>, header: seq<Word>)
    requires HeaderLost(primary, log, image) && |header| == HSECTOR && header == Relabelled(Read(log, 0, HSECTOR))
    ensures var after := Files.Written(primary, 0, header);
      HeaderIs(after, header) && Replays(after, log, image) && header[LENGTH] / 4096 == |image| <= 508
  {
    var after := Files.Written(primary, 0, header);
    WrittenContains(primary, 0, header);
    hide Checksum, Contains, Files.Written, Flags, Rank, HeaderInLog, FirstBin, SoundExceptSequences;
    var flags := Flags(log, |image|);
    forall b | 0 <= b < |image| ensures ReplaysTo(after, log, flags, b, image[b]) {
      assert ReplaysTo(primary, log, flags, b, image[b]);
      if !flags[b] { WrittenElsewhere(primary, 0, header, BlockAt(b), image[b]); }
    }
  }

  /** What a load makes of a hive file whose header is lost: the header first, and then as many of the logged
      blocks as the device still takes. */
  ghost predicate HeaderThenBlocks(before: File, after: File, log: File, image: seq<Block>, budget: nat, success: bool)
  {
    && (success <==> 1 + ReplayCost(log, image) <= budget)
    && if budget == 0 then after == before
       else
         && PassesFor(after, |image|) && PartlyReplayed(before, after, log, image, budget - 1)
         && (LoadsAs(after, log, image) <==> InPlaceFrom(before, log, image, budget - 1))
  }

  lemma HeaderRead(primary: File, header: seq<Word>)
    requires |header| == HSECTOR && HeaderIs(primary, header)
    ensures Holds(primary, 0, HSECTOR) && Read(primary, 0, HSECTOR) == header
  {
  }

  /** The header first and then some of the blocks: the files load as the image exactly if the other blocks
      were in place. */
  lemma HeaderThenData(before: File, between: File, after: File, log: File, image: seq<Block>, header: seq<Word>, k: nat)
    requires HeaderLost(before, log, image) && |header| == HSECTOR && header == Relabelled(Read(log, 0, HSECTOR))
    requires between == Files.Written(before, 0, header) && HeaderIs(after, header) && PartlyReplayed(between, after, log, image, k)
    ensures PassesFor(after, |image|) && PartlyReplayed(before, after, log, image, k)
    ensures LoadsAs(after, log, image) <==> InPlaceFrom(before, log, image, k)
  {
    NewHeaderPasses(after, log, image, header);
    hide Checksum, Contains, Flags, Holds, Rank, Relabelled, Read, HeaderInLog, FirstBin, SoundExceptSequences, LoadsAs, HeaderIs, PassesFor;
    var flags := Flags(log, |image|);
    forall b | 0 <= b < |image|
      ensures if flags[b] && Rank(flags, b) < k then Contains(after, BlockAt(b), image[b]) else BlockKept(before, after, b)
      ensures Contains(after, BlockAt(b), image[b]) <==>
        (flags[b] && Rank(flags, b) >= k ==> Contains(before, BlockAt(b), image[b]))
    {
      assert ReplaysTo(before, log, flags, b, image[b]);
      SameBlock(before, between, after, header, b, image[b]);
    }
  }

  lemma SameBlock(before: File, between: File, after: File, header: seq<Word>, b: nat, block: Block)
    requires between == Files.Written(before, 0, header) && |header| == HSECTOR
    ensures BlockKept(between, after, b) ==>
      BlockKept(before, after, b) && (Contains(after, BlockAt(b), block) <==> Contains(before, BlockAt(b), block))
  {
    if BlockKept(between, after, b) {
      forall i {:trigger i in after} {:trigger after[i]} | BlockAt(b) <= i < BlockAt(b) + 1024
        ensures (i in after <==> i in before) && (i in after ==> after[i] == before[i])
      {
        assert i in after <==> i in between;
      }
      if Contains(before, BlockAt(b), block) { KeptContents(before, after, b, block); }
      assert BlockKept(after, before, b);
      if Contains(after, BlockAt(b), block) { KeptContents(after, before, b, block); }
    }
  }

  lemma NewHeaderPasses(primary: File, log: File, image: seq<Block>, header: seq<Word>)
    requires Holds(log, 0, HSECTOR) && VerifyHiveHeader(Read(log, 0, HSECTOR), HFILE_TYPE_LOG)
    requires |header| == HSECTOR && header == Relabelled(Read(log, 0, HSECTOR)) && HeaderIs(primary, header)
    requires header[LENGTH] / 4096 == |image|
    ensures PassesFor(primary, |image|) && (LoadsAs(primary, log, image) <==> BlocksAre(primary, image))
  {
    RelabelledPasses(Read(log, 0, HSECTOR));
    hide Checksum, Relabelled;
  }

  /** What the header says about files that load. */
  lemma LoadKinds(primary: File, log: File, image: seq<Block>)
    requires LoadsAs(primary, log, image) && |image| <= 508
    ensures Holds(primary, 0, HSECTOR) && SoundExceptSequences(Read(primary, 0, HSECTOR), HFILE_TYPE_PRIMARY)
    ensures Clean(primary) <==> VerifyHiveHeader(Read(primary, 0, HSECTOR), HFILE_TYPE_PRIMARY)
    ensures if Clean(primary) then BlocksAre(primary, image)
            else Replays(primary, log, image) && VectorReadable(log) && ReplayCost(log, image) == Rank(Flags(log, |image|), |image|)
    ensures Read(primary, 0, HSECTOR)[LENGTH] / 4096 == |image| && HeaderIs(primary, Read(primary, 0, HSECTOR))
  {
    hide Checksum;
  }

  /** A replay keeps the header, and so what kind of load it is. */
  lemma LoadStill(before: File, after: File, log: File, image: seq<Block>)
    requires LoadsAs(before, log, image) && HeaderIs(after, Read(before, 0, HSECTOR)) && !Clean(before) && Replays(after, log, image)
    ensures LoadsAs(after, log, image)
  {
    hide Checksum, Replays;
  }

  /** With more than 508 bits the replay takes a word of the vector for the first logged block's first. */
  lemma VectorReplayed(primary: File, log: File, bits: seq<bool>, blocks: seq<Block>, image: seq<Block>, b: nat)
    requires |blocks| <= 508 < 512 <= |bits| && LogHolds(log, bits, blocks) && forall c :: |blocks| <= c < |bits| ==> !bits[c]
    requires b < |image| <= |blocks| && bits[b] && (forall c :: 0 <= c < b ==> !bits[c]) && image[b][0] != 0 && !Clean(primary)
    ensures !LoadsAs(primary, log, image)
  {
    hide Contains, LogBase, Holds, Read, SoundExceptSequences, BlocksAre;
    var flags := Flags(log, |image|);
    forall c | 0 <= c < |image| ensures flags[c] == bits[c] { assert flags[c] == Flag(log, c); }
    RankStart(flags);
    RankSkips(flags, 0, b);
    assert Uniform(bits, 508, 512, false);
    NotThere(log, REPLAY_BASE, image[b]);
    assert !ReplaysTo(primary, log, flags, b, image[b]);
    UncleanReplays(primary, log, image);
  }

  lemma UncleanReplays(primary: File, log: File, image: seq<Block>)
    requires !Clean(primary)
    ensures LoadsAs(primary, log, image) ==> Replays(primary, log, image)
  {
  }

  lemma NotThere(f: File, at: nat, data: seq<Word>)
    requires data != [] && at in f && f[at] != data[0]
    ensures !Contains(f, at, data)
  {
    if Holds(f, at, |data|) { assert Read(f, at, |data|)[0] == f[at]; }
  }

  ghost predicate HeaderIs(primary: File, header: seq<Word>)
    requires |header| == HSECTOR
  {
    Contains(primary, 0, header)
  }

  lemma HeaderStays(primary: File, header: seq<Word>, at: nat, data: seq<Word>)
    requires |header| == HSECTOR && HeaderIs(primary, header) && HBLOCK <= at
    ensures HeaderIs(Files.Written(primary, at, data), header)
  {
    WrittenElsewhere(primary, at, data, 0, header);
  }

  // ----- what a load comes to

  /** How a step of a load ends, and what it leaves: the hive file, and the writes the device has left. */
  datatype Outcome = Outcome(result: Result, primary: File, budget: nat)

  /** The data from the log. */
  ghost function DataOutcome(primary: File, log: File, n: nat, budget: nat, heal: bool): Outcome
    requires n <= 508
  {
    if !VectorReadable(log) then Outcome(if heal then SelfHeal else Fail, primary, budget)
    else
      var stop := StopAt(log, n, budget);
      CopiedWithin(log, n, budget, stop);
      Outcome(if stop == n then HiveSuccess else Fail, Copied(primary, log, stop), budget - LoggedBefore(log, stop))
  }

  /** The header from the log, or built anew. */
  ghost function HeaderOutcome(primary: File, log: File, time: (Word, Word), budget: nat, heal: bool, hiveSize: Word): Outcome
  {
    if budget == 0 then Outcome(Fail, primary, 0)
    else if HeaderInLog(log, time.0, time.1) then
      Outcome(HiveSuccess, Files.Written(primary, 0, Relabelled(Read(log, 0, HSECTOR))), budget - 1)
    else if heal && hiveSize != 0 then
      Outcome(SelfHeal, Files.Written(primary, 0, Resuscitated(if Holds(log, 0, HSECTOR) then Read(log, 0, HSECTOR) else Uniformly(0)[..HSECTOR], hiveSize)),
              budget - 1)
    else Outcome(Fail, primary, budget)
  }

  /** The data, and if that fails the header: a file whose header is stale. */
  ghost function DataOrHeader(primary: File, log: File, budget: nat, heal: bool, hiveSize: Word): Outcome
    requires Stale(primary) && Read(primary, 0, HSECTOR)[LENGTH] / 4096 <= 508
  {
    var data := DataOutcome(primary, log, Read(primary, 0, HSECTOR)[LENGTH] / 4096, budget, heal);
    if data.result == Fail then HeaderOutcome(data.primary, log, TimeStamp(primary), data.budget, heal, hiveSize) else data
  }

  /** The header and then the data, both of which have to do: a file whose header is damaged. */
  ghost function HeaderAndData(primary: File, log: File, budget: nat, heal: bool, hiveSize: Word): Outcome
    requires Damaged(primary) && ReplayFits(primary, log, hiveSize)
  {
    var time := TimeStamp(primary);
    var header := HeaderOutcome(primary, log, time, budget, heal, hiveSize);
    if header.result == Fail then header
    else
      var length := if HeaderInLog(log, time.0, time.1) then Read(log, 0, HSECTOR)[LENGTH] else hiveSize;
      var data := DataOutcome(header.primary, log, length / 4096, header.budget, heal);
      if data.result == HiveSuccess then data.(result := header.result) else data
  }

  /** When the data is recovered: every flagged block is in the log and comes before the device gives up. */
  lemma DataVerdict(primary: File, log: File, n: nat, budget: nat, heal: bool)
    requires n <= 508
    ensures var o := DataOutcome(primary, log, n, budget, heal);
      && (o.result == HiveSuccess <==>
          VectorReadable(log) && forall b :: 0 <= b < n && Flag(log, b) ==> Holds(log, LoggedAt(log, b), 1024) && LoggedBefore(log, b) < budget)
      && (o.result == SelfHeal <==> !VectorReadable(log) && heal) && o.result in {HiveSuccess, SelfHeal, Fail}
      && (o.result == SelfHeal ==> o.primary == primary)
  {
    if VectorReadable(log) {
      var stop := StopAt(log, n, budget);
      hide Flag, Holds, StopAt, Copied, LoggedAt, LoggedBefore;
      assert stop < n ==> Blocked(log, stop, budget);
      if stop == n {
        forall b | 0 <= b < n && Flag(log, b) ensures Holds(log, LoggedAt(log, b), 1024) && LoggedBefore(log, b) < budget {
          assert !Blocked(log, b, budget);
        }
      }
    }
  }

  /** A stale file is refused exactly if the data is not to be had and the header is not either. */
  lemma StaleRefused(primary: File, log: File, budget: nat, heal: bool, hiveSize: Word)
    requires Stale(primary) && Read(primary, 0, HSECTOR)[LENGTH] / 4096 <= 508
    ensures var n := Read(primary, 0, HSECTOR)[LENGTH] / 4096; var time := TimeStamp(primary);
      DataOrHeader(primary, log, budget, heal, hiveSize).result == Fail <==>
        if !VectorReadable(log) then !heal && (budget == 0 || !HeaderInLog(log, time.0, time.1))
        else
          var stop := StopAt(log, n, budget);
          stop < n && (LoggedBefore(log, stop) >= budget || (!HeaderInLog(log, time.0, time.1) && (!heal || hiveSize == 0)))
  {
    hide StopAt, Copied, LoggedBefore, HeaderInLog, TimeStamp;
    if VectorReadable(log) {
      var n := Read(primary, 0, HSECTOR)[LENGTH] / 4096;
      CopiedWithin(log, n, budget, StopAt(log, n, budget));
    }
  }

  /** A file with a damaged header is refused exactly if it gets no header, or then not the data. */
  lemma DamagedRefused(primary: File, log: File, budget: nat, heal: bool, hiveSize: Word)
    requires Damaged(primary) && ReplayFits(primary, log, hiveSize)
    ensures var time := TimeStamp(primary); var found := HeaderInLog(log, time.0, time.1);
      HeaderAndData(primary, log, budget, heal, hiveSize).result == Fail <==>
        || budget == 0 || (!found && (!heal || hiveSize == 0))
        || if !VectorReadable(log) then !heal
           else
             var n := (if found then Read(log, 0, HSECTOR)[LENGTH] else hiveSize) / 4096;
             exists b :: 0 <= b < n && Flag(log, b) && (!Holds(log, LoggedAt(log, b), 1024) || LoggedBefore(log, b) >= budget - 1)
  {
    var time := TimeStamp(primary);
    var found := HeaderInLog(log, time.0, time.1);
    var header := HeaderOutcome(primary, log, time, budget, heal, hiveSize);
    if header.result != Fail {
      var n := (if found then Read(log, 0, HSECTOR)[LENGTH] else hiveSize) / 4096;
      DataVerdict(header.primary, log, n, header.budget, heal);
      hide Flag, StopAt, Copied, LoggedAt, LoggedBefore, TimeStamp, Files.Written, Relabelled, VerifyHiveHeader;
    }
  }

  /** A file passes, or is stale, or damaged, or no hive. */
  lemma FourKinds(primary: File)
    ensures Passes(primary) || Stale(primary) || Damaged(primary) || (!Holds(primary, 0, HSECTOR) && !FirstBin(primary))
    ensures Passes(primary) ==> !Stale(primary) && !Damaged(primary)
    ensures Stale(primary) ==> !Damaged(primary) && Holds(primary, 0, HSECTOR)
    ensures Damaged(primary) ==> Holds(primary, 0, HSECTOR) || FirstBin(primary)
    ensures Holds(primary, 0, HSECTOR) ==>
      && (Passes(primary) <==> VerifyHiveHeader(Read(primary, 0, HSECTOR), HFILE_TYPE_PRIMARY))
      && (Stale(primary) <==> SoundExceptSequences(Read(primary, 0, HSECTOR), HFILE_TYPE_PRIMARY) && !Clean(primary))
      && (Damaged(primary) <==> !SoundExceptSequences(Read(primary, 0, HSECTOR), HFILE_TYPE_PRIMARY))
    ensures !Holds(primary, 0, HSECTOR) ==> !Passes(primary) && !Stale(primary) && (Damaged(primary) <==> FirstBin(primary))
  {
    hide Checksum;
  }

  lemma LoadableKinds(primary: File, log: File, image: seq<Block>, hiveSize: Word)
    requires |image| <= 508
    ensures LoadsAs(primary, log, image) ==>
      && !Damaged(primary) && Holds(primary, 0, HSECTOR) && (Clean(primary) <==> Passes(primary)) && (Stale(primary) <==> !Clean(primary))
      && (Clean(primary) ==> BlocksAre(primary, image)) && Read(primary, 0, HSECTOR)[LENGTH] / 4096 <= 508
    ensures Stale(primary) && (LoadsAs(primary, log, image) || ReplayFits(primary, log, hiveSize)) ==>
      Holds(primary, 0, HSECTOR) && Read(primary, 0, HSECTOR)[LENGTH] / 4096 <= 508
    ensures HeaderLost(primary, log, image) ==> Damaged(primary) && !LoadsAs(primary, log, image)
  {
    hide Checksum;
    if LoadsAs(primary, log, image) { LoadKinds(primary, log, image); }
  }

  /** A stale file that loads as an image does so still. */
  lemma StaleLoads(primary: File, log: File, image: seq<Block>, budget: nat, heal: bool, hiveSize: Word)
    requires LoadsAs(primary, log, image) && !Clean(primary)
    ensures Stale(primary) && Read(primary, 0, HSECTOR)[LENGTH] / 4096 == |image| <= 508
    ensures var o := DataOrHeader(primary, log, budget, heal, hiveSize);
      && LoadsAs(o.primary, log, image) && o.result in {HiveSuccess, Fail}
      && (o.result == HiveSuccess ==> BlocksAre(o.primary, image)) && (o.result == HiveSuccess <==> ReplayCost(log, image) <= budget)
  {
    LoadKinds(primary, log, image);
    ReplayIs(primary, log, image, budget);
    CopiedHeader(primary, log, StopAt(log, |image|, budget), Read(primary, 0, HSECTOR));
    LoadStill(primary, Copied(primary, log, StopAt(log, |image|, budget)), log, image);
    hide LoadsAs, BlocksAre, StopAt, Copied, VerifyHiveHeader, ReplayCost, HeaderInLog, LoggedBefore;
  }

  /** What is left of a file whose header was damaged. */
  lemma DamagedLoads(primary: File, log: File, image: seq<Block>, budget: nat, heal: bool, hiveSize: Word)
    requires HeaderLost(primary, log, image) && ReplayFits(primary, log, hiveSize)
    ensures Damaged(primary)
    ensures var o := HeaderAndData(primary, log, budget, heal, hiveSize);
      HeaderThenBlocks(primary, o.primary, log, image, budget, o.result == HiveSuccess)
  {
    hide *;
    LostOutcome(primary, log, image, budget, heal, hiveSize);
    var o := HeaderAndData(primary, log, budget, heal, hiveSize);
    if budget > 0 { BlocksAfterHeader(primary, log, image, budget - 1); }
    Together(primary, o.primary, log, image, budget, o.result == HiveSuccess);
  }

  lemma Together(before: File, after: File, log: File, image: seq<Block>, budget: nat, success: bool)
    requires if budget == 0 then after == before && !success
      else
        && PassesFor(after, |image|) && PartlyReplayed(before, after, log, image, budget - 1)
        && (LoadsAs(after, log, image) <==> InPlaceFrom(before, log, image, budget - 1)) && (success <==> ReplayCost(log, image) <= budget - 1)
    ensures HeaderThenBlocks(before, after, log, image, budget, success)
  {
    hide PassesFor, PartlyReplayed, LoadsAs, InPlaceFrom, ReplayCost;
  }

  lemma BlocksAfterHeader(primary: File, log: File, image: seq<Block>, k: nat)
    requires HeaderLost(primary, log, image)
    ensures VectorReadable(log) && |image| <= 508 && Holds(log, 0, HSECTOR)
    ensures var after := Copied(Files.Written(primary, 0, Relabelled(Read(log, 0, HSECTOR))), log, StopAt(log, |image|, k));
      && PassesFor(after, |image|) && PartlyReplayed(primary, after, log, image, k)
      && (LoadsAs(after, log, image) <==> InPlaceFrom(primary, log, image, k))
      && (StopAt(log, |image|, k) == |image| <==> ReplayCost(log, image) <= k)
  {
    hide Checksum, VerifyHiveHeader, Damaged, TimeStamp, Relabelled;
    var header := Relabelled(Read(log, 0, HSECTOR));
    var between := Files.Written(primary, 0, header);
    assert |header| == HSECTOR;
    hide *;
    HeaderFound(primary, log, image, header);
    ReplayIs(between, log, image, k);
    CopiedHeader(between, log, StopAt(log, |image|, k), header);
    HeaderThenData(primary, between, Copied(between, log, StopAt(log, |image|, k)), log, image, header, k);
  }

  lemma LostOutcome(primary: File, log: File, image: seq<Block>, budget: nat, heal: bool, hiveSize: Word)
    requires HeaderLost(primary, log, image) && ReplayFits(primary, log, hiveSize)
    ensures VectorReadable(log) && |image| <= 508 && Damaged(primary) && Holds(log, 0, HSECTOR)
    ensures var o := HeaderAndData(primary, log, budget, heal, hiveSize);
      if budget == 0 then o.result == Fail && o.primary == primary
      else
        && o.primary == Copied(Files.Written(primary, 0, Relabelled(Read(log, 0, HSECTOR))), log, StopAt(log, |image|, budget - 1))
        && (o.result == HiveSuccess <==> StopAt(log, |image|, budget - 1) == |image|)
  {
    hide Checksum, StopAt, Copied, VerifyHiveHeader, LoggedBefore, Damaged, TimeStamp, Files.Written, Relabelled;
  }

  // ----- losing a header

  lemma LogHeaderPasses(before: File, h: BaseBlock)
    requires WellFormed(h) && h[TYPE] == HFILE_TYPE_LOG && h[SEQUENCE1] == h[SEQUENCE2] && h[CHECKSUM] == Checksum(h)
    ensures var log := Files.Written(before, 0, h[..HSECTOR]);
      HeaderInLog(log, h[TIMESTAMP], h[TIMESTAMP + 1]) && Read(log, 0, HSECTOR)[LENGTH] == h[LENGTH]
  {
    hide Checksum;
    FirstSectorDecides(h, HFILE_TYPE_LOG);
    assert Read(Files.Written(before, 0, h[..HSECTOR]), 0, HSECTOR) == h[..HSECTOR];
  }

  /** A flush stopped anywhere once its log is complete, and its header damaged: all but the header can be
      recovered from the log, and the header as well. */
  lemma StoppedFlushLosesHeader(before: File, after: File, log: File, image: seq<Block>, blocks: seq<Block>, bits: seq<bool>,
                                done: nat, sector: seq<Word>)
    requires BlocksAre(before, image) && Progress(before, after, blocks, bits, done)
    requires |blocks| <= |bits| <= 508 && LogHolds(log, bits, blocks)
    requires Tracked(bits, image, blocks)
    requires |sector| == HSECTOR && !SoundExceptSequences(sector, HFILE_TYPE_PRIMARY)
    requires HeaderInLog(log, sector[TIMESTAMP], sector[TIMESTAMP + 1]) && Read(log, 0, HSECTOR)[LENGTH] / 4096 == |blocks|
    ensures HeaderLost(Files.Written(after, 0, sector), log, blocks)
    ensures VectorReadable(log) && Flags(log, |blocks|) == bits[..|blocks|]
  {
    StoppedFlushReplays(before, after, log, image, blocks, bits, done);
    FlagsAgree(log, bits, blocks);
    HeaderGone(after, log, blocks, sector);
  }

  lemma HeaderGone(primary: File, log: File, image: seq<Block>, sector: seq<Word>)
    requires |sector| == HSECTOR && Replays(primary, log, image)
    ensures var after := Files.Written(primary, 0, sector); Replays(after, log, image) && HeaderIs(after, sector)
    ensures var after := Files.Written(primary, 0, sector); Holds(after, 0, HSECTOR) && Read(after, 0, HSECTOR) == sector
    ensures var after := Files.Written(primary, 0, sector); TIMESTAMP in after && TIMESTAMP + 1 in after
    ensures var after := Files.Written(primary, 0, sector); after[TIMESTAMP] == sector[TIMESTAMP] && after[TIMESTAMP + 1] == sector[TIMESTAMP + 1]
  {
    var after := Files.Written(primary, 0, sector);
    WrittenContains(primary, 0, sector);
    HeaderRead(after, sector);
    hide Contains, Flags, Rank;
    var flags := Flags(log, |image|);
    forall b | 0 <= b < |image| ensures ReplaysTo(after, log, flags, b, image[b]) {
      assert ReplaysTo(primary, log, flags, b, image[b]);
      if !flags[b] { WrittenElsewhere(primary, 0, sector, BlockAt(b), image[b]); }
    }
  }

  lemma NoSignature(sector: seq<Word>, low: Word, high: Word)
    requires |sector| == HSECTOR && sector[SIGNATURE] != HV_HBLOCK_SIGNATURE
    ensures !SoundExceptSequences(sector[TIMESTAMP := low][TIMESTAMP + 1 := high], HFILE_TYPE_PRIMARY)
  {
  }

  /** The dirty blocks from the k-th on are in place already. */
  ghost predicate RestInPlace(primary: File, bits: seq<bool>, blocks: seq<Block>, k: nat)
  {
    forall b :: 0 <= b < |blocks| && b < |bits| && bits[b] && Rank(bits, b) >= k ==> Contains(primary, BlockAt(b), blocks[b])
  }

  /** The first k dirty blocks have not changed. */
  ghost predicate FirstUnchanged(bits: seq<bool>, image: seq<Block>, blocks: seq<Block>, k: nat)
  {
    |image| == |blocks| && forall b :: 0 <= b < |blocks| && b < |bits| && bits[b] && Rank(bits, b) < k ==> image[b] == blocks[b]
  }

  lemma LostFits(primary: File, log: File, image: seq<Block>)
    requires HeaderLost(primary, log, image)
    ensures ReplayFits(primary, log, 0)
  {
    hide Checksum;
  }

  lemma RecoveredParts(before: File, after: File, log: File, image: seq<Block>, budget: nat, success: bool)
    requires HeaderThenBlocks(before, after, log, image, budget, success)
    ensures success <==> 1 + ReplayCost(log, image) <= budget
    ensures budget > 0 ==> PassesFor(after, |image|) && PartlyReplayed(before, after, log, image, budget - 1)
  {
  }

  lemma PassesLoads(primary: File, log: File, n: nat, image: seq<Block>)
    requires PassesFor(primary, n)
    ensures LoadsAs(primary, log, image) <==> |image| == n && BlocksAre(primary, image)
  {
    hide Checksum;
  }

  /** Once the header and k of the dirty blocks have been recovered, the hive file passes for sound, and it holds
      the memory image if the other dirty blocks were in place, and the old one if those k had not changed. */
  ghost predicate Mixed(before: File, after: File, log: File, image: seq<Block>, blocks: seq<Block>, bits: seq<bool>, k: nat)
  {
    && PassesFor(after, |blocks|)
    && (LoadsAs(after, log, blocks) <==> RestInPlace(before, bits, blocks, k))
    && (LoadsAs(after, log, image) <==> FirstUnchanged(bits, image, blocks, k))
  }

  lemma HeaderRecovered(primary: File, sector: seq<Word>, after: File, log: File, image: seq<Block>, blocks: seq<Block>, bits: seq<bool>,
                        budget: nat, success: bool)
    requires |sector| == HSECTOR && |blocks| <= |bits| <= 508 && BlocksAre(primary, image) && Tracked(bits, image, blocks)
    requires VectorReadable(log) && Flags(log, |blocks|) == bits[..|blocks|]
    requires HeaderThenBlocks(Files.Written(primary, 0, sector), after, log, blocks, budget, success)
    ensures success <==> 1 + Rank(bits, |blocks|) <= budget
    ensures budget > 0 ==> Mixed(primary, after, log, image, blocks, bits, budget - 1)
  {
    RankPrefix(bits, |blocks|, |blocks|);
    RecoveredParts(Files.Written(primary, 0, sector), after, log, blocks, budget, success);
    hide PassesFor, PartlyReplayed, LoadsAs, HeaderThenBlocks, Contains, Flags, Rank, Holds, Files.Written, Mixed, Tracked;
    if budget > 0 { BlocksRecovered(primary, sector, after, log, image, blocks, bits, budget - 1); }
  }

  lemma BlocksRecovered(primary: File, sector: seq<Word>, after: File, log: File, image: seq<Block>, blocks: seq<Block>, bits: seq<bool>, k: nat)
    requires |sector| == HSECTOR && |blocks| <= |bits| <= 508 && BlocksAre(primary, image) && Tracked(bits, image, blocks)
    requires VectorReadable(log) && Flags(log, |blocks|) == bits[..|blocks|] && PassesFor(after, |blocks|)
    requires PartlyReplayed(Files.Written(primary, 0, sector), after, log, blocks, k)
    ensures Mixed(primary, after, log, image, blocks, bits, k)
  {
    PassesLoads(after, log, |blocks|, blocks);
    PassesLoads(after, log, |blocks|, image);
    hide LoadsAs, PassesFor, Checksum, Contains, Flags, Rank, BlockKept, Files.Written, VectorReadable;
    forall b | 0 <= b < |blocks|
      ensures Contains(after, BlockAt(b), blocks[b]) <==> (bits[b] && Rank(bits, b) >= k ==> Contains(primary, BlockAt(b), blocks[b]))
      ensures b < |image| ==> (Contains(after, BlockAt(b), image[b]) <==> (bits[b] && Rank(bits, b) < k ==> image[b] == blocks[b]))
    {
      RankPrefix(bits, |blocks|, b);
      SameBlock(primary, Files.Written(primary, 0, sector), after, sector, b, blocks[b]);
      if b < |image| {
        SameBlock(primary, Files.Written(primary, 0, sector), after, sector, b, image[b]);
        OneContent(after, BlockAt(b), image[b], blocks[b]);
      }
    }
  }

  lemma OneContent(f: File, at: nat, data: seq<Word>, other: seq<Word>)
    requires |data| == |other|
    ensures Contains(f, at, data) && Contains(f, at, other) ==> data == other
  {
  }
}
