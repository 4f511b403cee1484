/** The base block: the header at the front of a hive file, as the 32-bit words it is made of. */
module Header {
  import opened Words
  import opened Files

  // ----- layout, in 32-bit words

  const HBLOCK: nat := 1024        // a block and the base block: 4096 bytes
  const HSECTOR: nat := 128        // a sector: 512 bytes

  const SIGNATURE: nat := 0
  const SEQUENCE1: nat := 1
  const SEQUENCE2: nat := 2
  const TIMESTAMP: nat := 3
  const MAJOR: nat := 5
  const MINOR: nat := 6
  const TYPE: nat := 7
  const FORMAT: nat := 8
  const ROOTCELL: nat := 9
  const LENGTH: nat := 10
  const CLUSTER: nat := 11
  const CHECKSUM: nat := 127

  // ----- values

  const HV_HBLOCK_SIGNATURE: Word := 0x66676572
  const HV_LOG_DIRTY_SIGNATURE: Word := 0x54524944
  const HSYS_MAJOR: Word := 1
  const HSYS_MINOR: Word := 3
  const HBASE_FORMAT_MEMORY: Word := 1

  const HFILE_TYPE_PRIMARY: Word := 0
  const HFILE_TYPE_LOG: Word := 1
  const HFILE_TYPE_ALTERNATE: Word := 3

  /** A header, whole or only its first sector. */
  type BaseBlock = h: seq<Word> | |h| >= HSECTOR witness seq(128, i => 0)

  // ----- checksum

  function XorSum(words: seq<Word>): Word
  {
    if words == [] then 0 else BitXor(XorSum(words[..|words| - 1]), words[|words| - 1])
  }

  /** The two sums a checksum must not have are moved to their neighbours. */
  function Adjusted(sum: Word): (c: Word)
    ensures c != 0 && c != ALL_ONES
  {
    if sum == ALL_ONES then ALL_ONES - 1 else if sum == 0 then 1 else sum
  }

  function Checksum(h: BaseBlock): Word
  {
    Adjusted(XorSum(h[..CHECKSUM]))
  }

  method HiveHeaderChecksum(h: BaseBlock) returns (sum: Word)
    ensures sum == Checksum(h)
  {
    sum := 0;
    for i := 0 to 127
      invariant sum == XorSum(h[..i])
    {
      assert h[..i + 1][..i] == h[..i];
      sum := BitXor(sum, h[i]);
    }
    if sum == ALL_ONES {
      sum := ALL_ONES - 1;
    }
    if sum == 0 {
      sum := 1;
    }
  }

  lemma {:induction false} SameBits(v: nat, w: nat, width: nat)
    requires v < Power(width) && w < Power(width)
    requires forall k: nat :: k < width ==> (Bit(v, k) <==> Bit(w, k))
    ensures v == w
  {
    if width > 0 {
      assert Bit(v, 0) <==> Bit(w, 0);
      forall k: nat | k < width - 1 ensures Bit(v / 2, k) <==> Bit(w / 2, k) {
        assert Bit(v, k + 1) <==> Bit(w, k + 1);
      }
      SameBits(v / 2, w / 2, width - 1);
    }
  }

  lemma XorCancels(a: Word, b: Word, w: Word)
    requires BitXor(a, w) == BitXor(b, w)
    ensures a == b
  {
    hide Bit, BitXor;
    forall k: nat | k < 32 ensures Bit(a, k) <==> Bit(b, k) {
      assert Bit(BitXor(a, w), k) <==> Bit(BitXor(b, w), k);
    }
    Limit();
    SameBits(a, b, 32);
  }

  lemma XorCommutes(a: Word, b: Word)
    ensures BitXor(a, b) == BitXor(b, a)
  {
    hide Bit, BitXor;
    Limit();
    SameBits(BitXor(a, b), BitXor(b, a), 32);
  }

  /** How many of the words have bit k set. */
  function Ones(words: seq<Word>, k: nat): nat
  {
    if words == [] then 0 else Ones(words[..|words| - 1], k) + if Bit(words[|words| - 1], k) then 1 else 0
  }

  /** A bit of the sum is set exactly when it is in an odd number of the words. */
  lemma {:induction false} SumIsParity(words: seq<Word>, k: nat)
    requires k < 32
    ensures Bit(XorSum(words), k) <==> Ones(words, k) % 2 == 1
  {
    hide Bit, BitXor;
    if words == [] {
      NoBits(k);
    } else {
      SumIsParity(words[..|words| - 1], k);
    }
  }

  lemma {:induction false} NoBits(k: nat)
    ensures !Bit(0, k)
  {
    if k > 0 { NoBits(k - 1); }
  }

  /** A change to one word always changes the sum. */
  lemma {:induction false} OneWordChangesSum(words: seq<Word>, i: nat, x: Word)
    requires i < |words| && words[i] != x
    ensures XorSum(words[i := x]) != XorSum(words)
  {
    var n := |words| - 1;
    var changed := words[i := x];
    hide BitXor;
    if i == n {
      assert changed[..n] == words[..n];
      XorCommutes(XorSum(words[..n]), x);
      XorCommutes(XorSum(words[..n]), words[i]);
      if XorSum(changed) == XorSum(words) {
        XorCancels(x, words[i], XorSum(words[..n]));
      }
    } else {
      assert changed[..n] == words[..n][i := x];
      OneWordChangesSum(words[..n], i, x);
      if XorSum(changed) == XorSum(words) {
        XorCancels(XorSum(changed[..n]), XorSum(words[..n]), words[n]);
      }
    }
  }

  /** Exactly when damage to one checked word goes unnoticed: one sum is a value the checksum avoids and
      the other is the value it is moved to. */
  lemma OneWordDamage(h: BaseBlock, i: nat, x: Word)
    requires i < CHECKSUM && h[i] != x
    ensures Checksum(h[i := x]) == Checksum(h) <==>
            {XorSum(h[..CHECKSUM]), XorSum(h[i := x][..CHECKSUM])} in {{0, 1}, {ALL_ONES - 1, ALL_ONES}}
  {
    assert h[i := x][..CHECKSUM] == h[..CHECKSUM][i := x];
    OneWordChangesSum(h[..CHECKSUM], i, x);
    var s, t := XorSum(h[..CHECKSUM]), XorSum(h[i := x][..CHECKSUM]);
    hide XorSum;
    assert s != t;
    assert s in {s, t} && t in {s, t};
    if Adjusted(s) == Adjusted(t) {
      assert {s, t} == {0, 1} || {s, t} == {ALL_ONES - 1, ALL_ONES};
    }
  }

  // ----- checks

  /** All that is checked of a header besides its two sequence numbers. */
  predicate SoundExceptSequences(h: BaseBlock, fileType: Word)
  {
    && h[SIGNATURE] == HV_HBLOCK_SIGNATURE
    && h[MAJOR] == HSYS_MAJOR
    && h[MINOR] >= HSYS_MINOR
    && h[TYPE] == fileType
    && h[FORMAT] == HBASE_FORMAT_MEMORY
    && h[CLUSTER] == 1
    && Checksum(h) == h[CHECKSUM]
  }

  predicate VerifyHiveHeader(h: BaseBlock, fileType: Word)
  {
    !(|| h[SIGNATURE] != HV_HBLOCK_SIGNATURE
      || h[MAJOR] != HSYS_MAJOR
      || h[MINOR] < HSYS_MINOR
      || h[TYPE] != fileType
      || h[FORMAT] != HBASE_FORMAT_MEMORY
      || h[CLUSTER] != 1
      || h[SEQUENCE1] != h[SEQUENCE2]
      || Checksum(h) != h[CHECKSUM])
  }

  /** The fields a header in memory keeps whatever is flushed. */
  ghost predicate WellFormed(h: BaseBlock)
  {
    && |h| == HBLOCK
    && h[SIGNATURE] == HV_HBLOCK_SIGNATURE
    && h[MAJOR] == HSYS_MAJOR
    && h[MINOR] >= HSYS_MINOR
    && h[FORMAT] == HBASE_FORMAT_MEMORY
    && h[CLUSTER] == 1
  }

  /** The checksum does not cover itself. */
  lemma SealedChecksum(h: BaseBlock)
    ensures Checksum(h[CHECKSUM := Checksum(h)]) == Checksum(h)
  {
    assert h[CHECKSUM := Checksum(h)][..CHECKSUM] == h[..CHECKSUM];
  }

  /** Only the first sector of a header is checked. */
  lemma FirstSectorDecides(h: BaseBlock, fileType: Word)
    ensures SoundExceptSequences(h[..HSECTOR], fileType) <==> SoundExceptSequences(h, fileType)
    ensures VerifyHiveHeader(h[..HSECTOR], fileType) <==> VerifyHiveHeader(h, fileType)
  {
    assert h[..HSECTOR][..CHECKSUM] == h[..CHECKSUM];
  }

  /** A log's header made that of a hive file. */
  function Relabelled(h: BaseBlock): (r: BaseBlock)
    ensures |r| == |h| && r[LENGTH] == h[LENGTH] && r[SEQUENCE1] == h[SEQUENCE1] && r[SEQUENCE2] == h[SEQUENCE2]
  {
    var primary := h[TYPE := HFILE_TYPE_PRIMARY];
    primary[CHECKSUM := Checksum(primary)]
  }

  lemma RelabelledPasses(h: BaseBlock)
    requires VerifyHiveHeader(h, HFILE_TYPE_LOG)
    ensures VerifyHiveHeader(Relabelled(h), HFILE_TYPE_PRIMARY)
  {
    hide Checksum;
    SealedChecksum(h[TYPE := HFILE_TYPE_PRIMARY]);
  }

  /** What a header is built of when the log has none that will do: the sector read, or zeros. */
  function Rebuilt(h: BaseBlock, size: Word): (r: BaseBlock)
    ensures |r| == |h|
  {
    h[SIGNATURE := HV_HBLOCK_SIGNATURE][SEQUENCE1 := 1][SEQUENCE2 := 1][CLUSTER := 1][LENGTH := size]
  }

  /** The checksum is taken before the type is set. */
  function Resuscitated(h: BaseBlock, size: Word): (r: BaseBlock)
    ensures |r| == |h| && r[LENGTH] == size
  {
    Rebuilt(h, size)[CHECKSUM := Checksum(Rebuilt(h, size))][TYPE := HFILE_TYPE_PRIMARY]
  }

  /** The fields that are not built anew have to be right already, the type among them, unless the two checksums
      are among the few that are taken for each other. */
  lemma ResuscitatedPasses(h: BaseBlock, size: Word)
    ensures VerifyHiveHeader(Resuscitated(h, size), HFILE_TYPE_PRIMARY) <==>
      && h[MAJOR] == HSYS_MAJOR && h[MINOR] >= HSYS_MINOR && h[FORMAT] == HBASE_FORMAT_MEMORY
      && var built := Rebuilt(h, size);
         h[TYPE] != HFILE_TYPE_PRIMARY ==>
           {XorSum(built[..CHECKSUM]), XorSum(built[TYPE := HFILE_TYPE_PRIMARY][..CHECKSUM])} in {{0, 1}, {ALL_ONES - 1, ALL_ONES}}
  {
    var built, made := Rebuilt(h, size), Resuscitated(h, size);
    assert made[..CHECKSUM] == built[TYPE := HFILE_TYPE_PRIMARY][..CHECKSUM];
    assert Checksum(made) == Checksum(built[TYPE := HFILE_TYPE_PRIMARY]) && made[CHECKSUM] == Checksum(built);
    if h[TYPE] == HFILE_TYPE_PRIMARY {
      assert built[TYPE := HFILE_TYPE_PRIMARY] == built;
    } else {
      OneWordDamage(built, TYPE, HFILE_TYPE_PRIMARY);
    }
    hide Checksum;
  }

  /** Sequence numbers are 32-bit counters. */
  function Next(s: Word): (n: Word)
    ensures n != s
  {
    if s == ALL_ONES then 0 else s + 1
  }
}
