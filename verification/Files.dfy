/** Files of 32-bit words: what a file holds after some of it was written. */
module Files {
  import opened Words

  /** A file, by word address.  Addresses never written are missing, and a read that meets one fails. */
  type File = map<nat, Word>

  predicate Holds(f: File, at: nat, count: nat)
  {
    forall i :: at <= i < at + count ==> i in f
  }

  function Read(f: File, at: nat, count: nat): (data: seq<Word>)
    requires Holds(f, at, count)
    ensures |data| == count
    ensures forall i :: 0 <= i < count ==> data[i] == f[at + i]
  {
    seq(count, i requires 0 <= i < count => f[at + i])
  }

  predicate Within(i: nat, at: nat, count: nat)
  {
    at <= i < at + count
  }

  function Written(f: File, at: nat, data: seq<Word>): (g: File)
    ensures forall i {:trigger i in g} :: i in g <==> i in f || at <= i < at + |data|
    ensures forall i {:trigger g[i]} :: i in g ==> g[i] == if at <= i < at + |data| then data[i - at] else f[i]
  {
    f + map i: nat | at <= i < at + |data| && Within(i, at, |data|) :: data[i - at]
  }

  /** The file holds exactly this data at this address. */
  ghost predicate Contains(f: File, at: nat, data: seq<Word>)
  {
    Holds(f, at, |data|) && Read(f, at, |data|) == data
  }

  lemma WrittenContains(f: File, at: nat, data: seq<Word>)
    ensures Contains(Written(f, at, data), at, data)
  {
  }

  lemma WrittenElsewhere(f: File, at: nat, data: seq<Word>, other: nat, kept: seq<Word>)
    requires Contains(f, other, kept)
    requires other + |kept| <= at || at + |data| <= other
    ensures Contains(Written(f, at, data), other, kept)
  {
    forall i | 0 <= i < |kept| ensures Written(f, at, data)[other + i] == kept[i] {
      assert f[other + i] == Read(f, other, |kept|)[i];
    }
  }

  /** A read succeeds when the file holds everything asked for. */
  method FileRead(file: File, at: nat, count: nat) returns (success: bool, data: seq<Word>)
    ensures success <==> Holds(file, at, count)
    ensures data == if success then Read(file, at, count) else []
  {
    if Holds(file, at, count) {
      return true, Read(file, at, count);
    }
    return false, [];
  }

  // ----- bytes inside words

  type Byte = b: nat | b < 256

  /** Byte k of a word, lowest first. */
  function ByteOf(w: Word, k: nat): (b: Byte)
    requires k < 4
  {
    if k == 0 then w % 256 else if k == 1 then w / 256 % 256 else if k == 2 then w / 65536 % 256 else w / 16777216
  }

  function PackWord(b0: nat, b1: nat, b2: nat, b3: nat): (w: Word)
    requires b0 < 256 && b1 < 256 && b2 < 256 && b3 < 256
    ensures ByteOf(w, 0) == b0 && ByteOf(w, 1) == b1 && ByteOf(w, 2) == b2 && ByteOf(w, 3) == b3
  {
    var high := b2 + 256 * b3;
    var w := b0 + 256 * (b1 + 256 * high);
    assert w / 256 == b1 + 256 * high && w / 65536 == high && w / 16777216 == b3;
    w
  }

  /** A byte buffer as words. */
  function Pack(bytes: seq<Byte>): (words: seq<Word>)
    requires |bytes| % 4 == 0
    ensures |words| == |bytes| / 4
  {
    seq(|bytes| / 4, j requires 0 <= j < |bytes| / 4 =>
      PackWord(bytes[4 * j], bytes[4 * j + 1], bytes[4 * j + 2], bytes[4 * j + 3]))
  }

  /** Byte i of a buffer of words. */
  function ByteAt(words: seq<Word>, i: nat): Byte
    requires i / 4 < |words|
  {
    ByteOf(words[i / 4], i % 4)
  }

  lemma PackedByte(bytes: seq<Byte>, i: nat)
    requires |bytes| % 4 == 0 && i < |bytes|
    ensures ByteAt(Pack(bytes), i) == bytes[i]
  {
    hide ByteOf, PackWord;
    var j, k := i / 4, i % 4;
    assert Pack(bytes)[j] == PackWord(bytes[4 * j], bytes[4 * j + 1], bytes[4 * j + 2], bytes[4 * j + 3]);
    assert k == 0 || k == 1 || k == 2 || k == 3;
  }
}
