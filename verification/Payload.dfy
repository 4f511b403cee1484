/** The bytes of a cell's payload, in memory made of little-endian words. */
module Payload {
  import opened Cells

  function Word(mem: Mem, base: nat, k: nat): int
  {
    if base + 4 * k in mem then mem[base + 4 * k] else 0
  }

  /** Byte j of a word, in two's complement. */
  function Byte(w: int, j: nat): nat
    decreases j
  {
    if j == 0 then w % 256 else Byte(w / 256, j - 1)
  }

  /** A 32-bit word is its four bytes, the lowest first. */
  lemma FourBytes(w: int)
    ensures w % 0x1_0000_0000 == Byte(w, 0) + 0x100 * Byte(w, 1) + 0x1_0000 * Byte(w, 2) + 0x100_0000 * Byte(w, 3)
    ensures forall j: nat {:trigger Byte(w, j)} :: j < 4 ==> Byte(w, j) < 256
  {
    var w1 := w / 256;
    var w2 := w1 / 256;
    var w3 := w2 / 256;
    assert Byte(w, 1) == Byte(w1, 0) && Byte(w, 2) == Byte(w1, 1) == Byte(w2, 0);
    assert Byte(w, 3) == Byte(w1, 2) == Byte(w2, 1) == Byte(w3, 0);
    assert w == 0x1_0000_0000 * (w3 / 256) + 0x100_0000 * (w3 % 256) + 0x1_0000 * (w2 % 256) + 0x100 * (w1 % 256) + w % 256;
  }

  function ByteAt(mem: Mem, base: nat, i: nat): nat
  {
    Byte(Word(mem, base, i / 4), i % 4)
  }

  /** The first n bytes behind base' are those behind base. */
  ghost predicate SameBytes(mem: Mem, base: nat, mem': Mem, base': nat, n: nat)
  {
    forall i {:trigger ByteAt(mem', base', i)} :: 0 <= i < n ==> ByteAt(mem', base', i) == ByteAt(mem, base, i)
  }

  ghost predicate SameWords(mem: Mem, base: nat, mem': Mem, base': nat, n: nat)
  {
    forall k {:trigger Word(mem', base', k)} :: 0 <= k < n ==> Word(mem', base', k) == Word(mem, base, k)
  }

  ghost predicate HasWords(mem: Mem, base: nat, n: nat)
  {
    forall k {:trigger Word(mem, base, k)} :: 0 <= k < n ==> base + 4 * k in mem
  }

  /** A word whose first n bytes have been overwritten. */
  function Overwritten(w: int, source: int, n: nat): int
    decreases n
  {
    if n == 0 then w else 256 * Overwritten(w / 256, source / 256, n - 1) + source % 256
  }

  lemma {:induction false} OverwrittenBytes(w: int, source: int, n: nat, j: nat)
    decreases n
    ensures Byte(Overwritten(w, source, n), j) == if j < n then Byte(source, j) else Byte(w, j)
  {
    if n > 0 && j > 0 {
      OverwrittenBytes(w / 256, source / 256, n - 1, j - 1);
    }
  }

  /** Whole words, and the low bytes of the last one, make the bytes. */
  lemma BytesOfWords(mem: Mem, base: nat, mem': Mem, base': nat, n: nat)
    requires SameWords(mem, base, mem', base', n / 4)
    requires forall j :: 0 <= j < n % 4 ==> Byte(Word(mem', base', n / 4), j) == Byte(Word(mem, base, n / 4), j)
    ensures SameBytes(mem, base, mem', base', n)
  {
    hide Word, Byte;
    forall i | 0 <= i < n ensures ByteAt(mem', base', i) == ByteAt(mem, base, i) {
      if i / 4 < n / 4 {
        assert Word(mem', base', i / 4) == Word(mem, base, i / 4);
      } else {
        assert i / 4 == n / 4 && i % 4 < n % 4;
      }
    }
  }
}
