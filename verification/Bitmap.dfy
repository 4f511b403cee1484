/** The run-time library's bitmap: a buffer of 32-bit words read and written a word at a time,
    against its meaning as a sequence of bits. */
module Bitmaps {
  import Files
  import opened Words

  /** Returned when a search finds nothing. */
  const MAXINDEX: nat := 0xFFFF_FFFF

  // ----- the meaning of a buffer

  /** Bit i of a buffer of words. */
  predicate On(buffer: seq<Word>, i: nat)
  {
    i / 32 < |buffer| && Bit(buffer[i / 32], i % 32)
  }

  function BitsOf(buffer: seq<Word>, size: nat): (bits: seq<bool>)
    ensures |bits| == size
    ensures forall i :: 0 <= i < size ==> bits[i] == On(buffer, i)
  {
    seq(size, i requires 0 <= i => On(buffer, i))
  }

  /** All bits from a up to but excluding b have the value v. */
  ghost predicate Uniform(bits: seq<bool>, a: nat, b: nat, v: bool)
  {
    b <= |bits| && forall i :: a <= i < b ==> bits[i] == v
  }

  /** bits with those from start up to start + count set to v: what setting or clearing a range means. */
  function Filled(bits: seq<bool>, start: nat, count: nat, v: bool): (r: seq<bool>)
    ensures |r| == |bits|
    ensures forall i :: 0 <= i < |bits| ==> r[i] == if start <= i < start + count then v else bits[i]
  {
    seq(|bits|, i requires 0 <= i < |bits| => if start <= i < start + count then v else bits[i])
  }

  /** n bits of the value v start at p. */
  ghost predicate RunOf(bits: seq<bool>, p: nat, n: nat, v: bool)
  {
    Uniform(bits, p, p + n, v)
  }

  /** n set bits start at p. */
  ghost predicate RunAt(bits: seq<bool>, p: nat, n: nat)
  {
    RunOf(bits, p, n, true)
  }

  /** The answer p of a search for n > 0 set bits from a hint: the first run at or after the hint, else
      the first run of all, else MAXINDEX. */
  ghost predicate FirstRun(bits: seq<bool>, n: nat, hint: nat, p: nat)
  {
    if exists q: nat :: hint <= q && RunAt(bits, q, n) then
      hint <= p && RunAt(bits, p, n) && forall q: nat :: hint <= q < p ==> !RunAt(bits, q, n)
    else if exists q: nat :: RunAt(bits, q, n) then
      RunAt(bits, p, n) && forall q: nat :: q < p ==> !RunAt(bits, q, n)
    else
      p == MAXINDEX
  }

  /** The number of set bits below i. */
  function Rank(bits: seq<bool>, i: nat): (r: nat)
    requires i <= |bits|
    ensures r <= i
  {
    if i == 0 then 0 else Rank(bits, i - 1) + if bits[i - 1] then 1 else 0
  }

  /** The number of set bits of each byte, by its high and its low half. */
  const BIT_COUNT_TABLE: seq<seq<nat>> := [
    [0, 1, 1, 2, 1, 2, 2, 3, 1, 2, 2, 3, 2, 3, 3, 4],
    [1, 2, 2, 3, 2, 3, 3, 4, 2, 3, 3, 4, 3, 4, 4, 5],
    [1, 2, 2, 3, 2, 3, 3, 4, 2, 3, 3, 4, 3, 4, 4, 5],
    [2, 3, 3, 4, 3, 4, 4, 5, 3, 4, 4, 5, 4, 5, 5, 6],
    [1, 2, 2, 3, 2, 3, 3, 4, 2, 3, 3, 4, 3, 4, 4, 5],
    [2, 3, 3, 4, 3, 4, 4, 5, 3, 4, 4, 5, 4, 5, 5, 6],
    [2, 3, 3, 4, 3, 4, 4, 5, 3, 4, 4, 5, 4, 5, 5, 6],
    [3, 4, 4, 5, 4, 5, 5, 6, 4, 5, 5, 6, 5, 6, 6, 7],
    [1, 2, 2, 3, 2, 3, 3, 4, 2, 3, 3, 4, 3, 4, 4, 5],
    [2, 3, 3, 4, 3, 4, 4, 5, 3, 4, 4, 5, 4, 5, 5, 6],
    [2, 3, 3, 4, 3, 4, 4, 5, 3, 4, 4, 5, 4, 5, 5, 6],
    [3, 4, 4, 5, 4, 5, 5, 6, 4, 5, 5, 6, 5, 6, 6, 7],
    [2, 3, 3, 4, 3, 4, 4, 5, 3, 4, 4, 5, 4, 5, 5, 6],
    [3, 4, 4, 5, 4, 5, 5, 6, 4, 5, 5, 6, 5, 6, 6, 7],
    [3, 4, 4, 5, 4, 5, 5, 6, 4, 5, 5, 6, 5, 6, 6, 7],
    [4, 5, 5, 6, 5, 6, 6, 7, 5, 6, 6, 7, 6, 7, 7, 8]]

  class Bitmap {
    var SizeOfBitMap: nat
    var Buffer: array<Word>

    ghost predicate Valid()
      reads this
    {
      SizeOfBitMap <= Buffer.Length * 32 && SizeOfBitMap < MAXINDEX
    }

    ghost function Bits(): (bits: seq<bool>)
      reads this, Buffer
      ensures |bits| == SizeOfBitMap
    {
      BitsOf(Buffer[..], SizeOfBitMap)
    }

    constructor (size: nat, buffer: array<Word>)
      requires size <= buffer.Length * 32 && size < MAXINDEX
      ensures Valid() && SizeOfBitMap == size && Buffer == buffer
    {
      SizeOfBitMap, Buffer := size, buffer;
    }

    /** The number of clear bits from startingIndex on: exact when it is below maxLength, and otherwise
        at least maxLength or all the rest of the bitmap. */
    method GetLengthOfRunClear(startingIndex: nat, maxLength: nat) returns (length: nat)
      requires Valid() && startingIndex <= SizeOfBitMap
      ensures startingIndex + length <= SizeOfBitMap
      ensures Uniform(Bits(), startingIndex, startingIndex + length, false)
      ensures startingIndex + length < SizeOfBitMap && length < maxLength ==> Bits()[startingIndex + length] == true
    {
      hide Bit, On, Shl, Shr, BitNot;
      if startingIndex >= SizeOfBitMap {
        return 0;
      }
      var buffer := startingIndex / 32;
      var bitPos := startingIndex % 32;
      var max := if maxLength < SizeOfBitMap - startingIndex then maxLength else SizeOfBitMap - startingIndex;
      var maxBuffer := buffer + (bitPos + max + 31) / 32;

      // bits below the start do not belong to this run
      ghost var words := Buffer[..];
      var value := Shl(Shr(Buffer[buffer], bitPos), bitPos);
      MaskedWord(words, startingIndex, Buffer[buffer], value, true);
      buffer := buffer + 1;

      while value == 0 && buffer < maxBuffer
        invariant startingIndex / 32 < buffer <= Buffer.Length
        invariant buffer <= maxBuffer || buffer == startingIndex / 32 + 1
        invariant WordFrom(words, startingIndex, buffer - 1, value, true)
        invariant forall i: nat :: startingIndex <= i < (buffer - 1) * 32 ==> On(words, i) == false
        decreases maxBuffer - buffer
      {
        NoStop(words, startingIndex, buffer - 1, true);
        value := Buffer[buffer];
        PlainWord(words, startingIndex, buffer, value, true);
        buffer := buffer + 1;
      }
      if value == 0 {
        NoStop(words, startingIndex, buffer - 1, true);
        return max;
      }
      var pos, _ := BitScanForward(value);
      FirstStop(words, startingIndex, buffer - 1, value, pos, true);
      length := buffer * 32 - startingIndex + pos - 32;
      if length > SizeOfBitMap - startingIndex {
        length := SizeOfBitMap - startingIndex;
      }
    }

    /** The same for set bits, scanning the complement of each word. */
    method GetLengthOfRunSet(startingIndex: nat, maxLength: nat) returns (length: nat)
      requires Valid() && startingIndex <= SizeOfBitMap
      ensures startingIndex + length <= SizeOfBitMap
      ensures Uniform(Bits(), startingIndex, startingIndex + length, true)
      ensures startingIndex + length < SizeOfBitMap && length < maxLength ==> Bits()[startingIndex + length] == false
    {
      hide Bit, On, Shl, Shr, BitNot;
      if startingIndex >= SizeOfBitMap {
        return 0;
      }
      var buffer := startingIndex / 32;
      var bitPos := startingIndex % 32;
      var max := if maxLength < SizeOfBitMap - startingIndex then maxLength else SizeOfBitMap - startingIndex;
      var maxBuffer := buffer + (bitPos + max + 31) / 32;

      // the complement of the word, without the bits below the start
      ghost var words := Buffer[..];
      var value := Shl(Shr(BitNot(Buffer[buffer]), bitPos), bitPos);
      MaskedWord(words, startingIndex, BitNot(Buffer[buffer]), value, false);
      buffer := buffer + 1;

      while value == 0 && buffer < maxBuffer
        invariant startingIndex / 32 < buffer <= Buffer.Length
        invariant buffer <= maxBuffer || buffer == startingIndex / 32 + 1
        invariant WordFrom(words, startingIndex, buffer - 1, value, false)
        invariant forall i: nat :: startingIndex <= i < (buffer - 1) * 32 ==> On(words, i) == true
        decreases maxBuffer - buffer
      {
        NoStop(words, startingIndex, buffer - 1, false);
        value := BitNot(Buffer[buffer]);
        PlainWord(words, startingIndex, buffer, value, false);
        buffer := buffer + 1;
      }
      if value == 0 {
        NoStop(words, startingIndex, buffer - 1, false);
        return max;
      }
      var pos, _ := BitScanForward(value);
      FirstStop(words, startingIndex, buffer - 1, value, pos, false);
      length := buffer * 32 - startingIndex + pos - 32;
      if length > SizeOfBitMap - startingIndex {
        length := SizeOfBitMap - startingIndex;
      }
    }

    /** RtlNumberOfSetBits: byte by byte through a table; of the last byte only the bits that belong to the
        bitmap are counted. */
    method NumberOfSetBits() returns (bitCount: nat)
      requires Valid()
      ensures bitCount == Rank(Bits(), SizeOfBitMap)
    {
      hide Bit, On, Rank;
      bitCount := 0;
      NoneCounted(Bits());
      for i := 0 to SizeOfBitMap / 8
        invariant bitCount == Rank(Bits(), 8 * i)
      {
        var count := CountByte(i, 8);
        bitCount := bitCount + count;
      }
      if SizeOfBitMap % 8 != 0 {
        var count := CountByte(SizeOfBitMap / 8, SizeOfBitMap % 8);
        bitCount := bitCount + count;
      }
    }

    /** The set bits among the first n of byte i. */
    method CountByte(i: nat, n: nat) returns (count: nat)
      requires Valid() && 0 < n <= 8 && 8 * i + n <= SizeOfBitMap
      ensures Rank(Bits(), 8 * i) + count == Rank(Bits(), 8 * i + n)
    {
      InBuffer(SizeOfBitMap, Buffer.Length, i);
      hide *;
      count := LowBitCount(Files.ByteOf(Buffer[i / 4], i % 4), n);
      ByteCounted(Buffer[..], SizeOfBitMap, i, n);
    }

    /** RtlFindSetBits: the search from the hint, then once more from the start when the hint was not 0. */
    method FindSetBits(numberToFind: nat, hintIndex: nat) returns (index: nat)
      requires Valid()
      ensures numberToFind > SizeOfBitMap ==> index == MAXINDEX
      ensures numberToFind == 0 ==> index == (if hintIndex < SizeOfBitMap then hintIndex / 8 * 8 else 0)
      ensures 0 < numberToFind <= SizeOfBitMap ==>
                FirstRun(Bits(), numberToFind, if hintIndex < SizeOfBitMap then hintIndex else 0, index)
    {
      if numberToFind > SizeOfBitMap {
        return MAXINDEX;
      }
      var hint := if hintIndex >= SizeOfBitMap then 0 else hintIndex;
      if numberToFind == 0 {
        return hint / 8 * 8;
      }
      ghost var bits, first := Bits(), hint;
      var margin := SizeOfBitMap;
      while true
        invariant margin <= SizeOfBitMap
        invariant margin == SizeOfBitMap || margin == first + numberToFind
        invariant hint == 0 || hint == first
        invariant hint == first ==> margin == SizeOfBitMap
        invariant hint != first ==> forall q: nat :: first <= q ==> !RunAt(bits, q, numberToFind)
        decreases hint
      {
        var currentBit := hint;
        while currentBit + numberToFind <= margin
          invariant hint <= currentBit <= SizeOfBitMap
          invariant forall q: nat :: hint <= q < currentBit ==> !RunAt(bits, q, numberToFind)
          decreases SizeOfBitMap - currentBit
        {
          ghost var from := currentBit;
          var skipped := GetLengthOfRunClear(currentBit, MAXINDEX);
          currentBit := currentBit + skipped;
          var currentLength := GetLengthOfRunSet(currentBit, numberToFind);
          NoRunWithin(bits, from, currentBit, currentLength, numberToFind);
          if currentLength >= numberToFind {
            return currentBit;
          }
          currentBit := currentBit + currentLength;
        }
        if hint == 0 {
          forall q: nat ensures !RunAt(bits, q, numberToFind) {
            if currentBit <= q < first || first == 0 {
              assert q < currentBit || q + numberToFind > SizeOfBitMap;
            }
          }
          break;
        }
        margin := if hint + numberToFind < SizeOfBitMap then hint + numberToFind else SizeOfBitMap;
        hint := 0;
      }
      return MAXINDEX;
    }

    /** The next run of clear bits at or after fromIndex: its start and its length. */
    method FindNextForwardRunClear(fromIndex: nat) returns (number: nat, startingRunIndex: nat)
      requires Valid()
      ensures fromIndex >= SizeOfBitMap ==> number == 0 && startingRunIndex == fromIndex
      ensures fromIndex < SizeOfBitMap ==> NextRun(Bits(), fromIndex, startingRunIndex, number, false)
    {
      if fromIndex >= SizeOfBitMap {
        return 0, fromIndex;
      }
      var length := GetLengthOfRunSet(fromIndex, MAXINDEX);
      startingRunIndex := fromIndex + length;
      number := GetLengthOfRunClear(fromIndex + length, MAXINDEX);
    }

    /** The first of the longest runs of clear bits, although each step advances by the run's length only and so may
        scan part of a run again.  The caller's variable keeps its value when there is no such bit. */
    method FindLongestRunClear(initial: nat) returns (number: nat, startingIndex: nat)
      requires Valid()
      ensures number > 0 ==> Uniform(Bits(), startingIndex, startingIndex + number, false)
      ensures number == 0 ==> startingIndex == initial
      ensures forall p: nat, n: nat :: RunOf(Bits(), p, n, false) ==> n <= number
      ensures forall p: nat, n: nat :: number > 0 && p < startingIndex && RunOf(Bits(), p, n, false) ==> n < number
    {
      number, startingIndex := 0, initial;
      var fromIndex := 0;
      while true
        invariant fromIndex <= SizeOfBitMap
        invariant number > 0 ==> Uniform(Bits(), startingIndex, startingIndex + number, false)
        invariant number == 0 ==> startingIndex == initial
        invariant forall p: nat, n: nat :: p < fromIndex && RunOf(Bits(), p, n, false) ==> n <= number
        invariant forall p: nat, n: nat :: number > 0 && p < startingIndex && RunOf(Bits(), p, n, false) ==> n < number
        decreases SizeOfBitMap - fromIndex
      {
        var numberOfBits, index := FindNextForwardRunClear(fromIndex);
        if fromIndex < SizeOfBitMap { RunsFrom(Bits(), fromIndex, index, numberOfBits, false); }
        if numberOfBits == 0 {
          break;
        }
        if numberOfBits > number {
          number, startingIndex := numberOfBits, index;
        }
        fromIndex := fromIndex + numberOfBits;
      }
    }

    /** The next run of set bits at or after fromIndex: its start and its length. */
    method FindNextForwardRunSet(fromIndex: nat) returns (number: nat, startingRunIndex: nat)
      requires Valid()
      ensures fromIndex >= SizeOfBitMap ==> number == 0 && startingRunIndex == fromIndex
      ensures fromIndex < SizeOfBitMap ==> NextRun(Bits(), fromIndex, startingRunIndex, number, true)
    {
      if fromIndex >= SizeOfBitMap {
        return 0, fromIndex;
      }
      var length := GetLengthOfRunClear(fromIndex, MAXINDEX);
      startingRunIndex := fromIndex + length;
      number := GetLengthOfRunSet(fromIndex + length, MAXINDEX);
    }

    /** The first of the longest runs of set bits, although each step advances by the run's length only and so may
        scan part of a run again.  The caller's variable keeps its value when there is no such bit. */
    method FindLongestRunSet(initial: nat) returns (number: nat, startingIndex: nat)
      requires Valid()
      ensures number > 0 ==> Uniform(Bits(), startingIndex, startingIndex + number, true)
      ensures number == 0 ==> startingIndex == initial
      ensures forall p: nat, n: nat :: RunOf(Bits(), p, n, true) ==> n <= number
      ensures forall p: nat, n: nat :: number > 0 && p < startingIndex && RunOf(Bits(), p, n, true) ==> n < number
    {
      number, startingIndex := 0, initial;
      var fromIndex := 0;
      while true
        invariant fromIndex <= SizeOfBitMap
        invariant number > 0 ==> Uniform(Bits(), startingIndex, startingIndex + number, true)
        invariant number == 0 ==> startingIndex == initial
        invariant forall p: nat, n: nat :: p < fromIndex && RunOf(Bits(), p, n, true) ==> n <= number
        invariant forall p: nat, n: nat :: number > 0 && p < startingIndex && RunOf(Bits(), p, n, true) ==> n < number
        decreases SizeOfBitMap - fromIndex
      {
        var numberOfBits, index := FindNextForwardRunSet(fromIndex);
        if fromIndex < SizeOfBitMap { RunsFrom(Bits(), fromIndex, index, numberOfBits, true); }
        if numberOfBits == 0 {
          break;
        }
        if numberOfBits > number {
          number, startingIndex := numberOfBits, index;
        }
        fromIndex := fromIndex + numberOfBits;
      }
    }

    /** memset over a buffer of words: count bytes, all ones or all zeros, from the given word on.  The
        last bytes may cover only the low part of a word. */
    method FillBytes(word: nat, count: nat, v: bool)
      requires word * 32 + count * 8 <= Buffer.Length * 32
      modifies Buffer
      ensures RangeSet(old(Buffer[..]), Buffer[..], word * 32, word * 32 + count * 8, v)
    {
      hide Bit, On, BitOr, BitAnd, Shl, BitNot;
      var i := 0;
      while i < count / 4
        invariant i <= count / 4
        invariant RangeSet(old(Buffer[..]), Buffer[..], word * 32, (word + i) * 32, v)
      {
        ghost var before := Buffer[..];
        Buffer[word + i] := if v then ALL_ONES else 0;
        FullWord(Buffer[word + i], v);
        WordUpdate(before, word + i, Buffer[word + i], (word + i) * 32, (word + i + 1) * 32, v);
        assert Buffer[..] == before[word + i := Buffer[word + i]];
        Extend(old(Buffer[..]), before, Buffer[..], word * 32, (word + i) * 32, (word + i) * 32, (word + i + 1) * 32, v);
        i := i + 1;
      }
      if count % 4 != 0 {
        MaskTail(word + i, count % 4 * 8, v);
      }
    }

    /** The low bits of one word, set or cleared through a mask. */
    method MaskTail(word: nat, bits: nat, v: bool)
      requires word < Buffer.Length && 0 < bits < 32
      modifies Buffer
      ensures RangeSet(old(Buffer[..]), Buffer[..], word * 32, word * 32 + bits, v)
    {
      hide Bit, On, BitOr, BitAnd, Shl, BitNot;
      ghost var before := Buffer[..];
      var mask := Shl(ALL_ONES, bits);
      Buffer[word] := if v then BitOr(Buffer[word], BitNot(mask)) else BitAnd(Buffer[word], mask);
      forall k: nat | k < 32 ensures Bit(Buffer[word], k) <==> if k < bits then v else Bit(before[word], k) {
        OnesAbove(bits, k);
      }
      WordUpdate(before, word, Buffer[word], word * 32, word * 32 + bits, v);
      assert Buffer[..] == before[word := Buffer[word]];
    }

    /** One word with the bits of the mask set (or cleared). */
    method ApplyMask(word: nat, mask: Word, ghost a: nat, ghost b: nat, v: bool)
      requires word < Buffer.Length && word * 32 <= a && b <= (word + 1) * 32
      requires forall k: nat :: k < 32 ==> (Bit(mask, k) <==> a <= word * 32 + k < b)
      modifies Buffer
      ensures RangeSet(old(Buffer[..]), Buffer[..], a, b, v)
    {
      hide Bit, On, BitOr, BitAnd, BitNot;
      ghost var before := Buffer[..];
      Buffer[word] := if v then BitOr(Buffer[word], mask) else BitAnd(Buffer[word], BitNot(mask));
      WordUpdate(before, word, Buffer[word], a, b, v);
      assert Buffer[..] == before[word := Buffer[word]];
    }

    /** The aligned part of setting or clearing a range: whole words by a byte count, then what is left. */
    method FillFrom(word: nat, number: nat, v: bool)
      requires word * 32 + number <= Buffer.Length * 32
      modifies Buffer
      ensures RangeSet(old(Buffer[..]), Buffer[..], word * 32, word * 32 + number, v)
    {
      hide Bit, On;
      FillBytes(word, number / 8, v);
      if number % 32 != 0 {
        ghost var between := Buffer[..];
        var last := word + number / 32;
        MaskTail(last, number % 32, v);
        Extend(old(Buffer[..]), between, Buffer[..], word * 32, word * 32 + number / 8 * 8, last * 32, last * 32 + number % 32, v);
      }
    }

    /** Sets exactly the bits from startingIndex up to startingIndex + number. */
    method SetBits(startingIndex: nat, number: nat)
      requires Valid() && startingIndex + number <= SizeOfBitMap
      modifies Buffer
      ensures Bits() == Filled(old(Bits()), startingIndex, number, true)
    {
      hide Bit, On, BitOr, BitAnd, Shl, Shr, BitNot;
      ghost var before := Buffer[..];
      var buffer := startingIndex / 32;
      var bits := startingIndex % 32;
      var left := number;
      if bits != 0 {
        var mask := Shl(ALL_ONES, bits);
        bits := 32 - bits;
        if left < bits {
          bits := bits - left;
          mask := Shr(Shl(mask, bits), bits);
          MiddleMask(startingIndex % 32, bits);
          ApplyMask(buffer, mask, startingIndex, startingIndex + number, true);
          FilledBits(before, Buffer[..], SizeOfBitMap, startingIndex, number, true);
          return;
        }
        UpperMask(startingIndex % 32);
        ApplyMask(buffer, mask, startingIndex, (buffer + 1) * 32, true);
        buffer := buffer + 1;
        left := left - bits;
      }
      ghost var between := Buffer[..];
      FillFrom(buffer, left, true);
      Extend(before, between, Buffer[..], startingIndex, buffer * 32, buffer * 32, buffer * 32 + left, true);
      FilledBits(before, Buffer[..], SizeOfBitMap, startingIndex, number, true);
    }

    /** Clears exactly the bits from startingIndex up to startingIndex + number. */
    method ClearBits(startingIndex: nat, number: nat)
      requires Valid() && startingIndex + number <= SizeOfBitMap
      modifies Buffer
      ensures Bits() == Filled(old(Bits()), startingIndex, number, false)
    {
      hide Bit, On, BitOr, BitAnd, Shl, Shr, BitNot;
      ghost var before := Buffer[..];
      var buffer := startingIndex / 32;
      var bits := startingIndex % 32;
      var left := number;
      if bits != 0 {
        var mask := Shl(ALL_ONES, bits);
        bits := 32 - bits;
        if left < bits {
          bits := bits - left;
          mask := Shr(Shl(mask, bits), bits);
          MiddleMask(startingIndex % 32, bits);
          ApplyMask(buffer, mask, startingIndex, startingIndex + number, false);
          FilledBits(before, Buffer[..], SizeOfBitMap, startingIndex, number, false);
          return;
        }
        UpperMask(startingIndex % 32);
        ApplyMask(buffer, mask, startingIndex, (buffer + 1) * 32, false);
        buffer := buffer + 1;
        left := left - bits;
      }
      ghost var between := Buffer[..];
      FillFrom(buffer, left, false);
      Extend(before, between, Buffer[..], startingIndex, buffer * 32, buffer * 32, buffer * 32 + left, false);
      FilledBits(before, Buffer[..], SizeOfBitMap, startingIndex, number, false);
    }

    /** RtlClearAllBits and RtlSetAllBits: the fill covers every word that holds a bit. */
    method FillAll(v: bool)
      requires Valid()
      modifies Buffer
      ensures Bits() == Filled(old(Bits()), 0, SizeOfBitMap, v)
    {
      var lengthInUlongs := (SizeOfBitMap + 31) / 32;
      ghost var before := Buffer[..];
      FillBytes(0, lengthInUlongs * 4, v);
      hide On;
      forall i | 0 <= i < SizeOfBitMap ensures Bits()[i] == v {
        assert On(Buffer[..], i) == v;
      }
    }
  }

  // ----- counting

  /** The number of set bits among the lowest n of w. */
  function Ones(w: nat, n: nat): nat
  {
    if n == 0 then 0 else w % 2 + Ones(w / 2, n - 1)
  }

  lemma NoneCounted(bits: seq<bool>)
    ensures Rank(bits, 0) == 0
  {
  }

  lemma {:induction false} RankOnes(bits: seq<bool>, a: nat, w: nat, n: nat)
    requires a + n <= |bits| && forall m: nat {:trigger Bit(w, m)} :: m < n ==> bits[a + m] == Bit(w, m)
    ensures Rank(bits, a + n) == Rank(bits, a) + Ones(w, n)
    decreases n
  {
    if n > 0 {
      assert bits[a + 0] == Bit(w, 0);
      forall m: nat | m < n - 1 ensures bits[a + 1 + m] == Bit(w / 2, m) { assert bits[a + (m + 1)] == Bit(w, m + 1); }
      RankOnes(bits, a + 1, w / 2, n - 1);
    }
  }

  /** A number made of a high and a low part. */
  lemma {:induction false} OnesOfParts(high: nat, low: nat, n: nat, m: nat)
    requires low < Power(n)
    ensures Ones(Power(n) * high + low, n + m) == Ones(low, n) + Ones(high, m)
  {
    if n > 0 {
      Halved(Power(n - 1) * high, low);
      assert Power(n) * high == 2 * (Power(n - 1) * high);
      OnesOfParts(high, low / 2, n - 1, m);
    }
  }

  lemma {:induction false} BitsOfParts(high: nat, low: nat, n: nat, k: nat)
    requires low < Power(n)
    ensures Bit(Power(n) * high + low, k) <==> if k < n then Bit(low, k) else Bit(high, k - n)
  {
    if n > 0 {
      Halved(Power(n - 1) * high, low);
      assert Power(n) * high == 2 * (Power(n - 1) * high);
      if k > 0 { BitsOfParts(high, low / 2, n - 1, k - 1); }
    }
  }

  lemma Halved(z: nat, low: nat)
    ensures (2 * z + low) / 2 == z + low / 2 && (2 * z + low) % 2 == low % 2
  {
  }

  /** A row of the table: that of the high half 0, with what the high half has added. */
  function Row(base: nat): seq<nat>
  {
    [base, base + 1, base + 1, base + 2, base + 1, base + 2, base + 2, base + 3,
     base + 1, base + 2, base + 2, base + 3, base + 2, base + 3, base + 3, base + 4]
  }

  lemma OneMoreOne(w: nat, n: nat)
    ensures Ones(w, n + 1) == w % 2 + Ones(w / 2, n) && Ones(w, 0) == 0
  {
  }

  lemma FourOnes(x: nat)
    ensures Ones(x, 4) == x % 2 + x / 2 % 2 + x / 2 / 2 % 2 + x / 2 / 2 / 2 % 2
  {
    OneMoreOne(x, 3);
    OneMoreOne(x / 2, 2);
    OneMoreOne(x / 2 / 2, 1);
    OneMoreOne(x / 2 / 2 / 2, 0);
    hide Ones;
  }

  lemma RowEntry(base: nat, x: nat)
    requires x < 16
    ensures |Row(base)| == 16 && Row(base)[x] == base + Ones(x, 4)
  {
    FourOnes(x);
    hide Ones;
  }

  lemma TableRow(x: nat)
    requires x < 16
    ensures |BIT_COUNT_TABLE| == 16 && BIT_COUNT_TABLE[x] == Row(Row(0)[x])
  {
  }

  lemma TableEntry(b: nat)
    requires b < 256
    ensures |BIT_COUNT_TABLE| == 16 && |BIT_COUNT_TABLE[b / 16]| == 16
    ensures BIT_COUNT_TABLE[b / 16][b % 16] == Ones(b, 8)
  {
    assert Power(4) == 16;
    OnesOfParts(b / 16, b % 16, 4, 4);
    TableRow(b / 16);
    RowEntry(0, b / 16);
    hide Ones, Row;
    RowEntry(Row(0)[b / 16], b % 16);
  }

  /** The table's entry for a byte. */
  function BitCount(b: nat): (n: nat)
    requires b < 256
    ensures n == Ones(b, 8)
  {
    TableEntry(b);
    BIT_COUNT_TABLE[b / 16][b % 16]
  }

  lemma {:induction false} ShiftedOnes(w: nat, s: nat, n: nat)
    requires s <= n
    ensures Ones(ShiftLeft(w, s, n), n) == Ones(w, n - s)
  {
    if n > 0 {
      var high := if s > 0 then ShiftLeft(w, s - 1, n - 1) else ShiftLeft(w / 2, 0, n - 1);
      var low := if s > 0 then 0 else w % 2;
      assert ShiftLeft(w, s, n) == 2 * high + low;
      Halved(high, low);
      OneMoreOne(2 * high + low, n - 1);
      OneMoreOne(w, n - 1);
      hide Bit, Ones, ShiftLeft;
      if s > 0 { ShiftedOnes(w, s - 1, n - 1); } else { ShiftedOnes(w / 2, 0, n - 1); }
    }
  }

  lemma LowByte(w: nat, k: nat)
    ensures Bit(w, k) <==> if k < 8 then Bit(w % 256, k) else Bit(w / 256, k - 8)
  {
    assert Power(8) == 256;
    hide Bit;
    BitsOfParts(w / 256, w % 256, 8, k);
  }

  lemma ByteBit(w: Word, k: nat, m: nat)
    requires k < 4 && m < 8
    ensures Bit(Files.ByteOf(w, k), m) <==> Bit(w, 8 * k + m)
  {
    hide Bit;
    Bytes(w);
    LowByte(w, 8 * k + m);
    if k > 0 { LowByte(w / 256, 8 * k - 8 + m); }
    if k > 1 { LowByte(w / 65536, 8 * k - 16 + m); }
  }

  lemma Bytes(w: nat)
    ensures w / 256 / 256 == w / 65536 && w / 65536 / 256 == w / 16777216
  {
  }

  lemma BytePlace(i: nat, m: nat)
    requires m < 8
    ensures (8 * i + m) / 32 == i / 4 && (8 * i + m) % 32 == 8 * (i % 4) + m
  {
  }

  /** The set bits among the lowest n of a byte: the others are shifted out of it. */
  function LowBitCount(b: nat, n: nat): (count: nat)
    requires b < 256 && 0 < n <= 8
    ensures count == Ones(b, n)
  {
    ShiftedOnes(b, 8 - n, 8);
    assert Power(8) == 256;
    if n < 8 then BitCount(ShiftLeft(b, 8 - n, 8)) else BitCount(b)
  }

  lemma InBuffer(size: nat, length: nat, i: nat)
    requires size <= length * 32 && 8 * i < size
    ensures i / 4 < length
  {
  }

  /** Byte i holds n of the bitmap's bits. */
  lemma ByteCounted(words: seq<Word>, size: nat, i: nat, n: nat)
    requires i / 4 < |words| && n <= 8 && 8 * i + n <= size
    ensures Rank(BitsOf(words, size), 8 * i + n) == Rank(BitsOf(words, size), 8 * i) + Ones(Files.ByteOf(words[i / 4], i % 4), n)
  {
    hide Bit, Rank, Ones, Files.ByteOf;
    var b, bits := Files.ByteOf(words[i / 4], i % 4), BitsOf(words, size);
    forall m: nat | m < n ensures bits[8 * i + m] == Bit(b, m) {
      BytePlace(i, m);
      ByteBit(words[i / 4], i % 4, m);
    }
    RankOnes(bits, 8 * i, b, n);
  }

  // ----- searching

  /** The next run of the value v from a position on: everything before it has the other value, and it
      cannot be made longer. */
  ghost predicate NextRun(bits: seq<bool>, from: nat, start: nat, length: nat, v: bool)
  {
    && from <= start
    && Uniform(bits, from, start, !v)
    && Uniform(bits, start, start + length, v)
    && (start + length < |bits| ==> bits[start + length] != v)
    && (length == 0 ==> start == |bits|)
  }

  /** No run that starts in the next |length| positions is longer than the next run, and none starts before it. */
  lemma RunsFrom(bits: seq<bool>, from: nat, start: nat, length: nat, v: bool)
    requires NextRun(bits, from, start, length, v)
    ensures forall p: nat, n: nat :: from <= p && (p < from + length || length == 0) && RunOf(bits, p, n, v) ==> n <= length
    ensures forall p: nat, n: nat :: from <= p < start && RunOf(bits, p, n, v) ==> n == 0
  {
    forall p: nat, n: nat | from <= p && (p < from + length || p < start || length == 0) && RunOf(bits, p, n, v)
      ensures n <= length && (p < start ==> n == 0)
    {
      assert n == 0 || bits[p] == v;
    }
  }

  lemma NoRunWithin(bits: seq<bool>, from: nat, start: nat, length: nat, n: nat)
    requires n > 0 && from <= start && Uniform(bits, from, start, false) && Uniform(bits, start, start + length, true)
    requires start + length < |bits| && length < n ==> !bits[start + length]
    ensures forall q: nat :: from <= q < start ==> !RunAt(bits, q, n)
    ensures length < n ==> forall q: nat :: from <= q < start + length ==> !RunAt(bits, q, n)
    ensures length >= n ==> RunAt(bits, start, n)
  {
    forall q: nat | from <= q < start + length && (q < start || length < n) ensures !RunAt(bits, q, n) {
      if q < start {
        assert !bits[q];
      } else if start + length < |bits| {
        assert !bits[start + length];
      }
    }
  }

  // ----- reading words

  /** value marks the bits of word number w of the buffer, from the start on, that have the value v. */
  ghost predicate WordFrom(words: seq<Word>, start: nat, w: nat, value: Word, v: bool)
  {
    w < |words| && forall k: nat :: k < 32 ==> (Bit(value, k) <==> start <= w * 32 + k && On(words, w * 32 + k) == v)
  }

  /** mark is the word itself, or its complement when the bits looked for are clear. */
  ghost predicate Marks(mark: Word, word: Word, v: bool)
  {
    forall k: nat :: k < 32 ==> (Bit(mark, k) <==> Bit(word, k) == v)
  }

  lemma WordIndex(w: nat, k: nat)
    requires k < 32
    ensures (w * 32 + k) / 32 == w && (w * 32 + k) % 32 == k
  {
  }

  lemma MaskedWord(words: seq<Word>, start: nat, mark: Word, value: Word, v: bool)
    requires start / 32 < |words| && Marks(mark, words[start / 32], v)
    requires value == Shl(Shr(mark, start % 32), start % 32)
    ensures WordFrom(words, start, start / 32, value, v)
  {
    hide Bit, Shl, Shr;
    var w, p := start / 32, start % 32;
    forall k: nat | k < 32 ensures Bit(value, k) <==> start <= w * 32 + k && On(words, w * 32 + k) == v {
      WordIndex(w, k);
      if p <= k { assert Bit(Shr(mark, p), k - p) <==> Bit(mark, (k - p) + p); }
    }
  }

  lemma PlainWord(words: seq<Word>, start: nat, w: nat, mark: Word, v: bool)
    requires start / 32 < w < |words| && Marks(mark, words[w], v)
    ensures WordFrom(words, start, w, mark, v)
  {
    hide Bit;
    forall k: nat | k < 32 ensures Bit(mark, k) <==> start <= w * 32 + k && On(words, w * 32 + k) == v {
      WordIndex(w, k);
    }
  }

  lemma NoStop(words: seq<Word>, start: nat, w: nat, v: bool)
    requires WordFrom(words, start, w, 0, v)
    ensures forall i: nat :: w * 32 <= i < (w + 1) * 32 && start <= i ==> On(words, i) != v
  {
    forall i: nat | w * 32 <= i < (w + 1) * 32 && start <= i ensures On(words, i) != v {
      ZeroBit(i - w * 32);
      hide Bit;
      assert i == w * 32 + (i - w * 32);
    }
  }

  lemma FirstStop(words: seq<Word>, start: nat, w: nat, value: Word, pos: nat, v: bool)
    requires WordFrom(words, start, w, value, v)
    requires pos < 32 && Bit(value, pos) && forall k: nat :: k < pos ==> !Bit(value, k)
    ensures start <= w * 32 + pos && On(words, w * 32 + pos) == v
    ensures forall i: nat :: w * 32 <= i < w * 32 + pos && start <= i ==> On(words, i) != v
  {
    hide Bit, On;
    forall i: nat | w * 32 <= i < w * 32 + pos && start <= i ensures On(words, i) != v {
      assert i == w * 32 + (i - w * 32) && !Bit(value, i - w * 32);
    }
  }

  // ----- writing words

  /** The two buffers agree except that the second has the value v on bits a up to b. */
  ghost predicate RangeSet(before: seq<Word>, after: seq<Word>, a: nat, b: nat, v: bool)
  {
    && |after| == |before|
    && forall i: nat :: i < |before| * 32 ==> On(after, i) == if a <= i < b then v else On(before, i)
  }

  lemma WordUpdate(before: seq<Word>, w: nat, x: Word, a: nat, b: nat, v: bool)
    requires w < |before| && w * 32 <= a && b <= (w + 1) * 32
    requires forall k: nat :: k < 32 ==> (Bit(x, k) <==> if a <= w * 32 + k < b then v else Bit(before[w], k))
    ensures RangeSet(before, before[w := x], a, b, v)
  {
    hide Bit;
    forall i: nat | i < |before| * 32 ensures On(before[w := x], i) == if a <= i < b then v else On(before, i) {
      assert i == i / 32 * 32 + i % 32;
    }
  }

  lemma Extend(before: seq<Word>, between: seq<Word>, after: seq<Word>, a: nat, b: nat, c: nat, d: nat, v: bool)
    requires RangeSet(before, between, a, b, v) && RangeSet(between, after, c, d, v)
    requires a <= c <= b <= d
    ensures RangeSet(before, after, a, d, v)
  {
  }

  lemma FilledBits(before: seq<Word>, after: seq<Word>, size: nat, start: nat, count: nat, v: bool)
    requires RangeSet(before, after, start, start + count, v) && size <= |before| * 32
    ensures BitsOf(after, size) == Filled(BitsOf(before, size), start, count, v)
  {
  }

  lemma FullWord(x: Word, v: bool)
    requires x == if v then ALL_ONES else 0
    ensures forall k: nat :: k < 32 ==> (Bit(x, k) <==> v)
  {
    hide Bit;
    forall k: nat | k < 32 ensures Bit(x, k) <==> v {
      AllOnesBits(k);
      ZeroBit(k);
    }
  }

  lemma OnesAbove(p: nat, k: nat)
    requires k < 32
    ensures Bit(Shl(ALL_ONES, p), k) <==> p <= k
  {
    hide Bit, Shl;
    if p <= k { AllOnesBits(k - p); }
  }

  lemma UpperMask(p: nat)
    ensures forall k: nat :: k < 32 ==> (Bit(Shl(ALL_ONES, p), k) <==> p <= k)
  {
    forall k: nat | k < 32 ensures Bit(Shl(ALL_ONES, p), k) <==> p <= k { OnesAbove(p, k); }
  }

  /** The mask of a range inside one word: ones from p on, with the top s bits cut off. */
  lemma MiddleMask(p: nat, s: nat)
    requires p < 32 && s < 32
    ensures forall k: nat :: k < 32 ==> (Bit(Shr(Shl(Shl(ALL_ONES, p), s), s), k) <==> p <= k < 32 - s)
  {
    hide Bit, Shl, Shr;
    forall k: nat | k < 32 ensures Bit(Shr(Shl(Shl(ALL_ONES, p), s), s), k) <==> p <= k < 32 - s {
      OnesAbove(p, k);
      assert Bit(Shl(Shl(ALL_ONES, p), s), k + s) <==> s <= k + s < 32 && Bit(Shl(ALL_ONES, p), (k + s) - s);
    }
  }
}
