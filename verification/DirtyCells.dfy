/** Marking cells dirty: HvMarkCellDirty. */
module DirtyCells {
  import opened Bitmaps

  /** The dirty vector after a stable cell at offset c has been marked. */
  ghost function Marked(bits: seq<bool>, c: nat): seq<bool>
    requires (c + 4095) / 4096 <= |bits|
  {
    Filled(bits, c / 4096, (c + 4095) / 4096 - c / 4096, true)
  }

  /** Every block the cell lies in is dirty. */
  ghost predicate Covered(bits: seq<bool>, c: nat, size: nat)
  {
    forall b {:trigger Dirty(bits, b)} :: c / 4096 <= b && b * 4096 < c + size ==> Dirty(bits, b)
  }

  ghost predicate Dirty(bits: seq<bool>, b: nat)
  {
    b < |bits| && bits[b]
  }

  /** Marking a cell sees to its first block only, and not even to that when the cell starts with it; the bits of
      all other blocks, in the cell or not, are kept. */
  lemma MarkedCovers(bits: seq<bool>, c: nat, size: nat)
    requires size > 0 && (c + 4095) / 4096 <= |bits|
    ensures Covered(Marked(bits, c), c, size) <==>
      && (c % 4096 == 0 ==> Dirty(bits, c / 4096))
      && (forall b {:trigger Dirty(bits, b)} :: c / 4096 < b && b * 4096 < c + size ==> Dirty(bits, b))
    ensures |Marked(bits, c)| == |bits| && forall b :: 0 <= b < |bits| ==>
      Marked(bits, c)[b] == (bits[b] || (b == c / 4096 && c % 4096 != 0))
  {
    var first := c / 4096;
    var marked := Marked(bits, c);
    assert first * 4096 <= c < first * 4096 + 4096;
    if c % 4096 == 0 {
      assert marked == bits;
    } else {
      assert marked == bits[first := true];
    }
    forall b | first <= b ensures Dirty(marked, b) <==> Dirty(bits, b) || (b == first && c % 4096 != 0) {
    }
  }

  method MarkCellDirty(dirtyVector: Bitmap, kind: nat, c: nat)
    requires dirtyVector.Valid() && (kind == 0 ==> (c + 4095) / 4096 <= dirtyVector.SizeOfBitMap)
    modifies dirtyVector.Buffer
    ensures dirtyVector.Bits() == if kind == 0 then Marked(old(dirtyVector.Bits()), c) else old(dirtyVector.Bits())
  {
    if kind != 0 {
      return;
    }
    var cellBlock := c / 4096;
    var cellLastBlock := (c + 4096 - 1) / 4096;
    dirtyVector.SetBits(cellBlock, cellLastBlock - cellBlock);
  }
}
