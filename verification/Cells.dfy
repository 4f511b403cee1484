/** Bins tiled by cells: the layout of a hive's storage, and what splitting, merging and adding do to it.

    The bins of a storage lie one after another, so a cell is named by its offset.  Memory is a map from
    4-byte aligned offset to 32-bit word. */
module Cells {

  const HV_HBIN_SIGNATURE: int := 0x6e696268
  const HCELL_NIL: nat := 0xFFFF_FFFF

  type Mem = map<nat, int>

  datatype MapEntry = MapEntry(BlockAddress: nat, BinAddress: nat)

  function Abs(x: int): nat { if x < 0 then -x else x }

  /** The extent of a cell and the bin it lies in. */
  datatype Extent = Extent(size: nat, bin: nat)

  /** Where the bins start and end, and where the cells start. */
  datatype Layout = Layout(bins: map<nat, nat>, cells: map<nat, Extent>)
  {
    function After(c: nat): nat
      requires c in cells
    {
      c + cells[c].size
    }

    ghost predicate CellOk(c: nat)
      requires c in cells
    {
      && c % 16 == 0 && cells[c].size > 0 && cells[c].size % 16 == 0
      && cells[c].bin in bins && cells[c].bin + 32 <= c && After(c) <= bins[cells[c].bin]
    }

    /** A cell ends where another cell of the bin starts, or with the bin. */
    ghost predicate Followed(c: nat)
      requires c in cells
    {
      if After(c) in cells then cells[After(c)].bin == cells[c].bin
      else cells[c].bin in bins && After(c) == bins[cells[c].bin]
    }

    /** A bin covers whole blocks, and its first cell lies behind its header. */
    ghost predicate BinOk(b: nat)
      requires b in bins
    {
      b % 4096 == 0 && bins[b] % 4096 == 0 && b < bins[b] && b + 32 in cells && cells[b + 32].bin == b
    }

    /** Of two cells, the lower ends before the higher starts. */
    ghost predicate Apart(c: nat, d: nat)
      requires c in cells
    {
      c < d ==> After(c) <= d
    }

    ghost predicate BinsApart(b: nat, d: nat)
      requires b in bins
    {
      b < d ==> bins[b] <= d
    }

    /** The cells tile the bins: the first starts behind the bin header, each next one where the last ends,
        and the last ends with the bin. */
    ghost predicate Tiled()
    {
      && (forall c {:trigger CellOk(c)} :: c in cells ==> CellOk(c))
      && (forall c {:trigger Followed(c)} :: c in cells ==> Followed(c))
      && (forall c, d {:trigger Apart(c, d)} :: c in cells && d in cells ==> Apart(c, d))
      && (forall b {:trigger BinOk(b)} :: b in bins ==> BinOk(b))
      && (forall b, d {:trigger BinsApart(b, d)} :: b in bins && d in bins ==> BinsApart(b, d))
    }

    /** A cell in two: the first part keeps its start. */
    ghost function Split(c: nat, size: nat): Layout
      requires c in cells && size <= cells[c].size
    {
      var bin := cells[c].bin;
      this.(cells := cells[c := Extent(size, bin)][c + size := Extent(cells[c].size - size, bin)])
    }

    /** A cell and the one after it in one. */
    ghost function Merge(c: nat): Layout
      requires c in cells && After(c) in cells
    {
      var d := After(c);
      this.(cells := (cells - {d})[c := Extent(cells[c].size + cells[d].size, cells[c].bin)])
    }

    /** A new bin, all one cell. */
    ghost function Extend(start: nat, size: nat): Layout
      requires size >= 32
    {
      Layout(bins[start := start + size], cells[start + 32 := Extent(size - 32, start)])
    }

    lemma SplitTiled(c: nat, size: nat)
      requires Tiled() && c in cells && 0 < size < cells[c].size && size % 16 == 0
      ensures Split(c, size).Tiled() && c + size !in cells
    {
      var l := Split(c, size);
      assert CellOk(c) && Followed(c);
      assert c + size in cells ==> Apart(c, c + size);
      forall x | x in l.cells ensures l.CellOk(x) && l.Followed(x) {
        if x in cells { assert CellOk(x) && Followed(x) && Apart(x, c) && Apart(c, x); }
      }
      forall x, y | x in l.cells && y in l.cells ensures l.Apart(x, y) {
        if x in cells && y in cells { assert Apart(x, y); }
        if x in cells { assert Apart(x, c) && Apart(c, x); }
        if y in cells { assert Apart(c, y); }
      }
      forall b | b in l.bins ensures l.BinOk(b) { assert BinOk(b); }
      forall b, d | b in l.bins && d in l.bins ensures l.BinsApart(b, d) { assert BinsApart(b, d); }
    }

    lemma MergeTiled(c: nat)
      requires Tiled() && c in cells && After(c) in cells
      ensures Merge(c).Tiled()
    {
      var d, l := After(c), Merge(c);
      assert CellOk(c) && Followed(c) && CellOk(d) && Followed(d);
      forall x | x in l.cells ensures l.CellOk(x) && l.Followed(x) {
        assert CellOk(x) && Followed(x) && Apart(x, c) && Apart(c, x);
      }
      forall x, y | x in l.cells && y in l.cells ensures l.Apart(x, y) {
        assert Apart(x, y) && Apart(d, y);
      }
      forall b | b in l.bins ensures l.BinOk(b) { assert BinOk(b); }
      forall b, e | b in l.bins && e in l.bins ensures l.BinsApart(b, e) { assert BinsApart(b, e); }
    }

    lemma Aligned(start: nat, size: nat)
      requires start % 4096 == 0 && size % 4096 == 0 && size > 0
      ensures (start + 32) % 16 == 0 && size > 32 && (size - 32) % 16 == 0 && (start + size) % 4096 == 0
    {
      var j, k := start / 4096, size / 4096;
      assert start + 32 == 16 * (256 * j + 2) && size - 32 == 16 * (256 * k - 2) && start + size == 4096 * (j + k);
    }

    lemma ExtendTiled(start: nat, size: nat)
      requires Tiled() && start % 4096 == 0 && size % 4096 == 0 && size > 0
      requires forall b :: b in bins ==> bins[b] <= start
      ensures Extend(start, size).Tiled() && start + 32 !in cells && start !in bins
    {
      var l := Extend(start, size);
      Aligned(start, size);
      assert start in bins ==> BinOk(start);
      forall x | x in cells ensures After(x) <= start && x < start { assert CellOk(x); }
      assert l.CellOk(start + 32) && l.Followed(start + 32);
      forall x | x in l.cells ensures l.CellOk(x) && l.Followed(x) {
        if x in cells { assert CellOk(x) && Followed(x); }
      }
      forall x, y | x in l.cells && y in l.cells ensures l.Apart(x, y) {
        if x in cells && y in cells { assert Apart(x, y); }
      }
      forall b | b in l.bins ensures l.BinOk(b) { if b in bins { assert BinOk(b); } }
      forall b, d | b in l.bins && d in l.bins ensures l.BinsApart(b, d) { if b in bins && d in bins { assert BinsApart(b, d); } }
    }
  }
}
