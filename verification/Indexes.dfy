/** Subkey indexes in cells: leaves of entries, and roots of leaves. */
module Indexes {
  import opened Names
  import opened SortedNames

  const MAX_FAST_INDEX: nat := 507    // CmpMaxFastIndexPerHblock: (4096 - (32 + 4 + 4)) / 8
  const MAX_INDEX: nat := 1013        // CmpMaxIndexPerHblock: (4096 - (32 + 4 + 4)) / 4 - 1

  /** A cell of a storage (0 stable, 1 volatile), or none. */
  datatype HCell = Nil | Cell(kind: nat, n: nat)

  datatype Signature = IndexRoot | IndexLeaf | FastLeaf | HashLeaf

  /** An entry of any of the four: a fast leaf has hints and a hash leaf hashes, the others only cells. */
  datatype Entry = Entry(cell: HCell, hint: seq<nat>, hash: nat)

  /** The contents of an index cell; size is what the cell has room for, in bytes. */
  datatype Index = Index(signature: Signature, size: nat, list: seq<Entry>)

  function EntrySize(signature: Signature): nat
  {
    if signature == FastLeaf || signature == HashLeaf then 8 else 4
  }

  function EntriesSize(signature: Signature, count: nat): nat
  {
    if signature == FastLeaf || signature == HashLeaf then 8 * count else 4 * count
  }

  /** The header and the entries fit into the cell. */
  ghost predicate Fits(index: Index)
  {
    4 + EntriesSize(index.signature, |index.list|) <= index.size
  }

  function Cells(list: seq<Entry>): (cells: seq<HCell>)
    ensures |cells| == |list|
  {
    seq(|list|, i requires 0 <= i < |list| => list[i].cell)
  }

  function NameOf(names: map<HCell, Name>, cell: HCell): Name
  {
    if cell in names then names[cell] else []
  }

  function NamesOf(names: map<HCell, Name>, cells: seq<HCell>): (r: seq<Name>)
    ensures |r| == |cells|
  {
    seq(|cells|, i requires 0 <= i < |cells| => NameOf(names, cells[i]))
  }

  /** An entry names a key, and its hint or hash is that of the key's name. */
  ghost predicate EntryOk(names: map<HCell, Name>, kind: nat, signature: Signature, e: Entry)
  {
    && e.cell.Cell? && e.cell.kind == kind && e.cell in names && KeyName(names[e.cell])
    && (signature == FastLeaf ==> HintOf(e.hint, names[e.cell]))
    && (signature == HashLeaf ==> e.hash == Hash(0, names[e.cell]))
  }

  /** A leaf, of any number of entries. */
  ghost predicate LeafOk(names: map<HCell, Name>, kind: nat, index: Index)
  {
    && index.signature != IndexRoot && Fits(index)
    && forall k {:trigger index.list[k]} :: 0 <= k < |index.list| ==> EntryOk(names, kind, index.signature, index.list[k])
  }

  ghost predicate LeafAscending(names: map<HCell, Name>, index: Index)
  {
    Ascending(NamesOf(names, Cells(index.list)))
  }

  // ----- leaves in a row

  function Concat(t: seq<seq<HCell>>): seq<HCell>
  {
    if t == [] then [] else Concat(t[..|t| - 1]) + t[|t| - 1]
  }

  /** Where leaf k starts. */
  function Start(t: seq<seq<HCell>>, k: nat): nat
    requires k <= |t|
  {
    |Concat(t[..k])|
  }

  lemma {:induction false} ConcatSum(a: seq<seq<HCell>>, b: seq<seq<HCell>>)
    ensures Concat(a + b) == Concat(a) + Concat(b)
  {
    if b == [] {
      assert a + b == a;
    } else {
      var b' := b[..|b| - 1];
      ConcatSum(a, b');
      assert (a + b)[..|a + b| - 1] == a + b';
    }
  }

  lemma ConcatAt(t: seq<seq<HCell>>, k: nat)
    requires k < |t|
    ensures Concat(t) == Concat(t[..k]) + t[k] + Concat(t[k + 1..])
    ensures Start(t, k + 1) == Start(t, k) + |t[k]| <= |Concat(t)|
    ensures forall i {:trigger t[k][i]} :: 0 <= i < |t[k]| ==> Concat(t)[Start(t, k) + i] == t[k][i]
  {
    assert t == t[..k + 1] + t[k + 1..];
    ConcatSum(t[..k + 1], t[k + 1..]);
    assert t[..k + 1][..k] == t[..k];
  }

  lemma ConcatAll(t: seq<seq<HCell>>)
    ensures Start(t, |t|) == |Concat(t)| && Start(t, 0) == 0
  {
    assert t[..|t|] == t && t[..0] == [];
  }

  lemma {:induction false} StartsRise(t: seq<seq<HCell>>, j: nat, k: nat)
    requires j <= k <= |t|
    ensures Start(t, j) <= Start(t, k) <= |Concat(t)|
    decreases k - j
  {
    if j < k {
      StartsRise(t, j, k - 1);
      ConcatAt(t, k - 1);
    } else if k < |t| {
      ConcatAt(t, k);
    } else {
      ConcatAll(t);
    }
  }

  // ----- trees in cells

  function LeafCells(indexes: map<HCell, Index>, c: HCell): seq<HCell>
  {
    if c in indexes then Cells(indexes[c].list) else []
  }

  /** What an index lists, leaf by leaf; a single leaf is a tree of one. */
  function Tree(indexes: map<HCell, Index>, c: HCell): seq<seq<HCell>>
  {
    if c in indexes && indexes[c].signature == IndexRoot then RootTree(indexes, indexes[c].list) else [LeafCells(indexes, c)]
  }

  function RootTree(indexes: map<HCell, Index>, list: seq<Entry>): (t: seq<seq<HCell>>)
    ensures |t| == |list|
  {
    seq(|list|, i requires 0 <= i < |list| => LeafCells(indexes, list[i].cell))
  }

  function Flat(indexes: map<HCell, Index>, c: HCell): seq<HCell>
  {
    Concat(Tree(indexes, c))
  }

  /** A leaf below a root: not empty, and of the kind the root's leaves are. */
  ghost predicate RootedLeaf(indexes: map<HCell, Index>, names: map<HCell, Name>, kind: nat, signature: Signature, e: Entry)
  {
    && e.cell in indexes && e.cell.Cell? && e.cell.kind == kind && LeafOk(names, kind, indexes[e.cell])
    && indexes[e.cell].signature == signature && 0 < |indexes[e.cell].list| <= MAX_INDEX
  }

  ghost predicate DistinctCells(list: seq<Entry>)
  {
    forall i, j {:trigger Differ(list, i, j)} :: 0 <= i < j < |list| ==> Differ(list, i, j)
  }

  ghost predicate Differ(list: seq<Entry>, i: nat, j: nat)
    requires i < |list| && j < |list|
  {
    list[i].cell != list[j].cell
  }

  ghost predicate RootOk(indexes: map<HCell, Index>, names: map<HCell, Name>, kind: nat, signature: Signature, root: Index)
  {
    && root.signature == IndexRoot && root.list != [] && Fits(root) && DistinctCells(root.list)
    && forall k {:trigger root.list[k]} :: 0 <= k < |root.list| ==> RootedLeaf(indexes, names, kind, signature, root.list[k])
  }

  /** The names an index lists ascend. */
  ghost predicate FlatAscending(names: map<HCell, Name>, t: seq<seq<HCell>>)
  {
    Ascending(NamesOf(names, Concat(t)))
  }

  lemma OneLeaf(indexes: map<HCell, Index>, c: HCell)
    requires c in indexes && indexes[c].signature != IndexRoot
    ensures Flat(indexes, c) == Cells(indexes[c].list)
  {
    var x := Cells(indexes[c].list);
    assert Tree(indexes, c) == [x] && [x][..0] == [];
    assert Concat([x]) == Concat([]) + x;
  }
}
