/** All the subkey indexes of a hive together: which cells belong to which index, and what changing one index
    leaves of the others. */
module IndexStore {
  import opened Indexes
  import opened Names
  import opened SortedNames

  /** A key's list of subkeys in one storage. */
  datatype Slot = Slot(node: HCell, kind: nat)

  /** The leaf a key's first subkey gets. */
  function FirstSignature(version: nat): Signature
  {
    if version >= 5 then HashLeaf else if version >= 3 then FastLeaf else IndexLeaf
  }

  /** The leaves below a root. */
  function RootedSignature(version: nat): Signature
  {
    if version >= 5 then HashLeaf else IndexLeaf
  }

  function MaxCount(signature: Signature): nat
  {
    if signature == FastLeaf then MAX_FAST_INDEX else MAX_INDEX
  }

  /** A leaf that is an index of its own. */
  ghost predicate SingleOk(version: nat, names: map<HCell, Name>, kind: nat, index: Index)
  {
    && LeafOk(names, kind, index) && index.signature in {FirstSignature(version), RootedSignature(version)}
    && 0 < |index.list| <= MaxCount(index.signature)
  }

  ghost predicate TreeOk(version: nat, indexes: map<HCell, Index>, names: map<HCell, Name>, kind: nat, c: HCell)
  {
    && c in indexes && c.Cell? && c.kind == kind
    && (if indexes[c].signature == IndexRoot then RootOk(indexes, names, kind, RootedSignature(version), indexes[c])
        else SingleOk(version, names, kind, indexes[c]))
    && FlatAscending(names, Tree(indexes, c))
  }

  /** What a root lists, leaf by leaf. */
  ghost function Leaves(indexes: map<HCell, Index>, c: HCell): seq<seq<HCell>>
  {
    if c in indexes then RootTree(indexes, indexes[c].list) else []
  }

  ghost predicate RootSound(version: nat, indexes: map<HCell, Index>, names: map<HCell, Name>, kind: nat, c: HCell)
  {
    && c in indexes && c.Cell? && c.kind == kind
    && RootOk(indexes, names, kind, RootedSignature(version), indexes[c])
    && FlatAscending(names, Leaves(indexes, c))
  }

  /** The cells an index is made of. */
  ghost function Footprint(indexes: map<HCell, Index>, c: HCell): set<HCell>
  {
    {c} + if c in indexes && indexes[c].signature == IndexRoot then ListCells(indexes[c].list) else {}
  }

  ghost function ListCells(list: seq<Entry>): set<HCell>
  {
    set i | 0 <= i < |list| :: list[i].cell
  }

  /** Cells fp have made way for cells fp'; all other cells are untouched. */
  ghost predicate Framed(indexes: map<HCell, Index>, fp: set<HCell>, indexes': map<HCell, Index>, fp': set<HCell>)
  {
    && indexes'.Keys == indexes.Keys - fp + fp' && fp' !! (indexes.Keys - fp)
    && forall c {:trigger indexes'[c]} :: c in indexes.Keys - fp ==> indexes'[c] == indexes[c]
  }

  lemma FramedTwice(indexes: map<HCell, Index>, fp: set<HCell>, indexes1: map<HCell, Index>, fp1: set<HCell>,
                    indexes2: map<HCell, Index>, fp2: set<HCell>)
    requires Framed(indexes, fp, indexes1, fp1) && Framed(indexes1, fp1, indexes2, fp2)
    ensures Framed(indexes, fp, indexes2, fp2)
  {
    assert indexes1.Keys - fp1 == indexes.Keys - fp;
  }

  // ----- one index after another

  /** Two indexes' cells agree. */
  lemma TreeSame(version: nat, indexes: map<HCell, Index>, indexes': map<HCell, Index>, names: map<HCell, Name>, kind: nat, c: HCell)
    requires TreeOk(version, indexes, names, kind, c)
    requires forall d {:trigger d in indexes'} :: d in Footprint(indexes, c) && d in indexes ==> d in indexes' && indexes'[d] == indexes[d]
    ensures TreeOk(version, indexes', names, kind, c)
    ensures Tree(indexes', c) == Tree(indexes, c) && Footprint(indexes', c) == Footprint(indexes, c)
  {
    hide LeafOk, FlatAscending, EntryOk;
    assert indexes'[c] == indexes[c];
    if indexes[c].signature == IndexRoot {
      var list := indexes[c].list;
      forall k | 0 <= k < |list| ensures list[k].cell in indexes && list[k].cell in indexes' && indexes'[list[k].cell] == indexes[list[k].cell] {
        assert RootedLeaf(indexes, names, kind, RootedSignature(version), list[k]);
        assert list[k].cell in ListCells(list);
      }
      RootSame(version, indexes, indexes', names, kind, indexes[c]);
    }
  }

  lemma RootSame(version: nat, indexes: map<HCell, Index>, indexes': map<HCell, Index>, names: map<HCell, Name>, kind: nat, root: Index)
    requires RootOk(indexes, names, kind, RootedSignature(version), root)
    requires forall k {:trigger root.list[k]} :: 0 <= k < |root.list| ==>
      root.list[k].cell in indexes && root.list[k].cell in indexes' && indexes'[root.list[k].cell] == indexes[root.list[k].cell]
    ensures RootOk(indexes', names, kind, RootedSignature(version), root)
    ensures RootTree(indexes', root.list) == RootTree(indexes, root.list)
  {
    hide LeafOk;
    forall k | 0 <= k < |root.list| ensures RootedLeaf(indexes', names, kind, RootedSignature(version), root.list[k]) {
      assert RootedLeaf(indexes, names, kind, RootedSignature(version), root.list[k]);
    }
  }

  // ----- the whole store

  ghost predicate Used(counts: map<Slot, nat>, lists: map<Slot, HCell>, s: Slot)
  {
    s in counts && s in lists && counts[s] > 0
  }

  ghost predicate SlotOk(version: nat, indexes: map<HCell, Index>, names: map<HCell, Name>, counts: map<Slot, nat>,
                         lists: map<Slot, HCell>, s: Slot)
  {
    && s in counts && s in lists
    && (counts[s] > 0 ==> TreeOk(version, indexes, names, s.kind, lists[s]) && |Flat(indexes, lists[s])| == counts[s])
  }

  ghost predicate Apart(indexes: map<HCell, Index>, lists: map<Slot, HCell>, s: Slot, r: Slot)
    requires s in lists && r in lists
  {
    Footprint(indexes, lists[s]) !! Footprint(indexes, lists[r])
  }

  ghost predicate Owned(indexes: map<HCell, Index>, counts: map<Slot, nat>, lists: map<Slot, HCell>, c: HCell)
  {
    exists s :: Used(counts, lists, s) && c in Footprint(indexes, lists[s])
  }

  /** Every key's lists are sound, no two share a cell, and every index cell belongs to one of them. */
  ghost predicate Coherent(version: nat, indexes: map<HCell, Index>, names: map<HCell, Name>, counts: map<Slot, nat>,
                           lists: map<Slot, HCell>)
  {
    && indexes.Keys !! names.Keys && counts.Keys == lists.Keys
    && (forall s {:trigger SlotOk(version, indexes, names, counts, lists, s)} ::
          s in counts ==> SlotOk(version, indexes, names, counts, lists, s))
    && (forall s, r {:trigger Apart(indexes, lists, s, r)} ::
          s != r && Used(counts, lists, s) && Used(counts, lists, r) ==> Apart(indexes, lists, s, r))
    && (forall c {:trigger Owned(indexes, counts, lists, c)} :: c in indexes ==> Owned(indexes, counts, lists, c))
  }

  /** The subkeys of a slot, in order. */
  ghost function Subkeys(indexes: map<HCell, Index>, counts: map<Slot, nat>, lists: map<Slot, HCell>, s: Slot): seq<HCell>
  {
    if Used(counts, lists, s) then Flat(indexes, lists[s]) else []
  }

  /** The cells of a slot's index. */
  ghost function SlotCells(indexes: map<HCell, Index>, counts: map<Slot, nat>, lists: map<Slot, HCell>, s: Slot): set<HCell>
  {
    if Used(counts, lists, s) then Footprint(indexes, lists[s]) else {}
  }

  lemma FootprintExists(version: nat, indexes: map<HCell, Index>, names: map<HCell, Name>, kind: nat, c: HCell)
    requires TreeOk(version, indexes, names, kind, c)
    ensures Footprint(indexes, c) <= indexes.Keys
  {
    if indexes[c].signature == IndexRoot {
      forall k | 0 <= k < |indexes[c].list| ensures indexes[c].list[k].cell in indexes {
        assert RootedLeaf(indexes, names, kind, RootedSignature(version), indexes[c].list[k]);
      }
    }
  }

  /** One slot's index has been replaced: the others are as they were. */
  lemma SlotReplaced(version: nat, indexes: map<HCell, Index>, names: map<HCell, Name>, counts: map<Slot, nat>,
                     lists: map<Slot, HCell>, s: Slot,
                     indexes': map<HCell, Index>, counts': map<Slot, nat>, lists': map<Slot, HCell>)
    requires Coherent(version, indexes, names, counts, lists) && s in counts
    requires s in counts' && s in lists' && counts' == counts[s := counts'[s]] && lists' == lists[s := lists'[s]]
    requires SlotOk(version, indexes', names, counts', lists', s)
    requires Framed(indexes, SlotCells(indexes, counts, lists, s), indexes', SlotCells(indexes', counts', lists', s))
    requires SlotCells(indexes', counts', lists', s) !! names.Keys
    ensures Coherent(version, indexes', names, counts', lists')
    ensures forall r {:trigger Subkeys(indexes', counts', lists', r)} :: r != s ==>
      Subkeys(indexes', counts', lists', r) == Subkeys(indexes, counts, lists, r)
  {
    hide TreeOk, Flat, Footprint;
    forall r | r != s && Used(counts, lists, r)
      ensures SlotOk(version, indexes', names, counts', lists', r)
      ensures Flat(indexes', lists[r]) == Flat(indexes, lists[r]) && Footprint(indexes', lists[r]) == Footprint(indexes, lists[r])
      ensures Footprint(indexes, lists[r]) <= indexes.Keys
      ensures SlotCells(indexes, counts, lists, s) !! Footprint(indexes, lists[r])
    {
      assert SlotOk(version, indexes, names, counts, lists, r);
      OtherSlot(version, indexes, names, counts, lists, s, r, indexes', SlotCells(indexes', counts', lists', s));
    }
    forall r | r in counts' ensures SlotOk(version, indexes', names, counts', lists', r) {
      if r != s { assert SlotOk(version, indexes, names, counts, lists, r); }
    }
    forall q, r | q != r && Used(counts', lists', q) && Used(counts', lists', r) ensures Apart(indexes', lists', q, r) {
      if q != s && r != s { assert Apart(indexes, lists, q, r); }
    }
    forall c | c in indexes' ensures Owned(indexes', counts', lists', c) {
      if c in SlotCells(indexes', counts', lists', s) {
        assert Used(counts', lists', s);
      } else {
        assert Owned(indexes, counts, lists, c);
        var r :| Used(counts, lists, r) && c in Footprint(indexes, lists[r]);
        assert Used(counts', lists', r) && c in Footprint(indexes', lists'[r]);
      }
    }
  }

  lemma OtherSlot(version: nat, indexes: map<HCell, Index>, names: map<HCell, Name>, counts: map<Slot, nat>,
                  lists: map<Slot, HCell>, s: Slot, r: Slot, indexes': map<HCell, Index>, fp': set<HCell>)
    requires Coherent(version, indexes, names, counts, lists) && r != s && Used(counts, lists, r)
    requires Framed(indexes, SlotCells(indexes, counts, lists, s), indexes', fp')
    ensures TreeOk(version, indexes', names, r.kind, lists[r]) && Flat(indexes', lists[r]) == Flat(indexes, lists[r])
    ensures Footprint(indexes', lists[r]) == Footprint(indexes, lists[r]) <= indexes.Keys
    ensures SlotCells(indexes, counts, lists, s) !! Footprint(indexes, lists[r])
  {
    hide TreeOk, Footprint;
    assert SlotOk(version, indexes, names, counts, lists, r);
    if Used(counts, lists, s) { assert Apart(indexes, lists, s, r); }
    FootprintExists(version, indexes, names, r.kind, lists[r]);
    TreeSame(version, indexes, indexes', names, r.kind, lists[r]);
  }

  // ----- changing the leaves of a root

  lemma ListedExist(indexes: map<HCell, Index>, names: map<HCell, Name>, kind: nat, signature: Signature, root: Index)
    requires RootOk(indexes, names, kind, signature, root)
    ensures ListCells(root.list) <= indexes.Keys
  {
    forall k | 0 <= k < |root.list| ensures root.list[k].cell in indexes {
      assert RootedLeaf(indexes, names, kind, signature, root.list[k]);
    }
  }

  /** Leaf k gives way to another leaf, in the same cell or in a new one. */
  lemma LeafReplaced(indexes: map<HCell, Index>, names: map<HCell, Name>, kind: nat, signature: Signature, root: Index,
                     k: nat, indexes': map<HCell, Index>, e: Entry)
    requires RootOk(indexes, names, kind, signature, root) && k < |root.list|
    requires RootedLeaf(indexes', names, kind, signature, e)
    requires e.cell == root.list[k].cell || e.cell !in indexes
    requires Framed(indexes, {root.list[k].cell}, indexes', {e.cell})
    ensures var list' := root.list[k := e];
      && RootOk(indexes', names, kind, signature, root.(list := list'))
      && RootTree(indexes', list') == RootTree(indexes, root.list)[k := LeafCells(indexes', e.cell)]
      && ListCells(list') == ListCells(root.list) - {root.list[k].cell} + {e.cell}
      && ListCells(root.list) <= indexes.Keys
  {
    hide LeafOk;
    var list' := root.list[k := e];
    forall i | 0 <= i < |root.list| ensures root.list[i].cell in indexes && (i != k ==> root.list[i].cell != root.list[k].cell) {
      assert RootedLeaf(indexes, names, kind, signature, root.list[i]);
      assert i < k ==> Differ(root.list, i, k);
      assert i > k ==> Differ(root.list, k, i);
    }
    forall i, j | 0 <= i < j < |list'| ensures Differ(list', i, j) {
      assert Differ(root.list, i, j);
    }
    forall i | 0 <= i < |list'| ensures RootedLeaf(indexes', names, kind, signature, list'[i]) {
      if i != k { assert RootedLeaf(indexes, names, kind, signature, root.list[i]); }
    }
    forall c | c in ListCells(root.list) - {root.list[k].cell} + {e.cell} ensures c in ListCells(list') {
      if c == e.cell {
        assert list'[k].cell == c;
      } else {
        var i :| 0 <= i < |root.list| && root.list[i].cell == c;
        assert list'[i].cell == c;
      }
    }
  }

  /** A new leaf behind leaf k. */
  lemma LeafInserted(indexes: map<HCell, Index>, names: map<HCell, Name>, kind: nat, signature: Signature, root: Index,
                     k: nat, indexes': map<HCell, Index>, e: Entry, size: nat)
    requires RootOk(indexes, names, kind, signature, root) && k < |root.list| && 4 + 4 * (|root.list| + 1) <= size
    requires RootedLeaf(indexes', names, kind, signature, e) && e.cell !in indexes
    requires Framed(indexes, {}, indexes', {e.cell})
    ensures var list' := root.list[..k + 1] + [e] + root.list[k + 1..];
      && RootOk(indexes', names, kind, signature, Index(IndexRoot, size, list'))
      && RootTree(indexes', list') ==
         RootTree(indexes, root.list)[..k + 1] + [LeafCells(indexes', e.cell)] + RootTree(indexes, root.list)[k + 1..]
      && ListCells(list') == ListCells(root.list) + {e.cell}
  {
    hide LeafOk, DistinctCells, ListCells;
    var list' := root.list[..k + 1] + [e] + root.list[k + 1..];
    ListedExist(indexes, names, kind, signature, root);
    forall i | 0 <= i < |root.list| ensures root.list[i].cell in indexes {
      assert RootedLeaf(indexes, names, kind, signature, root.list[i]);
    }
    forall i | 0 <= i < |list'| ensures list'[i] == if i <= k then root.list[i] else if i == k + 1 then e else root.list[i - 1] {
    }
    forall i | 0 <= i < |list'| ensures RootedLeaf(indexes', names, kind, signature, list'[i]) {
      if i != k + 1 { assert RootedLeaf(indexes, names, kind, signature, root.list[if i <= k then i else i - 1]); }
    }
    CellsInserted(root.list, k, e);
    assert RootTree(indexes', list') ==
      RootTree(indexes, root.list)[..k + 1] + [LeafCells(indexes', e.cell)] + RootTree(indexes, root.list)[k + 1..];
  }

  lemma CellsInserted(list: seq<Entry>, k: nat, e: Entry)
    requires k < |list|
    ensures ListCells(list[..k + 1] + [e] + list[k + 1..]) == ListCells(list) + {e.cell}
    ensures DistinctCells(list) && e.cell !in ListCells(list) ==> DistinctCells(list[..k + 1] + [e] + list[k + 1..])
  {
    var list' := list[..k + 1] + [e] + list[k + 1..];
    forall i | 0 <= i < |list'| ensures list'[i] == if i <= k then list[i] else if i == k + 1 then e else list[i - 1] {
    }
    forall c | c in ListCells(list) + {e.cell} ensures c in ListCells(list') {
      if c == e.cell {
        assert list'[k + 1].cell == c;
      } else {
        var i :| 0 <= i < |list| && list[i].cell == c;
        assert list'[if i <= k then i else i + 1].cell == c;
      }
    }
    if DistinctCells(list) && e.cell !in ListCells(list) {
      forall i | 0 <= i < |list| ensures list[i].cell != e.cell { assert list[i].cell in ListCells(list); }
      forall i, j | 0 <= i < j < |list'| ensures Differ(list', i, j) {
        if i != k + 1 && j != k + 1 { assert Differ(list, if i <= k then i else i - 1, if j <= k then j else j - 1); }
      }
    }
  }

  lemma CellsRemoved(list: seq<Entry>, k: nat)
    requires k < |list| && DistinctCells(list)
    ensures ListCells(list[..k] + list[k + 1..]) == ListCells(list) - {list[k].cell}
    ensures DistinctCells(list[..k] + list[k + 1..])
  {
    var list' := list[..k] + list[k + 1..];
    forall i | 0 <= i < |list'| ensures list'[i] == list[if i < k then i else i + 1] {
    }
    forall i | 0 <= i < |list| && i != k ensures list[i].cell != list[k].cell {
      assert i < k ==> Differ(list, i, k);
      assert i > k ==> Differ(list, k, i);
    }
    forall i, j | 0 <= i < j < |list'| ensures Differ(list', i, j) {
      assert Differ(list, if i < k then i else i + 1, if j < k then j else j + 1);
    }
    forall c | c in ListCells(list) - {list[k].cell} ensures c in ListCells(list') {
      var i :| 0 <= i < |list| && list[i].cell == c;
      assert list'[if i < k then i else i - 1].cell == c;
    }
  }

  /** Leaf k is gone. */
  lemma LeafRemoved(indexes: map<HCell, Index>, names: map<HCell, Name>, kind: nat, signature: Signature, root: Index,
                    k: nat, indexes': map<HCell, Index>)
    requires RootOk(indexes, names, kind, signature, root) && k < |root.list| && |root.list| > 1
    requires Framed(indexes, {root.list[k].cell}, indexes', {})
    ensures var list' := root.list[..k] + root.list[k + 1..];
      && RootOk(indexes', names, kind, signature, root.(list := list'))
      && RootTree(indexes', list') == RootTree(indexes, root.list)[..k] + RootTree(indexes, root.list)[k + 1..]
      && ListCells(list') == ListCells(root.list) - {root.list[k].cell}
  {
    hide LeafOk, ListCells;
    var list' := root.list[..k] + root.list[k + 1..];
    forall i | 0 <= i < |root.list| ensures root.list[i].cell in indexes && (i != k ==> root.list[i].cell != root.list[k].cell) {
      assert RootedLeaf(indexes, names, kind, signature, root.list[i]);
      assert i < k ==> Differ(root.list, i, k);
      assert i > k ==> Differ(root.list, k, i);
    }
    forall i | 0 <= i < |list'| ensures list'[i] == root.list[if i < k then i else i + 1] {
    }
    forall i | 0 <= i < |list'| ensures RootedLeaf(indexes', names, kind, signature, list'[i]) {
      assert RootedLeaf(indexes, names, kind, signature, root.list[if i < k then i else i + 1]);
    }
    CellsRemoved(root.list, k);
  }

  // ----- splitting a leaf

  ghost function SplitTree(t: seq<seq<HCell>>, k: nat): seq<seq<HCell>>
    requires k < |t|
  {
    var h := |t[k]| / 2;
    t[..k] + [t[k][..h], t[k][h..]] + t[k + 1..]
  }

  lemma SplitListsTheSame(t: seq<seq<HCell>>, k: nat)
    requires k < |t|
    ensures Concat(SplitTree(t, k)) == Concat(t)
  {
    ConcatAt(t, k);
    hide Concat;
    ConcatPair(t[..k], t[k][..|t[k]| / 2], t[k][|t[k]| / 2..], t[k + 1..]);
    Rejoined(t[k], |t[k]| / 2);
  }

  lemma Rejoined(s: seq<HCell>, h: nat)
    requires h <= |s|
    ensures s[..h] + s[h..] == s
  {
  }

  lemma ConcatPair(before: seq<seq<HCell>>, x: seq<HCell>, y: seq<HCell>, after: seq<seq<HCell>>)
    ensures Concat(before + [x, y] + after) == Concat(before) + (x + y) + Concat(after)
  {
    ConcatSum(before + [x, y], after);
    ConcatSum(before, [x, y]);
    assert Concat([x, y]) == x + y by {
      assert [x, y][..1] == [x] && [x][..0] == [];
      assert Concat([x]) == Concat([]) + x == x;
    }
  }

  lemma HalvesOk(names: map<HCell, Name>, kind: nat, leaf: Index, h: nat, size: nat)
    requires LeafOk(names, kind, leaf) && h <= |leaf.list| && 4 + EntriesSize(leaf.signature, |leaf.list| - h) <= size
    ensures LeafOk(names, kind, leaf.(list := leaf.list[..h])) && LeafOk(names, kind, Index(leaf.signature, size, leaf.list[h..]))
    ensures Cells(leaf.list[..h]) == Cells(leaf.list)[..h] && Cells(leaf.list[h..]) == Cells(leaf.list)[h..]
  {
    hide EntryOk;
    forall i | 0 <= i < |leaf.list| ensures EntryOk(names, kind, leaf.signature, leaf.list[i]) {
    }
  }

  /** The cells and contents after leaf k of a root has been split. */
  ghost predicate SplitCells(indexes: map<HCell, Index>, rootCell: HCell, k: nat, newCell: HCell, newSize: nat,
                             newRoot: HCell, rootSize: nat, indexes': map<HCell, Index>)
    requires rootCell in indexes && k < |indexes[rootCell].list| && indexes[rootCell].list[k].cell in indexes
  {
    var root := indexes[rootCell];
    var leafCell := root.list[k].cell;
    var leaf := indexes[leafCell];
    var h := |leaf.list| / 2;
    && newCell !in indexes && newRoot != newCell && newRoot != leafCell && (newRoot == rootCell || newRoot !in indexes)
    && indexes'.Keys == indexes.Keys - {rootCell} + {newRoot, newCell}
    && indexes'[newCell] == Index(leaf.signature, newSize, leaf.list[h..])
    && leafCell in indexes' && indexes'[leafCell] == leaf.(list := leaf.list[..h])
    && indexes'[newRoot] == Index(IndexRoot, rootSize, root.list[..k + 1] + [Entry(newCell, [], 0)] + root.list[k + 1..])
    && forall c {:trigger indexes'[c]} :: c in indexes && c != rootCell && c != leafCell ==> c in indexes' && indexes'[c] == indexes[c]
  }

  lemma LeafHalved(indexes: map<HCell, Index>, names: map<HCell, Name>, kind: nat, signature: Signature, root: Index, k: nat,
                   newSize: nat)
    requires RootOk(indexes, names, kind, signature, root) && k < |root.list|
    ensures root.list[k].cell in indexes
    ensures var leafCell := root.list[k].cell;
      var leaf := indexes[leafCell];
      var h := |leaf.list| / 2;
      var half := leaf.(list := leaf.list[..h]);
      var rest := Index(leaf.signature, newSize, leaf.list[h..]);
      |leaf.list| >= 2 && 4 + EntriesSize(leaf.signature, |leaf.list| - h) <= newSize ==>
      && RootOk(indexes[leafCell := half], names, kind, signature, root)
      && RootTree(indexes[leafCell := half], root.list) == RootTree(indexes, root.list)[k := RootTree(indexes, root.list)[k][..h]]
      && LeafOk(names, kind, rest) && Cells(rest.list) == RootTree(indexes, root.list)[k][h..] && 0 < |rest.list| <= MAX_INDEX
      && rest.signature == signature
  {
    var leafCell := root.list[k].cell;
    assert RootedLeaf(indexes, names, kind, signature, root.list[k]);
    var leaf := indexes[leafCell];
    var h := |leaf.list| / 2;
    if |leaf.list| >= 2 && 4 + EntriesSize(leaf.signature, |leaf.list| - h) <= newSize {
      HalvesOk(names, kind, leaf, h, newSize);
      hide LeafOk;
      var indexes1 := indexes[leafCell := leaf.(list := leaf.list[..h])];
      LeafReplaced(indexes, names, kind, signature, root, k, indexes1, root.list[k]);
      assert root.list[k := root.list[k]] == root.list && root.(list := root.list) == root;
    }
  }

  lemma SplitDone(version: nat, names: map<HCell, Name>, kind: nat, indexes: map<HCell, Index>, rootCell: HCell, k: nat,
                  newCell: HCell, newSize: nat, newRoot: HCell, rootSize: nat, indexes': map<HCell, Index>)
    requires rootCell in indexes && RootOk(indexes, names, kind, RootedSignature(version), indexes[rootCell])
    requires k < |indexes[rootCell].list| && indexes[rootCell].list[k].cell in indexes
    requires SplitCells(indexes, rootCell, k, newCell, newSize, newRoot, rootSize, indexes')
    requires newCell.Cell? && newCell.kind == kind && 4 + 4 * (|indexes[rootCell].list| + 1) <= rootSize
    requires var leaf := indexes[indexes[rootCell].list[k].cell];
      |leaf.list| >= 2 && 4 + EntriesSize(leaf.signature, |leaf.list| - |leaf.list| / 2) <= newSize
    ensures newRoot in indexes' && RootOk(indexes', names, kind, RootedSignature(version), indexes'[newRoot])
    ensures RootTree(indexes', indexes'[newRoot].list) == SplitTree(RootTree(indexes, indexes[rootCell].list), k)
    ensures Framed(indexes, Footprint(indexes, rootCell), indexes', Footprint(indexes', newRoot))
    ensures Footprint(indexes', newRoot) == Footprint(indexes, rootCell) - {rootCell} + {newRoot, newCell}
  {
    var signature := RootedSignature(version);
    var root := indexes[rootCell];
    var leafCell := root.list[k].cell;
    var leaf := indexes[leafCell];
    var h := |leaf.list| / 2;
    var e := Entry(newCell, [], 0);
    LeafHalved(indexes, names, kind, signature, root, k, newSize);
    var indexes1 := indexes[leafCell := leaf.(list := leaf.list[..h])];
    var indexes2 := indexes1[newCell := Index(leaf.signature, newSize, leaf.list[h..])];
    hide LeafOk;
    LeafInserted(indexes1, names, kind, signature, root, k, indexes2, e, rootSize);
    var root' := indexes'[newRoot];
    ListedExist(indexes2, names, kind, signature, root');
    ListedExist(indexes, names, kind, signature, root);
    NotARoot(indexes, names, kind, signature, root, rootCell);
    hide RootOk, RootTree, SplitTree, DistinctCells;
    forall i | 0 <= i < |root'.list| ensures root'.list[i].cell in indexes2 && root'.list[i].cell in indexes'
      && indexes'[root'.list[i].cell] == indexes2[root'.list[i].cell] {
      assert root'.list[i].cell in ListCells(root'.list);
    }
    RootSame(version, indexes2, indexes', names, kind, root');
    SplitTrees(RootTree(indexes, root.list), k);
    hide RootTree, ListCells;
    assert indexes[rootCell].list[k].cell in ListCells(root.list) by { InList(root.list, k); }
  }

  lemma InList(list: seq<Entry>, k: nat)
    requires k < |list|
    ensures list[k].cell in ListCells(list)
  {
  }

  lemma SplitTrees(t: seq<seq<HCell>>, k: nat)
    requires k < |t|
    ensures var h := |t[k]| / 2; t[k := t[k][..h]][..k + 1] + [t[k][h..]] + t[k := t[k][..h]][k + 1..] == SplitTree(t, k)
  {
  }

  /** A root is none of its own leaves. */
  lemma NotARoot(indexes: map<HCell, Index>, names: map<HCell, Name>, kind: nat, signature: Signature, root: Index, rootCell: HCell)
    requires RootOk(indexes, names, kind, signature, root) && rootCell in indexes && indexes[rootCell].signature == IndexRoot
    ensures rootCell !in ListCells(root.list)
  {
    forall i | 0 <= i < |root.list| ensures root.list[i].cell != rootCell {
      assert RootedLeaf(indexes, names, kind, signature, root.list[i]);
    }
  }
}
