/** The subkey lists of the keys of a hive: finding, adding and removing subkeys. */
module SubKeys {
  import opened Indexes
  import opened IndexSearch
  import opened IndexStore
  import opened Names
  import opened SortedNames

  ghost function InsertedCell(cells: seq<HCell>, i: nat, c: HCell): seq<HCell>
    requires i <= |cells|
  {
    cells[..i] + [c] + cells[i..]
  }

  /** The entry of a key in a leaf: its hash in a hash leaf, its hint in a fast leaf, neither in an old-style one. */
  ghost predicate EntryMade(signature: Signature, key: HCell, name: Name, e: Entry)
  {
    && e.cell == key
    && (if signature == HashLeaf then e.hash == Hash(0, name) else e.hash == 0)
    && (if signature == FastLeaf then HintIs(e.hint, name) else e.hint == [])
  }

  class Hive {
    const Version: nat
    const StorageTypeCount: nat
    var Names: map<HCell, Name>              // the keys, by the cells of their nodes
    var SubKeyCounts: map<Slot, nat>
    var SubKeyLists: map<Slot, HCell>
    var Indexes: map<HCell, Index>

    /** A hive without keys. */
    constructor (version: nat, storageTypeCount: nat)
      requires 1 <= storageTypeCount <= 2
      ensures Valid() && Names == map[] && Version == version && StorageTypeCount == storageTypeCount
    {
      Version, StorageTypeCount := version, storageTypeCount;
      Names, SubKeyCounts, SubKeyLists, Indexes := map[], map[], map[], map[];
    }

    /** A new key's node, as CmiCreateSubKey sets it up: it has no subkeys. */
    method CreateNode(kind: nat, name: Name) returns (cell: HCell)
      requires Valid() && kind < 2 && KeyName(name)
      modifies this`Names, this`SubKeyCounts, this`SubKeyLists
      ensures Valid() && cell.Cell? && cell.kind == kind && cell !in old(Names) && Names == old(Names)[cell := name]
      ensures forall r {:trigger SubkeysOf(r)} :: SubkeysOf(r) == Subkeys(Indexes, old(SubKeyCounts), old(SubKeyLists), r)
    {
      ghost var names, counts, lists := Names, SubKeyCounts, SubKeyLists;
      var size;
      SomeCell(kind, Indexes.Keys + Names.Keys);
      cell, size := AllocateCell(kind, 76 + |name|);
      Names := Names[cell := name];
      SubKeyCounts := SubKeyCounts[Slot(cell, 0) := 0][Slot(cell, 1) := 0];
      SubKeyLists := SubKeyLists[Slot(cell, 0) := Nil][Slot(cell, 1) := Nil];
      NodeAdded(Version, Indexes, names, counts, lists, cell, name);
      hide Coherent, KeyName, Subkeys;
      forall n | n in Names ensures KeyOk(n) { if n != cell { assert old(KeyOk(n)); } }
    }

    // ----- cells

    /** HvAllocateCell, for an index: a cell not in use, at least as large as asked for. */
    method AllocateCell(kind: nat, size: nat) returns (cell: HCell, cellSize: nat)
      ensures cell.Cell? && cell.kind == kind && cell !in Indexes && cell !in Names && cellSize >= size
    {
      SomeCell(kind, Indexes.Keys + Names.Keys);
      var n: nat :| Cell(kind, n) !in Indexes.Keys + Names.Keys;
      cell := Cell(kind, n);
      var extra: int := *;
      cellSize := if extra < 0 then size else size + extra;
    }

    /** HvReallocateCell, of an index to at least its size: another cell exactly when it is to be larger, with the
        same contents. */
    method ReallocateCell(cell: HCell, size: nat) returns (newCell: HCell)
      requires cell in Indexes && cell.Cell? && size >= Indexes[cell].size
      modifies this`Indexes
      ensures newCell == cell || (newCell.Cell? && newCell.kind == cell.kind && newCell !in old(Indexes) && newCell !in Names)
      ensures newCell == cell <==> size == old(Indexes)[cell].size
      ensures Framed(old(Indexes), {cell}, Indexes, {newCell})
      ensures Indexes[newCell].size >= size && Indexes[newCell] == old(Indexes)[cell].(size := Indexes[newCell].size)
    {
      var index := Indexes[cell];
      if index.size < size {
        var newSize;
        newCell, newSize := AllocateCell(cell.kind, size);
        Indexes := (Indexes - {cell})[newCell := index.(size := newSize)];
      } else {
        newCell := cell;
      }
    }

    // ----- leaves

    /** CmpAddToLeaf: one more entry, in its place; the leaf grows, and may move, if it is full. */
    method AddToLeaf(leafCell: HCell, newKey: HCell, ghost kind: nat) returns (newCell: HCell, ghost at: nat)
      requires leafCell in Indexes && leafCell.Cell? && leafCell.kind == kind && LeafOk(Names, kind, Indexes[leafCell])
      requires LeafAscending(Names, Indexes[leafCell])
      requires newKey in Names && newKey.Cell? && newKey.kind == kind && KeyName(Names[newKey])
      requires Absent(NamesOf(Names, Cells(Indexes[leafCell].list)), Names[newKey])
      modifies this`Indexes
      ensures newCell.Cell? && newCell.kind == kind && (newCell == leafCell || (newCell !in old(Indexes) && newCell !in Names))
      ensures Framed(old(Indexes), {leafCell}, Indexes, {newCell})
      ensures LeafOk(Names, kind, Indexes[newCell]) && Indexes[newCell].signature == old(Indexes)[leafCell].signature
      ensures PlacedAt(NamesOf(Names, Cells(old(Indexes)[leafCell].list)), at, Names[newKey])
      ensures Cells(Indexes[newCell].list) == InsertedCell(Cells(old(Indexes)[leafCell].list), at, newKey)
      ensures var leaf := old(Indexes)[leafCell];
        && (exists e :: EntryMade(leaf.signature, newKey, Names[newKey], e) && Indexes[newCell].list == leaf.list[..at] + [e] + leaf.list[at..])
        && (newCell == leafCell <==> EntriesSize(leaf.signature, |leaf.list| + 1) + 4 <= leaf.size)
        && (newCell == leafCell ==> Indexes[newCell].size == leaf.size)
        && (newCell != leafCell ==> leaf.size + EntrySize(leaf.signature) <= Indexes[newCell].size && leaf.size + leaf.size / 2 <= Indexes[newCell].size)
    {
      hide Order, Ascending, KeyName, Below, Above, HintOf, EntryOk, NamesOf, Absent;
      ghost var ns := NamesOf(Names, Cells(Indexes[leafCell].list));
      var leaf := Indexes[leafCell];
      var name := Names[newKey];
      var entrySize := EntrySize(leaf.signature);
      var size := leaf.size - (EntriesSize(leaf.signature, |leaf.list|) + 4);
      newCell := leafCell;
      if size < entrySize {
        size := leaf.size + leaf.size / 2;
        if size < leaf.size + entrySize {
          size := leaf.size + entrySize;
        }
        newCell := ReallocateCell(leafCell, size);
        leaf := Indexes[newCell];
      }
      NoNames(ns, name);
      var i, child := FindSubKeyInLeaf(Names, kind, leaf, name);
      if i != |leaf.list| {
        var result;
        result, child := CompareInLeaf(Names, kind, leaf, i, name);
        NotThere(Names, leaf.list, i, name);
        if result > 0 {
          i := i + 1;
        }
      }
      var entry := NewEntry(leaf.signature, newKey, kind);
      Indexes := Indexes[newCell := leaf.(list := leaf.list[..i] + [entry] + leaf.list[i..])];
      EntryInserted(Names, kind, leaf, i, entry);
      at := i;
    }

    /** The entry of a key in a leaf: its hash, its hint, or neither. */
    method NewEntry(signature: Signature, newKey: HCell, ghost kind: nat) returns (entry: Entry)
      requires newKey in Names && newKey.Cell? && newKey.kind == kind && KeyName(Names[newKey])
      ensures EntryOk(Names, kind, signature, entry) && EntryMade(signature, newKey, Names[newKey], entry)
    {
      var name := Names[newKey];
      if signature == HashLeaf {
        var hash := ComputeHashKey(0, name);
        entry := Entry(newKey, [], hash);
      } else if signature == FastLeaf {
        var hint := MakeHint(name);
        entry := Entry(newKey, hint, 0);
      } else {
        entry := Entry(newKey, [], 0);
      }
    }

    // ----- roots

    /** Room for one more leaf in a root. */
    method GrowRoot(rootCell: HCell) returns (newRoot: HCell)
      requires rootCell in Indexes && rootCell.Cell? && 4 + 4 * |Indexes[rootCell].list| <= Indexes[rootCell].size
      modifies this`Indexes
      ensures newRoot == rootCell || (newRoot.Cell? && newRoot.kind == rootCell.kind && newRoot !in old(Indexes) && newRoot !in Names)
      ensures Framed(old(Indexes), {rootCell}, Indexes, {newRoot})
      ensures 4 + 4 * (|Indexes[newRoot].list| + 1) <= Indexes[newRoot].size
      ensures newRoot == rootCell <==> 4 + 4 * (|old(Indexes)[rootCell].list| + 1) <= old(Indexes)[rootCell].size
      ensures Indexes[newRoot] == old(Indexes)[rootCell].(size := Indexes[newRoot].size)
    {
      var root := Indexes[rootCell];
      var free := root.size - 4 * |root.list| - 4;
      newRoot := rootCell;
      if free / 4 < 1 {
        newRoot := ReallocateCell(rootCell, root.size + 4);
      }
    }

    /** CmpSplitLeaf: the second half of leaf rootSelect moves to a new leaf behind it. */
    method SplitLeaf(rootCell: HCell, rootSelect: nat, kind: nat) returns (newRoot: HCell)
      requires rootCell in Indexes && rootCell.Cell? && rootCell.kind == kind && Indexes.Keys !! Names.Keys
      requires RootOk(Indexes, Names, kind, RootedSignature(Version), Indexes[rootCell])
      requires rootSelect < |Indexes[rootCell].list| && |RootTree(Indexes, Indexes[rootCell].list)[rootSelect]| >= 2
      modifies this`Indexes
      ensures newRoot in Indexes && newRoot.Cell? && newRoot.kind == kind && Indexes.Keys !! Names.Keys
      ensures RootOk(Indexes, Names, kind, RootedSignature(Version), Indexes[newRoot])
      ensures RootTree(Indexes, Indexes[newRoot].list) ==
        SplitTree(RootTree(old(Indexes), old(Indexes)[rootCell].list), rootSelect)
      ensures Framed(old(Indexes), Footprint(old(Indexes), rootCell), Indexes, Footprint(Indexes, newRoot))
    {
      ghost var before := Indexes;
      RootLeaf(Indexes, Names, kind, RootedSignature(Version), Indexes[rootCell], rootSelect);
      NotARoot(Indexes, Names, kind, RootedSignature(Version), Indexes[rootCell], rootCell);
      InList(Indexes[rootCell].list, rootSelect);
      hide RootOk, RootTree, SplitTree, Footprint, ListCells, LeafOk;
      var root := Indexes[rootCell];
      var leafCell := root.list[rootSelect].cell;
      var leaf := Indexes[leafCell];
      var firstHalf := |leaf.list| / 2;
      var lastHalf := |leaf.list| - firstHalf;
      var newCell, newSize := AllocateCell(kind, EntriesSize(leaf.signature, lastHalf) + 4 + 1);
      Indexes := Indexes[newCell := Index(leaf.signature, newSize, [])];
      newRoot := GrowRoot(rootCell);
      root := Indexes[newRoot];
      ghost var between := Indexes;
      GrownCells(before[newCell := Index(leaf.signature, newSize, [])], rootCell, between, newRoot, leafCell);
      hide Framed, SplitCells;
      Indexes := Indexes[newCell := Index(leaf.signature, newSize, leaf.list[firstHalf..])];
      Indexes := Indexes[leafCell := leaf.(list := leaf.list[..firstHalf])];
      Indexes := Indexes[newRoot := root.(list := root.list[..rootSelect + 1] + [Entry(newCell, [], 0)] + root.list[rootSelect + 1..])];
      SplitStored(before, rootCell, rootSelect, newCell, newSize, newRoot, between, Indexes);
      SplitDone(Version, Names, kind, before, rootCell, rootSelect, newCell, newSize, newRoot, root.size, Indexes);
      FootprintInside(before, rootCell, Indexes, newRoot);
    }

    /** One round of CmpSelectLeaf: a leaf the name may go into that has room, if the search has led to one. */
    method ChooseLeaf(rootCell: HCell, ghost kind: nat, subKeyIndex: nat, cell: HCell, name: Name, ghost verdict: Verdict)
      returns (chosen: bool, leafCell: HCell, rootIndex: nat)
      requires RootSound(Version, Indexes, Names, kind, rootCell) && subKeyIndex < |Indexes[rootCell].list|
      requires cell.Cell? <==> verdict == Reached
      requires cell.Cell? ==> cell == Indexes[rootCell].list[subKeyIndex].cell
      requires var t := RootTree(Indexes, Indexes[rootCell].list);
        var ns := NamesOf(Names, Concat(t));
        Absent(ns, name) && Found(ns, t, subKeyIndex, verdict, name)
      ensures chosen ==> rootIndex < |Indexes[rootCell].list| && leafCell == Indexes[rootCell].list[rootIndex].cell
      ensures chosen ==> leafCell in Indexes && |Indexes[leafCell].list| < MAX_INDEX
      ensures chosen ==> var t := RootTree(Indexes, Indexes[rootCell].list);
        GoesInto(NamesOf(Names, Concat(t)), t, rootIndex, name)
      ensures !chosen ==> |RootTree(Indexes, Indexes[rootCell].list)[subKeyIndex]| >= MAX_INDEX
    {
      var indexKey := Indexes[rootCell];
      ghost var t := RootTree(Indexes, indexKey.list);
      ghost var ns := NamesOf(Names, Concat(t));
      RootLeaf(Indexes, Names, kind, RootedSignature(Version), indexKey, subKeyIndex);
      FoundPlace(ns, t, subKeyIndex, verdict, name);
      if cell.Cell? {
        if |Indexes[cell].list| < MAX_INDEX {
          return true, cell, subKeyIndex;
        }
      } else {
        var leaf := Indexes[indexKey.list[subKeyIndex].cell];
        var result := CompareWithFirst(rootCell, kind, subKeyIndex, name, verdict);
        if result >= 0 {
          if |leaf.list| < MAX_INDEX {
            return true, indexKey.list[subKeyIndex].cell, subKeyIndex;
          }
          if subKeyIndex + 1 < |indexKey.list| {
            assert false;   // the index is that of the last leaf
          }
        } else {
          if subKeyIndex > 0 {
            assert false;   // the index is that of the first leaf
          }
          if |leaf.list| < MAX_INDEX {
            return true, indexKey.list[0].cell, 0;
          }
        }
      }
      return false, Nil, 0;
    }

    /** When the search has led to no leaf: a name after all is after the first of the last leaf, and a name
        before all is before the first of the first leaf. */
    method CompareWithFirst(rootCell: HCell, ghost kind: nat, subKeyIndex: nat, name: Name, ghost verdict: Verdict) returns (result: int)
      requires RootSound(Version, Indexes, Names, kind, rootCell) && subKeyIndex < |Indexes[rootCell].list| && verdict != Reached
      requires var t := RootTree(Indexes, Indexes[rootCell].list);
        Found(NamesOf(Names, Concat(t)), t, subKeyIndex, verdict, name)
      ensures result < 0 <==> verdict == BeforeAll
    {
      hide Order, Below, Above, Ascending, KeyName, Concat, Start, RootTree, NamesOf, LeafOk;
      var indexKey := Indexes[rootCell];
      ghost var t := RootTree(Indexes, indexKey.list);
      ghost var ns := NamesOf(Names, Concat(t));
      LeafOfRoot(Indexes, Names, kind, RootedSignature(Version), indexKey, subKeyIndex);
      hide RootOk;
      var leaf := Indexes[indexKey.list[subKeyIndex].cell];
      FirstIsKey(Names, kind, leaf);
      assert NameOf(Names, leaf.list[0].cell) == ns[Start(t, subKeyIndex)];
      if verdict == BeforeAll {
        AboveSays(ns, 0, Start(t, subKeyIndex), name);
      } else {
        BelowFewer(ns, Start(t, subKeyIndex) + 1, |ns|, name);
        BelowSays(ns, Start(t, subKeyIndex), name);
      }
      result := DoCompareKeyName(Names, name, leaf.list[0].cell);
    }

    /** One round: the root is searched, and the leaf found is taken if the name fits into it. */
    method TryLeaf(slot: Slot, name: Name) returns (chosen: bool, leafCell: HCell, rootIndex: nat, subKeyIndex: nat, ghost verdict: Verdict)
      requires slot in SubKeyLists && RootSound(Version, Indexes, Names, slot.kind, SubKeyLists[slot])
      requires Absent(ListedNames(Indexes, SubKeyLists, slot), name)
      ensures SubKeyLists[slot] in Indexes
      ensures chosen ==> rootIndex < |Indexes[SubKeyLists[slot]].list| && leafCell == Indexes[SubKeyLists[slot]].list[rootIndex].cell
      ensures chosen ==> leafCell in Indexes && |Indexes[leafCell].list| < MAX_INDEX
      ensures var t := Leaves(Indexes, SubKeyLists[slot]);
        var ns := ListedNames(Indexes, SubKeyLists, slot);
        if chosen then GoesInto(ns, t, rootIndex, name)
        else subKeyIndex < |t| && |t[subKeyIndex]| >= MAX_INDEX && Found(ns, t, subKeyIndex, verdict, name)
    {
      var rootCell := SubKeyLists[slot];
      ghost var t := Leaves(Indexes, rootCell);
      ghost var ns := NamesOf(Names, Concat(t));
      hide Concat, NamesOf, RootOk, GoesInto, Found, FirstReaching, Absent, Below, Above, RootTree, Ascending;
      var cell;
      subKeyIndex, cell := FindSubKeyInRoot(Indexes, Names, slot.kind, RootedSignature(Version), Indexes[rootCell], name);
      verdict := VerdictOf(ns, t, subKeyIndex, cell, name);
      VerdictHolds(ns, t, subKeyIndex, cell, name);
      chosen, leafCell, rootIndex := ChooseLeaf(rootCell, slot.kind, subKeyIndex, cell, name, verdict);
    }

    /** The slot's root lists what it listed, and no cell of another index has changed. */
    ghost predicate ListsTheSame(slot: Slot, indexes: map<HCell, Index>, lists: map<Slot, HCell>)
      reads this
    {
      && slot in lists && slot in SubKeyLists && SubKeyLists == lists[slot := SubKeyLists[slot]] && Indexes.Keys !! Names.Keys
      && RootSound(Version, Indexes, Names, slot.kind, SubKeyLists[slot])
      && Framed(indexes, Footprint(indexes, lists[slot]), Indexes, Footprint(Indexes, SubKeyLists[slot]))
      && Concat(Leaves(Indexes, SubKeyLists[slot])) == Concat(Leaves(indexes, lists[slot]))
    }

    /** The names a slot's root lists. */
    ghost function ListedNames(indexes: map<HCell, Index>, lists: map<Slot, HCell>, slot: Slot): seq<Name>
      reads this`Names
      requires slot in lists
    {
      NamesOf(Names, Concat(Leaves(indexes, lists[slot])))
    }

    /** CmpSelectLeaf: a leaf of the root where the name may go, with room for it.  A full leaf is split, and
        one split is always enough. */
    method SelectLeaf(slot: Slot, name: Name) returns (leafCell: HCell, rootIndex: nat)
      requires slot in SubKeyLists && RootSound(Version, Indexes, Names, slot.kind, SubKeyLists[slot]) && Indexes.Keys !! Names.Keys
      requires Absent(ListedNames(Indexes, SubKeyLists, slot), name)
      modifies this`Indexes, this`SubKeyLists
      ensures ListsTheSame(slot, old(Indexes), old(SubKeyLists))
      ensures rootIndex < |Indexes[SubKeyLists[slot]].list| && leafCell == Indexes[SubKeyLists[slot]].list[rootIndex].cell
      ensures leafCell in Indexes && |Indexes[leafCell].list| < MAX_INDEX
      ensures GoesInto(ListedNames(Indexes, SubKeyLists, slot), Leaves(Indexes, SubKeyLists[slot]), rootIndex, name)
    {
      ghost var indexes, lists := Indexes, SubKeyLists;
      ghost var ns := ListedNames(Indexes, SubKeyLists, slot);
      ghost var split, at, how := false, 0, Reached;
      RootExists(Version, Indexes, Names, slot.kind, SubKeyLists[slot]);
      NothingFramed(Indexes, Footprint(Indexes, SubKeyLists[slot]));
      assert ListsTheSame(slot, indexes, lists);
      hide *;
      while true
        invariant ListsTheSame(slot, indexes, lists)
        invariant split ==> Halved(ns, LeavesOf(slot), at, how, name)
        decreases !split
      {
        var chosen, subKeyIndex;
        ghost var verdict;
        SameNames(slot, indexes, lists);
        chosen, leafCell, rootIndex, subKeyIndex, verdict := TryLeaf(slot, name);
        if chosen {
          return;
        }
        if split {
          NoThirdSearch(Version, Indexes, Names, slot.kind, SubKeyLists[slot], at, how, subKeyIndex, verdict, name);
        }
        SplitAgain(indexes, lists, slot, subKeyIndex, verdict, name);
        split, at, how := true, subKeyIndex, verdict;
      }
    }

    ghost function LeavesOf(slot: Slot): seq<seq<HCell>>
      reads this
    {
      if slot in SubKeyLists then Leaves(Indexes, SubKeyLists[slot]) else []
    }

    lemma SameNames(slot: Slot, indexes: map<HCell, Index>, lists: map<Slot, HCell>)
      requires ListsTheSame(slot, indexes, lists)
      ensures slot in SubKeyLists && slot in lists && RootSound(Version, Indexes, Names, slot.kind, SubKeyLists[slot])
      ensures ListedNames(Indexes, SubKeyLists, slot) == ListedNames(indexes, lists, slot)
      ensures LeavesOf(slot) == Leaves(Indexes, SubKeyLists[slot])
    {
    }

    /** The full leaf is split, and the slot's root is what that leaves. */
    method SplitAgain(ghost indexes: map<HCell, Index>, ghost lists: map<Slot, HCell>, slot: Slot, subKeyIndex: nat,
                      ghost verdict: Verdict, ghost name: Name)
      requires ListsTheSame(slot, indexes, lists)
      requires subKeyIndex < |LeavesOf(slot)| && |LeavesOf(slot)[subKeyIndex]| >= MAX_INDEX
      requires slot in SubKeyLists && Found(ListedNames(Indexes, SubKeyLists, slot), LeavesOf(slot), subKeyIndex, verdict, name)
      modifies this`Indexes, this`SubKeyLists
      ensures ListsTheSame(slot, indexes, lists)
      ensures slot in lists && Halved(ListedNames(indexes, lists, slot), LeavesOf(slot), subKeyIndex, verdict, name)
    {
      hide Concat, NamesOf, Footprint, Framed, Found, Halved, RootOk, RootTree, SplitTree, Ascending;
      ghost var before := Indexes;
      var rootCell := SubKeyLists[slot];
      var newRoot := SplitLeaf(rootCell, subKeyIndex, slot.kind);
      SplitFound(Version, before, Names, slot.kind, rootCell, Indexes, newRoot, subKeyIndex, verdict, name);
      FramedTwice(indexes, Footprint(indexes, lists[slot]), before, Footprint(before, rootCell), Indexes, Footprint(Indexes, newRoot));
      SubKeyLists := SubKeyLists[slot := newRoot];
    }

    // ----- adding

    ghost predicate Valid()
      reads this
    {
      && Coherent(Version, Indexes, Names, SubKeyCounts, SubKeyLists) && 1 <= StorageTypeCount <= 2
      && (forall n {:trigger n in Names} :: n in Names ==> KeyOk(n))
      && (forall s {:trigger s in SubKeyCounts} :: s in SubKeyCounts ==> s.node in Names)
    }

    ghost predicate KeyOk(n: HCell)
      reads this
      requires n in Names
    {
      && n.Cell? && n.kind < 2 && KeyName(Names[n])
      && Slot(n, 0) in SubKeyCounts && Slot(n, 1) in SubKeyCounts
    }

    /** The subkeys of a key in one storage. */
    ghost function SubkeysOf(slot: Slot): seq<HCell>
      reads this
    {
      Subkeys(Indexes, SubKeyCounts, SubKeyLists, slot)
    }

    /** The first steps of CmpAddSubKey: a first leaf, a fast leaf made a plain one, or a root above a full
        leaf, as the slot needs it for one more subkey. */
    method Prepare(slot: Slot)
      requires Coherent(Version, Indexes, Names, SubKeyCounts, SubKeyLists) && slot in SubKeyCounts
      modifies this`Indexes, this`SubKeyLists
      ensures slot in SubKeyLists && SubKeyLists == old(SubKeyLists)[slot := SubKeyLists[slot]] && Indexes.Keys !! Names.Keys
      ensures Framed(old(Indexes), old(SlotCells(Indexes, SubKeyCounts, SubKeyLists, slot)), Indexes, Footprint(Indexes, SubKeyLists[slot]))
      ensures Ready(Version, Indexes, Names, slot.kind, SubKeyLists[slot])
      ensures Flat(Indexes, SubKeyLists[slot]) == Subkeys(old(Indexes), old(SubKeyCounts), old(SubKeyLists), slot)
      ensures OneForm(Version, old(Indexes), old(SubKeyCounts), old(SubKeyLists), slot, Indexes, SubKeyLists[slot])
    {
      ghost var indexes, lists := Indexes, SubKeyLists;
      assert SlotOk(Version, Indexes, Names, SubKeyCounts, SubKeyLists, slot);
      hide Coherent, LeafOk, Ascending, NamesOf, RootOk;
      if SubKeyCounts[slot] == 0 {
        var indexCell, size := AllocateCell(slot.kind, 12);
        Indexes := Indexes[indexCell := Index(if Version >= 5 then HashLeaf else if Version >= 3 then FastLeaf else IndexLeaf, size, [])];
        SubKeyLists := SubKeyLists[slot := indexCell];
        FirstLeafReady(Version, indexes, Names, slot.kind, indexCell, Indexes);
      } else {
        var indexCell := SubKeyLists[slot];
        var index := Indexes[indexCell];
        if index.signature == FastLeaf && |index.list| >= MAX_FAST_INDEX {
          var list := CellsOnly(index.list);
          Indexes := Indexes[indexCell := Index(IndexLeaf, index.size, list)];
          ConvertedReady(Version, indexes, Names, slot.kind, indexCell, Indexes);
        } else if (index.signature == IndexLeaf || index.signature == HashLeaf) && |index.list| >= MAX_INDEX {
          var rootCell, size := AllocateCell(slot.kind, 12);
          Indexes := Indexes[rootCell := Index(IndexRoot, size, [Entry(indexCell, [], 0)])];
          SubKeyLists := SubKeyLists[slot := rootCell];
          RootedReady(Version, indexes, Names, slot.kind, indexCell, rootCell, size, Indexes);
        } else {
          AlreadyReady(Version, indexes, Names, slot.kind, indexCell);
        }
      }
    }

    /** The entries of a fast leaf as those of a plain one. */
    method CellsOnly(list: seq<Entry>) returns (r: seq<Entry>)
      ensures Cells(r) == Cells(list) && forall k {:trigger r[k]} :: 0 <= k < |r| ==> r[k] == Entry(list[k].cell, [], 0)
    {
      r := [];
      for i := 0 to |list|
        invariant |r| == i && forall k :: 0 <= k < i ==> r[k] == Entry(list[k].cell, [], 0)
      {
        r := r + [Entry(list[i].cell, [], 0)];
      }
    }

    /** CmpAddSubKey: a key that is not there yet becomes a subkey, in its place. */
    method AddSubKey(parent: HCell, child: HCell) returns (ghost at: nat)
      requires Valid() && parent in Names && child in Names
      requires Absent(NamesOf(Names, SubkeysOf(Slot(parent, child.kind))), Names[child])
      modifies this`Indexes, this`SubKeyLists, this`SubKeyCounts
      ensures Valid()
      ensures Grown(Version, Names, old(Indexes), old(SubKeyCounts), old(SubKeyLists), Slot(parent, child.kind),
                    Indexes, SubKeyCounts, SubKeyLists, at, child)
    {
      assert KeyOk(parent) && KeyOk(child);
      NamedKey(Names, child);
      hide Coherent, Absent, NamesOf, PlacedAt, Subkeys;
      at := AddToSlot(Slot(parent, child.kind), child);
      forall n | n in Names ensures KeyOk(n) { assert old(KeyOk(n)); }
    }

    method AddToSlot(slot: Slot, child: HCell) returns (ghost at: nat)
      requires Coherent(Version, Indexes, Names, SubKeyCounts, SubKeyLists) && slot in SubKeyCounts
      requires child in Names && child.Cell? && child.kind == slot.kind && KeyName(Names[child])
      requires Absent(NamesOf(Names, Subkeys(Indexes, SubKeyCounts, SubKeyLists, slot)), Names[child])
      modifies this`Indexes, this`SubKeyLists, this`SubKeyCounts
      ensures Grown(Version, Names, old(Indexes), old(SubKeyCounts), old(SubKeyLists), slot, Indexes, SubKeyCounts, SubKeyLists, at, child)
    {
      ghost var indexes, counts, lists := Indexes, SubKeyCounts, SubKeyLists;
      hide *;
      Prepare(slot);
      ghost var ready, readyCell := Indexes, SubKeyLists[slot];
      ReadyRoot(Version, Indexes, Names, slot.kind, SubKeyLists[slot]);
      if Indexes[SubKeyLists[slot]].signature == IndexRoot {
        at := AddBelowRoot(slot, child);
      } else {
        at := AddToSingle(slot, child);
      }
      SubKeyCounts := SubKeyCounts[slot := SubKeyCounts[slot] + 1];
      AddedToSlot(Version, indexes, Names, counts, lists, slot, ready, readyCell, Indexes, SubKeyCounts, SubKeyLists, at, child);
    }

    /** A leaf that is an index of its own takes one more subkey. */
    method AddToSingle(slot: Slot, child: HCell) returns (ghost at: nat)
      requires slot in SubKeyLists && Ready(Version, Indexes, Names, slot.kind, SubKeyLists[slot]) && Indexes.Keys !! Names.Keys
      requires Indexes[SubKeyLists[slot]].signature != IndexRoot
      requires child in Names && child.Cell? && child.kind == slot.kind && KeyName(Names[child])
      requires Absent(NamesOf(Names, Flat(Indexes, SubKeyLists[slot])), Names[child])
      modifies this`Indexes, this`SubKeyLists
      ensures slot in SubKeyLists && SubKeyLists == old(SubKeyLists)[slot := SubKeyLists[slot]]
      ensures Added(Version, old(Indexes), Names, slot.kind, old(SubKeyLists)[slot], Indexes, SubKeyLists[slot], at, child)
    {
      ghost var indexes, c := Indexes, SubKeyLists[slot];
      ReadyRoot(Version, Indexes, Names, slot.kind, c);
      hide *;
      var leafCell;
      leafCell, at := AddToLeaf(SubKeyLists[slot], child, slot.kind);
      SubKeyLists := SubKeyLists[slot := leafCell];
      NamedKey(Names, child);
      LeafAdded(Version, indexes, Names, slot.kind, c, Indexes, leafCell, at, child);
    }

    /** The selected leaf of a root takes one more subkey; the root names the cell the leaf is now in. */
    method AddBelowRoot(slot: Slot, child: HCell) returns (ghost at: nat)
      requires slot in SubKeyLists && Ready(Version, Indexes, Names, slot.kind, SubKeyLists[slot]) && Indexes.Keys !! Names.Keys
      requires Indexes[SubKeyLists[slot]].signature == IndexRoot
      requires child in Names && child.Cell? && child.kind == slot.kind && KeyName(Names[child])
      requires Absent(NamesOf(Names, Flat(Indexes, SubKeyLists[slot])), Names[child])
      modifies this`Indexes, this`SubKeyLists
      ensures slot in SubKeyLists && SubKeyLists == old(SubKeyLists)[slot := SubKeyLists[slot]]
      ensures Added(Version, old(Indexes), Names, slot.kind, old(SubKeyLists)[slot], Indexes, SubKeyLists[slot], at, child)
    {
      ghost var indexes, lists := Indexes, SubKeyLists;
      ReadyRoot(Version, Indexes, Names, slot.kind, SubKeyLists[slot]);
      assert Absent(ListedNames(Indexes, SubKeyLists, slot), Names[child]);
      hide *;
      var leafCell, rootIndex := SelectLeaf(slot, Names[child]);
      SameNames(slot, indexes, lists);
      ghost var selected := Indexes;
      at := AddIntoLeaf(SubKeyLists[slot], slot.kind, rootIndex, child);
      SelectedAndAdded(slot, indexes, lists, selected, Indexes, at, child);
    }

    /** Leaf rootIndex of a root takes one more subkey. */
    method AddIntoLeaf(rootCell: HCell, ghost kind: nat, rootIndex: nat, child: HCell) returns (ghost at: nat)
      requires RootSound(Version, Indexes, Names, kind, rootCell) && Indexes.Keys !! Names.Keys && rootIndex < |Indexes[rootCell].list|
      requires Indexes[rootCell].list[rootIndex].cell in Indexes && |Indexes[Indexes[rootCell].list[rootIndex].cell].list| < MAX_INDEX
      requires child in Names && child.Cell? && child.kind == kind && KeyName(Names[child])
      requires var t := Leaves(Indexes, rootCell);
        var ns := NamesOf(Names, Concat(t));
        GoesInto(ns, t, rootIndex, Names[child]) && Absent(ns, Names[child])
      modifies this`Indexes
      ensures Added(Version, old(Indexes), Names, kind, rootCell, Indexes, rootCell, at, child)
    {
      ghost var selected := Indexes;
      var root := Indexes[rootCell];
      hide *;
      LeafSelected(Version, Indexes, Names, kind, rootCell, rootIndex, Names[child]);
      NamedKey(Names, child);
      var newLeaf, i := AddToLeaf(root.list[rootIndex].cell, child, kind);
      RootAdded(Version, selected, Names, kind, rootCell, rootIndex, Indexes, newLeaf, i, child);
      at := Start(Leaves(selected, rootCell), rootIndex) + i;
      Indexes := Indexes[rootCell := root.(list := root.list[rootIndex := Entry(newLeaf, [], 0)])];
    }

    /** Selecting a leaf and adding to it, together. */
    lemma SelectedAndAdded(slot: Slot, indexes: map<HCell, Index>, lists: map<Slot, HCell>, selected: map<HCell, Index>,
                           indexes': map<HCell, Index>, at: nat, child: HCell)
      requires slot in lists && slot in SubKeyLists && indexes' == Indexes
      requires lists[slot] in indexes && indexes[lists[slot]].signature == IndexRoot
      requires RootSound(Version, selected, Names, slot.kind, SubKeyLists[slot])
      requires Framed(indexes, Footprint(indexes, lists[slot]), selected, Footprint(selected, SubKeyLists[slot]))
      requires Concat(Leaves(selected, SubKeyLists[slot])) == Concat(Leaves(indexes, lists[slot]))
      requires Added(Version, selected, Names, slot.kind, SubKeyLists[slot], indexes', SubKeyLists[slot], at, child)
      ensures Added(Version, indexes, Names, slot.kind, lists[slot], indexes', SubKeyLists[slot], at, child)
    {
      FlatOfRoot(indexes, lists[slot]);
      FlatOfRoot(selected, SubKeyLists[slot]);
      hide Flat, Footprint, Framed, Concat, TreeOk, PlacedAt, NamesOf;
      FramedTwice(indexes, Footprint(indexes, lists[slot]), selected, Footprint(selected, SubKeyLists[slot]),
                  indexes', Footprint(indexes', SubKeyLists[slot]));
    }

    // ----- finding

    lemma SlotFacts(slot: Slot)
      requires Valid() && slot.node in Names && slot.kind < 2
      ensures slot in SubKeyCounts && slot in SubKeyLists && SubKeyCounts[slot] == |SubkeysOf(slot)|
      ensures SubKeyCounts[slot] > 0 ==> TreeOk(Version, Indexes, Names, slot.kind, SubKeyLists[slot])
      ensures SubKeyCounts[slot] > 0 ==> SubkeysOf(slot) == Flat(Indexes, SubKeyLists[slot])
    {
      assert KeyOk(slot.node) && (slot == Slot(slot.node, 0) || slot == Slot(slot.node, 1));
      assert SlotOk(Version, Indexes, Names, SubKeyCounts, SubKeyLists, slot);
    }

    /** The subkeys of a key are in the order of their names, that of a dictionary up to case, none twice, and they
        are keys of the storage. */
    lemma SubkeysAscend(slot: Slot)
      requires Valid() && slot.node in Names && slot.kind < 2
      ensures Ascending(NamesOf(Names, SubkeysOf(slot)))
      ensures InDictionaryOrder(Names, SubkeysOf(slot))
      ensures forall c {:trigger c in SubkeysOf(slot)} :: c in SubkeysOf(slot) ==> c in Names && c.Cell? && c.kind == slot.kind
    {
      SlotFacts(slot);
      NoneInOrder(Names, SubkeysOf(slot));
      if SubKeyCounts[slot] > 0 {
        TreeFacts(Version, Indexes, Names, slot.kind, SubKeyLists[slot]);
        forall c | c in SubkeysOf(slot) ensures c in Names && c.Cell? && c.kind == slot.kind {
          ListedKey(Version, Indexes, Names, slot.kind, SubKeyLists[slot], c);
        }
        AscendingIsDictionary(Names, SubkeysOf(slot));
      }
    }

    /** CmpFindSubKeyByName: the subkey whose name is this up to case, stable ones first; none if there is none. */
    method FindSubKeyByName(parent: HCell, searchName: Name) returns (subKey: HCell)
      requires Valid() && parent in Names
      ensures subKey == Nil <==>
        forall kind {:trigger Slot(parent, kind)} :: 0 <= kind < StorageTypeCount ==> Absent(NamesOf(Names, SubkeysOf(Slot(parent, kind))), searchName)
      ensures subKey != Nil ==> subKey in Names && Order(searchName, Names[subKey]) == 0 && exists kind {:trigger Slot(parent, kind)} ::
        && 0 <= kind < StorageTypeCount && subKey in SubkeysOf(Slot(parent, kind))
        && forall k {:trigger Slot(parent, k)} :: 0 <= k < kind ==> Absent(NamesOf(Names, SubkeysOf(Slot(parent, k))), searchName)
    {
      hide Coherent, Subkeys, TreeOk, Order, Absent, NamesOf, Flat;
      for i := 0 to StorageTypeCount
        invariant forall kind {:trigger Slot(parent, kind)} :: 0 <= kind < i ==> Absent(NamesOf(Names, SubkeysOf(Slot(parent, kind))), searchName)
      {
        var slot := Slot(parent, i);
        SlotFacts(slot);
        if SubKeyCounts[slot] != 0 {
          TreeFacts(Version, Indexes, Names, i, SubKeyLists[slot]);
          subKey := FindInIndex(Indexes, Names, i, RootedSignature(Version), SubKeyLists[slot], searchName);
          if subKey != Nil {
            IsPresent(Names, SubkeysOf(slot), subKey, searchName);
            ListedKey(Version, Indexes, Names, i, SubKeyLists[slot], subKey);
            return;
          }
        } else {
          NoneListed(Names, SubkeysOf(slot), searchName);
        }
      }
      subKey := Nil;
    }

    /** All subkeys of a key: the stable ones, then the volatile ones. */
    ghost function AllSubkeys(parent: HCell): seq<HCell>
      reads this
    {
      SubkeysOf(Slot(parent, 0)) + if StorageTypeCount > 1 then SubkeysOf(Slot(parent, 1)) else []
    }

    /** Of one storage, the subkeys with lower numbers come before in the dictionary. */
    lemma NumbersInOrder(parent: HCell, number: nat)
      requires Valid() && parent in Names && number < |AllSubkeys(parent)|
      ensures InOrderUpTo(Names, AllSubkeys(parent), number)
    {
      var stable, others := SubkeysOf(Slot(parent, 0)), SubkeysOf(Slot(parent, 1));
      SubkeysAscend(Slot(parent, 0));
      SubkeysAscend(Slot(parent, 1));
      hide Valid, SubkeysOf, Ascending;
      BothInOrder(Names, stable, if StorageTypeCount > 1 then others else [], number);
    }

    /** CmpFindSubKeyByNumber: the stable subkeys come first, then the volatile ones, each in order. */
    method FindSubKeyByNumber(parent: HCell, number: nat) returns (subKey: HCell)
      requires Valid() && parent in Names
      ensures subKey == if number < |AllSubkeys(parent)| then AllSubkeys(parent)[number] else Nil
      ensures number < |AllSubkeys(parent)| ==> InOrderUpTo(Names, AllSubkeys(parent), number)
    {
      if number < |AllSubkeys(parent)| { NumbersInOrder(parent, number); }
      hide Coherent, Subkeys, TreeOk, Flat, InOrderUpTo;
      SlotFacts(Slot(parent, 0));
      SlotFacts(Slot(parent, 1));
      var stable := SubKeyCounts[Slot(parent, 0)];
      if number < stable {
        TreeFacts(Version, Indexes, Names, 0, SubKeyLists[Slot(parent, 0)]);
        subKey := DoFindSubKeyByNumber(Indexes, Names, 0, RootedSignature(Version), SubKeyLists[Slot(parent, 0)], number);
        return;
      } else if StorageTypeCount > 1 {
        if number - stable < SubKeyCounts[Slot(parent, 1)] {
          TreeFacts(Version, Indexes, Names, 1, SubKeyLists[Slot(parent, 1)]);
          subKey := DoFindSubKeyByNumber(Indexes, Names, 1, RootedSignature(Version), SubKeyLists[Slot(parent, 1)], number - stable);
          return;
        }
      }
      subKey := Nil;
    }

    // ----- removing

    /** CmpRemoveSubKey: the target is taken out of its place.  A leaf that becomes empty is freed, and so is
        a root that becomes empty. */
    method RemoveSubKey(parent: HCell, target: HCell) returns (ghost at: nat)
      requires Valid() && parent in Names && target.Cell? && target in SubkeysOf(Slot(parent, target.kind))
      modifies this`Indexes, this`SubKeyLists, this`SubKeyCounts
      ensures Valid()
      ensures Shrunk(Version, Names, old(Indexes), old(SubKeyCounts), old(SubKeyLists), Slot(parent, target.kind),
                     Indexes, SubKeyCounts, SubKeyLists, at, target)
    {
      assert KeyOk(parent);
      hide Coherent, NamesOf, Subkeys;
      at := RemoveFromSlot(Slot(parent, target.kind), target);
      forall n | n in Names ensures KeyOk(n) { assert old(KeyOk(n)); }
    }

    method RemoveFromSlot(slot: Slot, target: HCell) returns (ghost at: nat)
      requires Coherent(Version, Indexes, Names, SubKeyCounts, SubKeyLists)
      requires target in Subkeys(Indexes, SubKeyCounts, SubKeyLists, slot)
      modifies this`Indexes, this`SubKeyLists, this`SubKeyCounts
      ensures Shrunk(Version, Names, old(Indexes), old(SubKeyCounts), old(SubKeyLists), slot, Indexes, SubKeyCounts, SubKeyLists, at, target)
    {
      ghost var indexes, counts, lists := Indexes, SubKeyCounts, SubKeyLists;
      UsedSlot(Version, Indexes, Names, SubKeyCounts, SubKeyLists, slot, target);
      TreeFacts(Version, Indexes, Names, slot.kind, SubKeyLists[slot]);
      hide *;
      var c := SubKeyLists[slot];
      SubKeyCounts := SubKeyCounts[slot := SubKeyCounts[slot] - 1];
      var newCell;
      if Indexes[c].signature == IndexRoot {
        newCell, at := RemoveBelowRoot(c, slot.kind, target);
      } else {
        newCell, at := RemoveFromSingle(c, slot.kind, target);
      }
      SubKeyLists := SubKeyLists[slot := newCell];
      RemovedFromSlot(Version, indexes, Names, counts, lists, slot, Indexes, SubKeyCounts, SubKeyLists, at, target);
    }

    /** A leaf that is an index of its own: without the entry, or freed. */
    method RemoveFromSingle(leafCell: HCell, ghost kind: nat, target: HCell) returns (newCell: HCell, ghost at: nat)
      requires TreeOk(Version, Indexes, Names, kind, leafCell) && target in Flat(Indexes, leafCell) && target in Names
      requires leafCell in Indexes && Indexes[leafCell].signature != IndexRoot
      modifies this`Indexes
      ensures Removed(Version, old(Indexes), Names, kind, leafCell, Indexes, newCell, at, target)
    {
      ghost var indexes := Indexes;
      FlatOfLeaf(Indexes, leafCell);
      TreeFacts(Version, Indexes, Names, kind, leafCell);
      hide *;
      var leaf := Indexes[leafCell];
      SingleAscending(Indexes, Names, leafCell);
      var i, child := FindSubKeyInLeaf(Names, kind, leaf, Names[target]);
      TheEntry(Names, leaf, i, target);
      at := i;
      if |leaf.list| == 1 {
        Indexes := Indexes - {leafCell};
        newCell := Nil;
        SingleGone(Version, indexes, Names, kind, leafCell, target);
      } else {
        Indexes := Indexes[leafCell := leaf.(list := leaf.list[..i] + leaf.list[i + 1..])];
        newCell := leafCell;
        SingleRemoved(Version, indexes, Names, kind, leafCell, i, target);
      }
    }

    /** A leaf below a root: without the entry, or freed and taken out of the root, or freed with the root. */
    method RemoveBelowRoot(rootCell: HCell, ghost kind: nat, target: HCell) returns (newCell: HCell, ghost at: nat)
      requires TreeOk(Version, Indexes, Names, kind, rootCell) && target in Flat(Indexes, rootCell) && target in Names
      requires rootCell in Indexes && Indexes[rootCell].signature == IndexRoot
      modifies this`Indexes
      ensures Removed(Version, old(Indexes), Names, kind, rootCell, Indexes, newCell, at, target)
    {
      var rootIndex, leafIndex := FindEntry(rootCell, kind, target);
      hide *;
      ghost var indexes := Indexes;
      var root := Indexes[rootCell];
      var leafCell := root.list[rootIndex].cell;
      var leaf := Indexes[leafCell];
      if |leaf.list| == 1 {
        newCell, at := RemoveLeaf(rootCell, kind, rootIndex, target);
      } else {
        at := Start(Leaves(indexes, rootCell), rootIndex) + leafIndex;
        newCell := rootCell;
        Indexes := Indexes[leafCell := leaf.(list := leaf.list[..leafIndex] + leaf.list[leafIndex + 1..])];
        LeafShrunk(Version, indexes, Names, kind, rootCell, rootIndex, leafIndex, target);
      }
    }

    /** A leaf that lists only the target is freed, and its root with it if it has no other. */
    method RemoveLeaf(rootCell: HCell, ghost kind: nat, rootIndex: nat, ghost target: HCell) returns (newCell: HCell, ghost at: nat)
      requires RootSound(Version, Indexes, Names, kind, rootCell) && Indexes[rootCell].signature == IndexRoot
      requires rootIndex < |Indexes[rootCell].list| && Indexes[rootCell].list[rootIndex].cell in Indexes && rootIndex < |Leaves(Indexes, rootCell)|
      requires var leaf := Indexes[Indexes[rootCell].list[rootIndex].cell]; |leaf.list| == 1 && leaf.list[0].cell == target
      modifies this`Indexes
      ensures Removed(Version, old(Indexes), Names, kind, rootCell, Indexes, newCell, at, target)
    {
      ghost var indexes := Indexes;
      var root := Indexes[rootCell];
      hide *;
      Indexes := Indexes - {root.list[rootIndex].cell};
      at := Start(Leaves(indexes, rootCell), rootIndex);
      if |root.list| == 1 {
        Indexes := Indexes - {rootCell};
        newCell := Nil;
        RootGone(Version, indexes, Names, kind, rootCell, target);
      } else {
        newCell := rootCell;
        Indexes := Indexes[rootCell := root.(list := root.list[..rootIndex] + root.list[rootIndex + 1..])];
        LeafGone(Version, indexes, Names, kind, rootCell, rootIndex, target);
      }
    }

    /** The leaf of a root that lists the target, and the entry. */
    method FindEntry(rootCell: HCell, ghost kind: nat, target: HCell) returns (rootIndex: nat, leafIndex: nat)
      requires TreeOk(Version, Indexes, Names, kind, rootCell) && target in Flat(Indexes, rootCell) && target in Names
      requires rootCell in Indexes && Indexes[rootCell].signature == IndexRoot
      ensures RootSound(Version, Indexes, Names, kind, rootCell)
      ensures rootIndex < |Indexes[rootCell].list| && Indexes[rootCell].list[rootIndex].cell in Indexes && rootIndex < |Leaves(Indexes, rootCell)|
      ensures var leaf := Indexes[Indexes[rootCell].list[rootIndex].cell]; leafIndex < |leaf.list| && leaf.list[leafIndex].cell == target
    {
      FlatOfRoot(Indexes, rootCell);
      TreeFacts(Version, Indexes, Names, kind, rootCell);
      RootIsSound(Version, Indexes, Names, kind, rootCell);
      var root := Indexes[rootCell];
      assert FlatAscending(Names, RootTree(Indexes, root.list));
      hide *;
      var leafCell, child;
      rootIndex, leafCell := FindSubKeyInRoot(Indexes, Names, kind, RootedSignature(Version), root, Names[target]);
      LeavesOfRoot(Indexes, rootCell);
      TheLeaf(Version, Indexes, Names, kind, rootCell, rootIndex, leafCell, target);
      leafIndex, child := FindSubKeyInLeaf(Names, kind, Indexes[leafCell], Names[target]);
      TheEntry(Names, Indexes[leafCell], leafIndex, target);
    }

    /** Adding a key and removing it again leaves every list of subkeys as it was. */
    method AddAndRemove(parent: HCell, child: HCell)
      requires Valid() && parent in Names && child in Names
      requires Absent(NamesOf(Names, SubkeysOf(Slot(parent, child.kind))), Names[child])
      modifies this`Indexes, this`SubKeyLists, this`SubKeyCounts
      ensures Valid() && SubKeyCounts == old(SubKeyCounts)
      ensures forall r {:trigger SubkeysOf(r)} :: SubkeysOf(r) == Subkeys(old(Indexes), old(SubKeyCounts), old(SubKeyLists), r)
    {
      ghost var indexes, counts, lists, slot := Indexes, SubKeyCounts, SubKeyLists, Slot(parent, child.kind);
      assert KeyOk(parent) && KeyOk(child);
      SlotFacts(slot);
      AbsentCell(Names, SubkeysOf(slot), child);
      hide Valid, Coherent, Grown, Shrunk, Subkeys, Absent, NamesOf;
      ghost var at := AddSubKey(parent, child);
      ghost var indexes1, counts1, lists1 := Indexes, SubKeyCounts, SubKeyLists;
      NowListed(Version, Names, indexes, counts, lists, slot, indexes1, counts1, lists1, at, child);
      ghost var at' := RemoveSubKey(parent, child);
      AddedAndRemoved(Version, Names, indexes, counts, lists, slot, indexes1, counts1, lists1, at, child,
                      Indexes, SubKeyCounts, SubKeyLists, at');
    }
  }

  lemma NowListed(version: nat, names: map<HCell, Name>, indexes: map<HCell, Index>, counts: map<Slot, nat>, lists: map<Slot, HCell>,
                  s: Slot, indexes1: map<HCell, Index>, counts1: map<Slot, nat>, lists1: map<Slot, HCell>, at: nat, child: HCell)
    requires Grown(version, names, indexes, counts, lists, s, indexes1, counts1, lists1, at, child)
    ensures child in Subkeys(indexes1, counts1, lists1, s)
  {
    InsertedAt(Subkeys(indexes, counts, lists, s), at, child);
  }

  /** What removing undoes of what adding did: everything. */
  lemma AddedAndRemoved(version: nat, names: map<HCell, Name>, indexes: map<HCell, Index>, counts: map<Slot, nat>, lists: map<Slot, HCell>,
                        s: Slot, indexes1: map<HCell, Index>, counts1: map<Slot, nat>, lists1: map<Slot, HCell>, at: nat, child: HCell,
                        indexes2: map<HCell, Index>, counts2: map<Slot, nat>, lists2: map<Slot, HCell>, at': nat)
    requires Grown(version, names, indexes, counts, lists, s, indexes1, counts1, lists1, at, child)
    requires Shrunk(version, names, indexes1, counts1, lists1, s, indexes2, counts2, lists2, at', child)
    requires s in counts && counts[s] == |Subkeys(indexes, counts, lists, s)| && child !in Subkeys(indexes, counts, lists, s)
    ensures counts2 == counts
    ensures forall r {:trigger Subkeys(indexes2, counts2, lists2, r)} ::
      Subkeys(indexes2, counts2, lists2, r) == Subkeys(indexes, counts, lists, r)
  {
    hide Coherent, Subkeys, NamesOf;
    RestoredCells(Subkeys(indexes, counts, lists, s), at, at', child);
    forall r ensures Subkeys(indexes2, counts2, lists2, r) == Subkeys(indexes, counts, lists, r) {
      if r != s {
        assert Subkeys(indexes1, counts1, lists1, r) == Subkeys(indexes, counts, lists, r);
      }
    }
  }

  /** An index with room for one more entry: a leaf that is not full, or a root. */
  ghost predicate Ready(version: nat, indexes: map<HCell, Index>, names: map<HCell, Name>, kind: nat, c: HCell)
  {
    && c in indexes && c.Cell? && c.kind == kind
    && if indexes[c].signature == IndexRoot then RootSound(version, indexes, names, kind, c)
       else && LeafOk(names, kind, indexes[c]) && indexes[c].signature in {FirstSignature(version), RootedSignature(version)}
            && |indexes[c].list| < MaxCount(indexes[c].signature) && LeafAscending(names, indexes[c])
  }

  /** Each key's name precedes, as in a dictionary and up to case, the names of the keys behind it. */
  ghost predicate InDictionaryOrder(names: map<HCell, Name>, cells: seq<HCell>)
  {
    forall i, j :: 0 <= i < j < |cells| ==> cells[i] in names && cells[j] in names && Precedes(names[cells[i]], names[cells[j]])
  }

  /** The keys before this one that are of the same storage have names that precede its name. */
  ghost predicate InOrderUpTo(names: map<HCell, Name>, cells: seq<HCell>, number: nat)
    requires number < |cells|
  {
    && cells[number].Cell? && cells[number] in names
    && forall k :: 0 <= k < number && cells[k].Cell? && cells[k].kind == cells[number].kind ==>
         cells[k] in names && Precedes(names[cells[k]], names[cells[number]])
  }

  lemma BothInOrder(names: map<HCell, Name>, stable: seq<HCell>, others: seq<HCell>, number: nat)
    requires InDictionaryOrder(names, stable) && InDictionaryOrder(names, others) && number < |stable + others|
    requires forall c {:trigger c in stable} :: c in stable ==> c in names && c.Cell? && c.kind == 0
    requires forall c {:trigger c in others} :: c in others ==> c in names && c.Cell? && c.kind == 1
    ensures InOrderUpTo(names, stable + others, number)
  {
    hide Precedes;
    var all := stable + others;
    assert if number < |stable| then all[number] in stable else all[number] in others;
    forall k | 0 <= k < number && all[k].Cell? && all[k].kind == all[number].kind
      ensures all[k] in names && Precedes(names[all[k]], names[all[number]])
    {
      assert if k < |stable| then all[k] in stable else all[k] in others;
    }
  }

  lemma NoneInOrder(names: map<HCell, Name>, cells: seq<HCell>)
    ensures cells == [] ==> InDictionaryOrder(names, cells)
  {
  }

  lemma AscendingIsDictionary(names: map<HCell, Name>, cells: seq<HCell>)
    requires Ascending(NamesOf(names, cells)) && forall c {:trigger c in names} :: c in cells ==> c in names
    ensures InDictionaryOrder(names, cells)
  {
    hide Precedes, Order;
    var ns := NamesOf(names, cells);
    forall i, j | 0 <= i < j < |cells| ensures cells[i] in names && cells[j] in names && Precedes(names[cells[i]], names[cells[j]]) {
      assert Before(ns[i], ns[j]) && cells[i] in cells && cells[j] in cells;
      OrderIs(ns[i], ns[j]);
    }
  }

  /** What form a list takes on: that of a first leaf; a plain leaf for 507 entries with hints; a root for 1013
      entries of another kind; and otherwise the form it has. */
  ghost predicate OneForm(version: nat, indexes: map<HCell, Index>, counts: map<Slot, nat>, lists: map<Slot, HCell>, slot: Slot,
                          indexes': map<HCell, Index>, c': HCell)
    requires slot in counts
  {
    && c' in indexes'
    && if counts[slot] == 0 then indexes'[c'].signature == FirstSignature(version) && indexes'[c'].list == []
       else
         && slot in lists && lists[slot] in indexes
         && var c, index := lists[slot], indexes[lists[slot]];
            if index.signature == FastLeaf && |index.list| >= 507 then c' == c && indexes'[c].signature == IndexLeaf
            else if index.signature in {IndexLeaf, HashLeaf} && |index.list| >= 1013 then
              c' != c && indexes'[c'].signature == IndexRoot && indexes'[c'].list == [Entry(c, [], 0)] && c in indexes' && indexes'[c] == index
            else c' == c && indexes' == indexes
  }

  /** The index in cell c, now in c', lists one more subkey; no cell of another index has changed. */
  ghost predicate Added(version: nat, indexes: map<HCell, Index>, names: map<HCell, Name>, kind: nat, c: HCell,
                        indexes': map<HCell, Index>, c': HCell, at: nat, child: HCell)
  {
    && TreeOk(version, indexes', names, kind, c') && indexes'.Keys !! names.Keys
    && Framed(indexes, Footprint(indexes, c), indexes', Footprint(indexes', c'))
    && PlacedAt(NamesOf(names, Flat(indexes, c)), at, NameOf(names, child))
    && Flat(indexes', c') == InsertedCell(Flat(indexes, c), at, child)
  }

  lemma NamedKey(names: map<HCell, Name>, c: HCell)
    requires c in names
    ensures NameOf(names, c) == names[c]
  {
  }

  lemma FlatOfLeaf(indexes: map<HCell, Index>, c: HCell)
    requires c in indexes && indexes[c].signature != IndexRoot
    ensures Flat(indexes, c) == Cells(indexes[c].list) && Footprint(indexes, c) == {c}
  {
    OneLeaf(indexes, c);
  }

  lemma LeavesOfRoot(indexes: map<HCell, Index>, c: HCell)
    requires c in indexes
    ensures Leaves(indexes, c) == RootTree(indexes, indexes[c].list)
  {
  }

  lemma FlatOfRoot(indexes: map<HCell, Index>, c: HCell)
    requires c in indexes && indexes[c].signature == IndexRoot
    ensures Flat(indexes, c) == Concat(Leaves(indexes, c)) && Footprint(indexes, c) == {c} + ListCells(indexes[c].list)
  {
  }

  lemma FirstLeafReady(version: nat, indexes: map<HCell, Index>, names: map<HCell, Name>, kind: nat, c: HCell, indexes': map<HCell, Index>)
    requires c.Cell? && c.kind == kind && c !in indexes && c in indexes' && indexes' == indexes[c := indexes'[c]]
    requires indexes'[c].signature == FirstSignature(version) && indexes'[c].list == [] && indexes'[c].size >= 12
    ensures Ready(version, indexes', names, kind, c) && Flat(indexes', c) == [] && Framed(indexes, {}, indexes', Footprint(indexes', c))
  {
    FlatOfLeaf(indexes', c);
  }

  lemma ConvertedReady(version: nat, indexes: map<HCell, Index>, names: map<HCell, Name>, kind: nat, c: HCell, indexes': map<HCell, Index>)
    requires TreeOk(version, indexes, names, kind, c) && indexes[c].signature == FastLeaf
    requires c in indexes' && indexes' == indexes[c := Index(IndexLeaf, indexes[c].size, indexes'[c].list)]
    requires Cells(indexes'[c].list) == Cells(indexes[c].list)
    ensures Ready(version, indexes', names, kind, c) && Flat(indexes', c) == Flat(indexes, c)
    ensures Framed(indexes, Footprint(indexes, c), indexes', Footprint(indexes', c))
  {
    FlatOfLeaf(indexes, c);
    FlatOfLeaf(indexes', c);
    var l, l' := indexes[c], indexes'[c];
    forall k | 0 <= k < |l'.list| ensures EntryOk(names, kind, IndexLeaf, l'.list[k]) {
      assert Cells(l'.list)[k] == l'.list[k].cell && Cells(l.list)[k] == l.list[k].cell;
      assert EntryOk(names, kind, FastLeaf, l.list[k]);
    }
  }

  lemma RootedReady(version: nat, indexes: map<HCell, Index>, names: map<HCell, Name>, kind: nat, c: HCell, r: HCell, size: nat,
                    indexes': map<HCell, Index>)
    requires TreeOk(version, indexes, names, kind, c) && indexes[c].signature in {IndexLeaf, HashLeaf}
    requires r.Cell? && r.kind == kind && r !in indexes && size >= 12
    requires indexes' == indexes[r := Index(IndexRoot, size, [Entry(c, [], 0)])]
    ensures Ready(version, indexes', names, kind, r) && Flat(indexes', r) == Flat(indexes, c)
    ensures Framed(indexes, Footprint(indexes, c), indexes', Footprint(indexes', r))
  {
    hide LeafOk, Ascending;
    FlatOfLeaf(indexes, c);
    FlatOfRoot(indexes', r);
    assert RootedLeaf(indexes', names, kind, RootedSignature(version), Entry(c, [], 0));
    assert Leaves(indexes', r) == Tree(indexes, c);
    assert ListCells([Entry(c, [], 0)]) == {c} by { InList([Entry(c, [], 0)], 0); }
  }

  lemma ReadyRoot(version: nat, indexes: map<HCell, Index>, names: map<HCell, Name>, kind: nat, c: HCell)
    requires Ready(version, indexes, names, kind, c)
    ensures c in indexes && c.Cell? && c.kind == kind
    ensures if indexes[c].signature == IndexRoot then RootSound(version, indexes, names, kind, c) && Flat(indexes, c) == Concat(Leaves(indexes, c))
            else LeafOk(names, kind, indexes[c]) && LeafAscending(names, indexes[c]) && Flat(indexes, c) == Cells(indexes[c].list)
  {
    if indexes[c].signature != IndexRoot { FlatOfLeaf(indexes, c); }
  }

  /** A leaf that is an index of its own, with one more entry. */
  lemma LeafAdded(version: nat, indexes: map<HCell, Index>, names: map<HCell, Name>, kind: nat, c: HCell,
                  indexes': map<HCell, Index>, c': HCell, at: nat, child: HCell)
    requires Ready(version, indexes, names, kind, c) && indexes[c].signature != IndexRoot
    requires c'.Cell? && c'.kind == kind && Framed(indexes, {c}, indexes', {c'})
    requires LeafOk(names, kind, indexes'[c']) && indexes'[c'].signature == indexes[c].signature
    requires PlacedAt(NamesOf(names, Cells(indexes[c].list)), at, NameOf(names, child))
    requires Cells(indexes'[c'].list) == InsertedCell(Cells(indexes[c].list), at, child)
    requires indexes.Keys !! names.Keys && (c' == c || c' !in names)
    ensures Added(version, indexes, names, kind, c, indexes', c', at, child)
  {
    hide LeafOk, Ascending, Below, Above;
    FlatOfLeaf(indexes, c);
    FlatOfLeaf(indexes', c');
    NamesInserted(names, Cells(indexes[c].list), at, child);
    InsertedAscending(NamesOf(names, Cells(indexes[c].list)), at, NameOf(names, child));
    assert |Cells(indexes'[c'].list)| == |indexes[c].list| + 1;
  }

  lemma NamesInserted(names: map<HCell, Name>, cells: seq<HCell>, i: nat, c: HCell)
    requires i <= |cells|
    ensures NamesOf(names, InsertedCell(cells, i, c)) == Inserted(NamesOf(names, cells), i, NameOf(names, c))
  {
  }

  lemma LeafSelected(version: nat, indexes: map<HCell, Index>, names: map<HCell, Name>, kind: nat, c: HCell, k: nat, name: Name)
    requires RootSound(version, indexes, names, kind, c) && k < |indexes[c].list|
    requires Absent(NamesOf(names, Concat(Leaves(indexes, c))), name)
    ensures var leafCell := indexes[c].list[k].cell;
      && leafCell in indexes && leafCell.Cell? && leafCell.kind == kind && LeafOk(names, kind, indexes[leafCell])
      && LeafAscending(names, indexes[leafCell]) && Absent(NamesOf(names, Cells(indexes[leafCell].list)), name)
    ensures k < |Leaves(indexes, c)|
  {
    var signature, root := RootedSignature(version), indexes[c];
    RootLeaf(indexes, names, kind, signature, root, k);
    LeafOfRoot(indexes, names, kind, signature, root, k);
    var leaf := indexes[root.list[k].cell];
    var ns, ls := NamesOf(names, Concat(Leaves(indexes, c))), NamesOf(names, Cells(leaf.list));
    hide RootOk, Leaves, Concat, NamesOf, LeafOk, Ascending, Order, Start;
    forall i | 0 <= i < |ls| ensures Order(name, ls[i]) != 0 {
      NameAt(names, leaf.list, i);
      assert NameOf(names, leaf.list[i].cell) == ns[Start(RootTree(indexes, root.list), k) + i];
    }
  }

  lemma NameAt(names: map<HCell, Name>, list: seq<Entry>, i: nat)
    requires i < |list|
    ensures NamesOf(names, Cells(list))[i] == NameOf(names, list[i].cell)
  {
  }

  /** Moving a leaf leaves its root alone. */
  lemma RootKept(version: nat, indexes: map<HCell, Index>, names: map<HCell, Name>, kind: nat, c: HCell, k: nat,
                 indexes': map<HCell, Index>, newLeaf: HCell)
    requires RootSound(version, indexes, names, kind, c) && k < |indexes[c].list|
    requires Framed(indexes, {indexes[c].list[k].cell}, indexes', {newLeaf})
    ensures c in indexes' && indexes'[c] == indexes[c] && c != newLeaf && c != indexes[c].list[k].cell
  {
    RootLeaf(indexes, names, kind, RootedSignature(version), indexes[c], k);
  }

  /** What a name's place in a leaf is in all that the root lists. */
  lemma PlacedBelowRoot(version: nat, indexes: map<HCell, Index>, names: map<HCell, Name>, kind: nat, c: HCell, k: nat, i: nat, name: Name)
    requires RootSound(version, indexes, names, kind, c) && k < |indexes[c].list| && indexes[c].list[k].cell in indexes
    requires var leaf := indexes[indexes[c].list[k].cell];
      PlacedAt(NamesOf(names, Cells(leaf.list)), i, name) && i <= |leaf.list|
    requires var t := Leaves(indexes, c); GoesInto(NamesOf(names, Concat(t)), t, k, name)
    ensures var t := Leaves(indexes, c);
      && Leaves(indexes, c)[k] == Cells(indexes[indexes[c].list[k].cell].list)
      && PlacedAt(NamesOf(names, Concat(t)), Start(t, k) + i, name)
  {
    var signature, root, t := RootedSignature(version), indexes[c], Leaves(indexes, c);
    var leaf := indexes[root.list[k].cell];
    var ns, ls, at := NamesOf(names, Concat(t)), NamesOf(names, Cells(leaf.list)), Start(t, k);
    RootLeaf(indexes, names, kind, signature, root, k);
    LeafOfRoot(indexes, names, kind, signature, root, k);
    hide RootOk, Leaves, Concat, NamesOf, LeafOk, Ascending, Order, Start;
    forall x | 0 <= x < |leaf.list| ensures ns[at + x] == ls[x] {
      NameAt(names, leaf.list, x);
      assert NameOf(names, leaf.list[x].cell) == ns[at + x];
    }
    forall x | 0 <= x < at + i ensures Before(ns[x], name) {
      if x >= at { assert ns[at + (x - at)] == ls[x - at]; }
    }
    forall x | at + i <= x < |ns| ensures Before(name, ns[x]) {
      if x < at + |leaf.list| { assert ns[at + (x - at)] == ls[x - at]; }
    }
  }

  lemma ConcatUpdated(t: seq<seq<HCell>>, k: nat, x: seq<HCell>)
    requires k < |t|
    ensures Concat(t[k := x]) == Concat(t[..k]) + x + Concat(t[k + 1..])
  {
    var t' := t[k := x];
    assert t'[..k] == t[..k] && t'[k + 1..] == t[k + 1..];
    ConcatAt(t', k);
  }

  lemma ConcatInserted(t: seq<seq<HCell>>, k: nat, i: nat, c: HCell)
    requires k < |t| && i <= |t[k]|
    ensures Start(t, k) + i <= |Concat(t)|
    ensures Concat(t[k := InsertedCell(t[k], i, c)]) == InsertedCell(Concat(t), Start(t, k) + i, c)
  {
    ConcatAt(t, k);
    ConcatUpdated(t, k, InsertedCell(t[k], i, c));
    hide Concat;
    InsertedMiddle(Concat(t[..k]), t[k], Concat(t[k + 1..]), i, c);
  }

  lemma InsertedMiddle(a: seq<HCell>, m: seq<HCell>, b: seq<HCell>, i: nat, c: HCell)
    requires i <= |m|
    ensures a + InsertedCell(m, i, c) + b == InsertedCell(a + m + b, |a| + i, c)
  {
    assert (a + m + b)[..|a| + i] == a + m[..i];
    assert (a + m + b)[|a| + i..] == m[i..] + b;
  }

  /** One more entry in a leaf below a root. */
  lemma RootAdded(version: nat, indexes: map<HCell, Index>, names: map<HCell, Name>, kind: nat, c: HCell, k: nat,
                  indexes1: map<HCell, Index>, newLeaf: HCell, i: nat, child: HCell)
    requires RootSound(version, indexes, names, kind, c) && k < |indexes[c].list| && indexes[c].list[k].cell in indexes
    requires Framed(indexes, {indexes[c].list[k].cell}, indexes1, {newLeaf}) && newLeaf.Cell? && newLeaf.kind == kind
    requires newLeaf == indexes[c].list[k].cell || newLeaf !in indexes
    requires var leaf := indexes[indexes[c].list[k].cell];
      && |leaf.list| < MAX_INDEX && PlacedAt(NamesOf(names, Cells(leaf.list)), i, NameOf(names, child))
      && LeafOk(names, kind, indexes1[newLeaf]) && indexes1[newLeaf].signature == leaf.signature
      && Cells(indexes1[newLeaf].list) == InsertedCell(Cells(leaf.list), i, child)
    requires var t := Leaves(indexes, c); GoesInto(NamesOf(names, Concat(t)), t, k, NameOf(names, child))
    requires indexes.Keys !! names.Keys && (newLeaf in indexes || newLeaf !in names)
    ensures k < |Leaves(indexes, c)|
    ensures Added(version, indexes, names, kind, c, indexes1[c := indexes[c].(list := indexes[c].list[k := Entry(newLeaf, [], 0)])], c,
                  Start(Leaves(indexes, c), k) + i, child)
  {
    var signature, root, t, e := RootedSignature(version), indexes[c], Leaves(indexes, c), Entry(newLeaf, [], 0);
    var leaf := indexes[root.list[k].cell];
    var root' := root.(list := root.list[k := e]);
    var indexes' := indexes1[c := root'];
    RootKept(version, indexes, names, kind, c, k, indexes1, newLeaf);
    RootLeaf(indexes, names, kind, signature, root, k);
    assert |Cells(indexes1[newLeaf].list)| == |leaf.list| + 1;
    assert RootedLeaf(indexes1, names, kind, signature, e);
    hide LeafOk, Concat, Start, Ascending, Below, Above;
    PlacedBelowRoot(version, indexes, names, kind, c, k, i, NameOf(names, child));
    LeafReplaced(indexes, names, kind, signature, root, k, indexes1, e);
    NotARoot(indexes, names, kind, signature, root, c);
    RootRewritten(version, indexes1, names, kind, c, root');
    LeafMoved(indexes, c, root, k, indexes1, e);
    assert Leaves(indexes', c) == t[k := InsertedCell(t[k], i, child)];
    hide RootOk, RootTree, Footprint, Framed;
    FlatOfRoot(indexes, c);
    FlatOfRoot(indexes', c);
    TreeGrown(version, indexes, names, kind, c, k, i, indexes', child);
  }

  lemma TreeGrown(version: nat, indexes: map<HCell, Index>, names: map<HCell, Name>, kind: nat, c: HCell, k: nat, i: nat,
                  indexes': map<HCell, Index>, child: HCell)
    requires c in indexes' && c.Cell? && c.kind == kind && indexes'[c].signature == IndexRoot
    requires RootOk(indexes', names, kind, RootedSignature(version), indexes'[c])
    requires var t := Leaves(indexes, c);
      k < |t| && i <= |t[k]| && Leaves(indexes', c) == t[k := InsertedCell(t[k], i, child)]
    requires var t := Leaves(indexes, c);
      Ascending(NamesOf(names, Concat(t))) && PlacedAt(NamesOf(names, Concat(t)), Start(t, k) + i, NameOf(names, child))
    ensures TreeOk(version, indexes', names, kind, c)
    ensures var t := Leaves(indexes, c);
      Start(t, k) + i <= |Concat(t)| && Concat(Leaves(indexes', c)) == InsertedCell(Concat(t), Start(t, k) + i, child)
  {
    var t := Leaves(indexes, c);
    hide RootOk, Leaves, Concat, Start, Ascending, Below, Above;
    ConcatInserted(t, k, i, child);
    NamesInserted(names, Concat(t), Start(t, k) + i, child);
    InsertedAscending(NamesOf(names, Concat(t)), Start(t, k) + i, NameOf(names, child));
    FlatOfRoot(indexes', c);
  }

  /** A root may be rewritten: its leaves are in other cells. */
  lemma RootRewritten(version: nat, indexes: map<HCell, Index>, names: map<HCell, Name>, kind: nat, c: HCell, root': Index)
    requires c in indexes && indexes[c].signature == IndexRoot
    requires RootOk(indexes, names, kind, RootedSignature(version), root')
    ensures RootOk(indexes[c := root'], names, kind, RootedSignature(version), root')
    ensures RootTree(indexes[c := root'], root'.list) == RootTree(indexes, root'.list)
  {
    NotARoot(indexes, names, kind, RootedSignature(version), root', c);
    forall k | 0 <= k < |root'.list| ensures root'.list[k].cell in indexes && root'.list[k].cell != c {
      InList(root'.list, k);
      assert RootedLeaf(indexes, names, kind, RootedSignature(version), root'.list[k]);
    }
    RootSame(version, indexes, indexes[c := root'], names, kind, root');
  }

  lemma LeafMoved(indexes: map<HCell, Index>, c: HCell, root: Index, k: nat, indexes1: map<HCell, Index>, e: Entry)
    requires c in indexes && indexes[c] == root && root.signature == IndexRoot && k < |root.list| && c !in ListCells(root.list)
    requires Framed(indexes, {root.list[k].cell}, indexes1, {e.cell}) && ListCells(root.list) <= indexes.Keys
    requires ListCells(root.list[k := e]) == ListCells(root.list) - {root.list[k].cell} + {e.cell} && c != e.cell
    ensures var indexes' := indexes1[c := root.(list := root.list[k := e])];
      Framed(indexes, Footprint(indexes, c), indexes', Footprint(indexes', c))
  {
    InList(root.list, k);
    hide ListCells;
  }

  /** One slot with one more subkey. */
  lemma SlotGrown(version: nat, indexes: map<HCell, Index>, names: map<HCell, Name>, counts: map<Slot, nat>, lists: map<Slot, HCell>,
                  s: Slot, indexes': map<HCell, Index>, counts': map<Slot, nat>, lists': map<Slot, HCell>, at: nat, child: HCell)
    requires Coherent(version, indexes, names, counts, lists) && s in counts && s in lists'
    requires counts' == counts[s := counts[s] + 1] && lists' == lists[s := lists'[s]]
    requires Framed(indexes, SlotCells(indexes, counts, lists, s), indexes', Footprint(indexes', lists'[s]))
    requires TreeOk(version, indexes', names, s.kind, lists'[s]) && indexes'.Keys !! names.Keys
    requires at <= |Subkeys(indexes, counts, lists, s)|
    requires Flat(indexes', lists'[s]) == InsertedCell(Subkeys(indexes, counts, lists, s), at, child)
    ensures Coherent(version, indexes', names, counts', lists') && counts[s] == |Subkeys(indexes, counts, lists, s)|
    ensures Subkeys(indexes', counts', lists', s) == InsertedCell(Subkeys(indexes, counts, lists, s), at, child)
    ensures forall r {:trigger Subkeys(indexes', counts', lists', r)} :: r != s ==>
      Subkeys(indexes', counts', lists', r) == Subkeys(indexes, counts, lists, r)
  {
    assert SlotOk(version, indexes, names, counts, lists, s);
    FootprintExists(version, indexes', names, s.kind, lists'[s]);
    hide TreeOk, Footprint, Flat;
    SlotReplaced(version, indexes, names, counts, lists, s, indexes', counts', lists');
  }

  /** One slot lists one more subkey, in its place; the others list what they listed. */
  ghost predicate Grown(version: nat, names: map<HCell, Name>, indexes: map<HCell, Index>, counts: map<Slot, nat>, lists: map<Slot, HCell>,
                        s: Slot, indexes': map<HCell, Index>, counts': map<Slot, nat>, lists': map<Slot, HCell>, at: nat, child: HCell)
  {
    var subkeys := Subkeys(indexes, counts, lists, s);
    && Coherent(version, indexes', names, counts', lists') && counts' == counts[s := |subkeys| + 1]
    && PlacedAt(NamesOf(names, subkeys), at, NameOf(names, child))
    && Subkeys(indexes', counts', lists', s) == InsertedCell(subkeys, at, child)
    && forall r {:trigger Subkeys(indexes', counts', lists', r)} :: r != s ==>
         Subkeys(indexes', counts', lists', r) == Subkeys(indexes, counts, lists, r)
  }

  lemma AddedToSlot(version: nat, indexes: map<HCell, Index>, names: map<HCell, Name>, counts: map<Slot, nat>, lists: map<Slot, HCell>,
                    s: Slot, ready: map<HCell, Index>, c: HCell, indexes': map<HCell, Index>, counts': map<Slot, nat>,
                    lists': map<Slot, HCell>, at: nat, child: HCell)
    requires Coherent(version, indexes, names, counts, lists) && s in counts && s in lists'
    requires counts' == counts[s := counts[s] + 1] && lists' == lists[s := lists'[s]]
    requires Framed(indexes, SlotCells(indexes, counts, lists, s), ready, Footprint(ready, c))
    requires Flat(ready, c) == Subkeys(indexes, counts, lists, s)
    requires Added(version, ready, names, s.kind, c, indexes', lists'[s], at, child)
    ensures Grown(version, names, indexes, counts, lists, s, indexes', counts', lists', at, child)
  {
    hide Coherent, TreeOk, Footprint, Framed, Flat, Subkeys, SlotCells, NamesOf;
    FramedTwice(indexes, SlotCells(indexes, counts, lists, s), ready, Footprint(ready, c), indexes', Footprint(indexes', lists'[s]));
    SlotGrown(version, indexes, names, counts, lists, s, indexes', counts', lists', at, child);
  }

  lemma AlreadyReady(version: nat, indexes: map<HCell, Index>, names: map<HCell, Name>, kind: nat, c: HCell)
    requires TreeOk(version, indexes, names, kind, c)
    requires indexes[c].signature == FastLeaf ==> |indexes[c].list| < MAX_FAST_INDEX
    requires indexes[c].signature in {IndexLeaf, HashLeaf} ==> |indexes[c].list| < MAX_INDEX
    ensures Ready(version, indexes, names, kind, c) && Framed(indexes, Footprint(indexes, c), indexes, Footprint(indexes, c))
  {
    hide LeafOk, RootOk, Ascending, NamesOf, Concat, RootTree;
    FootprintExists(version, indexes, names, kind, c);
    if indexes[c].signature != IndexRoot { FlatOfLeaf(indexes, c); }
  }

  /** A further key changes nothing for those there are. */
  lemma TreeNamed(version: nat, indexes: map<HCell, Index>, names: map<HCell, Name>, names': map<HCell, Name>, kind: nat, c: HCell)
    requires TreeOk(version, indexes, names, kind, c)
    requires forall n {:trigger n in names} :: n in names ==> n in names' && names'[n] == names[n]
    ensures TreeOk(version, indexes, names', kind, c)
  {
    var flat := Flat(indexes, c);
    forall x | x in flat ensures NameOf(names', x) == NameOf(names, x) { ListedKey(version, indexes, names, kind, c, x); }
    assert NamesOf(names', flat) == NamesOf(names, flat);
    hide Ascending, Concat, NamesOf;
    if indexes[c].signature == IndexRoot {
      var root := indexes[c];
      forall k | 0 <= k < |root.list| ensures RootedLeaf(indexes, names', kind, RootedSignature(version), root.list[k]) {
        assert RootedLeaf(indexes, names, kind, RootedSignature(version), root.list[k]);
        LeafNamed(names, names', kind, indexes[root.list[k].cell]);
      }
    } else {
      LeafNamed(names, names', kind, indexes[c]);
    }
  }

  lemma LeafNamed(names: map<HCell, Name>, names': map<HCell, Name>, kind: nat, leaf: Index)
    requires LeafOk(names, kind, leaf)
    requires forall n {:trigger n in names} :: n in names ==> n in names' && names'[n] == names[n]
    ensures LeafOk(names', kind, leaf)
  {
    forall k | 0 <= k < |leaf.list| ensures EntryOk(names', kind, leaf.signature, leaf.list[k]) {
      assert EntryOk(names, kind, leaf.signature, leaf.list[k]);
    }
  }

  lemma NodeAdded(version: nat, indexes: map<HCell, Index>, names: map<HCell, Name>, counts: map<Slot, nat>, lists: map<Slot, HCell>,
                  n: HCell, name: Name)
    requires Coherent(version, indexes, names, counts, lists) && n !in names && n !in indexes
    requires Slot(n, 0) !in counts && Slot(n, 1) !in counts
    ensures var counts', lists' := counts[Slot(n, 0) := 0][Slot(n, 1) := 0], lists[Slot(n, 0) := Nil][Slot(n, 1) := Nil];
      && Coherent(version, indexes, names[n := name], counts', lists')
      && forall r {:trigger Subkeys(indexes, counts', lists', r)} :: Subkeys(indexes, counts', lists', r) == Subkeys(indexes, counts, lists, r)
  {
    var counts', lists' := counts[Slot(n, 0) := 0][Slot(n, 1) := 0], lists[Slot(n, 0) := Nil][Slot(n, 1) := Nil];
    SameSlots(counts, lists, counts', lists', n);
    hide Coherent;
    SlotsAdded(version, indexes, names, counts, lists, names[n := name], counts', lists');
  }

  /** The slots in use are the same. */
  ghost predicate SameUse(counts: map<Slot, nat>, lists: map<Slot, HCell>, counts': map<Slot, nat>, lists': map<Slot, HCell>, s: Slot)
  {
    && (Used(counts', lists', s) <==> Used(counts, lists, s))
    && (Used(counts, lists, s) ==> lists'[s] == lists[s] && counts'[s] == counts[s])
  }

  lemma SameSlots(counts: map<Slot, nat>, lists: map<Slot, HCell>, counts': map<Slot, nat>, lists': map<Slot, HCell>, n: HCell)
    requires Slot(n, 0) !in counts && Slot(n, 1) !in counts
    requires counts' == counts[Slot(n, 0) := 0][Slot(n, 1) := 0] && lists' == lists[Slot(n, 0) := Nil][Slot(n, 1) := Nil]
    ensures forall s {:trigger SameUse(counts, lists, counts', lists', s)} :: SameUse(counts, lists, counts', lists', s)
    ensures counts.Keys == lists.Keys ==> counts'.Keys == lists'.Keys
  {
  }

  lemma SlotsAdded(version: nat, indexes: map<HCell, Index>, names: map<HCell, Name>, counts: map<Slot, nat>, lists: map<Slot, HCell>,
                   names': map<HCell, Name>, counts': map<Slot, nat>, lists': map<Slot, HCell>)
    requires Coherent(version, indexes, names, counts, lists) && indexes.Keys !! names'.Keys && counts'.Keys == lists'.Keys
    requires forall n {:trigger n in names} :: n in names ==> n in names' && names'[n] == names[n]
    requires forall s {:trigger SameUse(counts, lists, counts', lists', s)} :: SameUse(counts, lists, counts', lists', s)
    ensures Coherent(version, indexes, names', counts', lists')
    ensures forall r {:trigger Subkeys(indexes, counts', lists', r)} :: Subkeys(indexes, counts', lists', r) == Subkeys(indexes, counts, lists, r)
  {
    hide TreeOk, Footprint, Flat;
    forall s | s in counts' ensures SlotOk(version, indexes, names', counts', lists', s) {
      assert SameUse(counts, lists, counts', lists', s);
      if Used(counts, lists, s) {
        assert SlotOk(version, indexes, names, counts, lists, s);
        TreeNamed(version, indexes, names, names', s.kind, lists[s]);
      }
    }
    forall s, r | s != r && Used(counts', lists', s) && Used(counts', lists', r) ensures Apart(indexes, lists', s, r) {
      assert SameUse(counts, lists, counts', lists', s) && SameUse(counts, lists, counts', lists', r);
      assert Apart(indexes, lists, s, r);
    }
    forall c | c in indexes ensures Owned(indexes, counts', lists', c) {
      assert Owned(indexes, counts, lists, c);
      var s :| Used(counts, lists, s) && c in Footprint(indexes, lists[s]);
      assert SameUse(counts, lists, counts', lists', s);
      assert Used(counts', lists', s) && c in Footprint(indexes, lists'[s]);
    }
    forall r ensures Subkeys(indexes, counts', lists', r) == Subkeys(indexes, counts, lists, r) {
      assert SameUse(counts, lists, counts', lists', r);
    }
  }

  lemma TreeFacts(version: nat, indexes: map<HCell, Index>, names: map<HCell, Name>, kind: nat, c: HCell)
    requires TreeOk(version, indexes, names, kind, c)
    ensures c in indexes && FlatAscending(names, Tree(indexes, c))
    ensures if indexes[c].signature == IndexRoot then RootOk(indexes, names, kind, RootedSignature(version), indexes[c])
            else LeafOk(names, kind, indexes[c]) && indexes[c].list != []
  {
  }

  lemma NoneListed(names: map<HCell, Name>, cells: seq<HCell>, name: Name)
    requires |cells| == 0
    ensures Absent(NamesOf(names, cells), name)
  {
  }

  /** What an index lists are keys. */
  lemma ListedKey(version: nat, indexes: map<HCell, Index>, names: map<HCell, Name>, kind: nat, c: HCell, subKey: HCell)
    requires TreeOk(version, indexes, names, kind, c) && subKey in Flat(indexes, c)
    ensures subKey in names && subKey.Cell? && subKey.kind == kind && KeyName(names[subKey])
  {
    var t := Tree(indexes, c);
    var p :| 0 <= p < |Concat(t)| && Concat(t)[p] == subKey;
    var k, i := Locate(t, p);
    hide Concat, Start;
    if indexes[c].signature == IndexRoot {
      RootLeaf(indexes, names, kind, RootedSignature(version), indexes[c], k);
      var leaf := indexes[indexes[c].list[k].cell];
      assert EntryOk(names, kind, leaf.signature, leaf.list[i]);
    } else {
      assert EntryOk(names, kind, indexes[c].signature, indexes[c].list[i]);
    }
  }

  /** Position p of a row of leaves is position i of leaf k. */
  lemma {:induction false} Locate(t: seq<seq<HCell>>, p: nat) returns (k: nat, i: nat)
    requires p < |Concat(t)|
    ensures k < |t| && i < |t[k]| && t[k][i] == Concat(t)[p] && p == Start(t, k) + i
  {
    var n := |t| - 1;
    if p >= |Concat(t[..n])| {
      k, i := n, p - |Concat(t[..n])|;
    } else {
      k, i := Locate(t[..n], p);
      assert t[..n][..k] == t[..k];
    }
  }

  // ----- removing

  ghost function Without(cells: seq<HCell>, i: nat): seq<HCell>
    requires i < |cells|
  {
    cells[..i] + cells[i + 1..]
  }

  lemma InsertedAt(cells: seq<HCell>, i: nat, c: HCell)
    requires i <= |cells|
    ensures c in InsertedCell(cells, i, c)
  {
    assert InsertedCell(cells, i, c)[i] == c;
  }

  /** Taking out what was put in gives back the sequence. */
  lemma RestoredCells(cells: seq<HCell>, i: nat, j: nat, c: HCell)
    requires i <= |cells| && j <= |cells| && c !in cells && InsertedCell(cells, i, c)[j] == c
    ensures Without(InsertedCell(cells, i, c), j) == cells
  {
    assert j == i;
  }

  lemma AbsentCell(names: map<HCell, Name>, cells: seq<HCell>, c: HCell)
    requires c in names && Absent(NamesOf(names, cells), names[c])
    ensures c !in cells
  {
    OrderEqual(names[c], names[c]);
    if c in cells { IsPresent(names, cells, c, names[c]); }
  }

  /** The index in cell c lists one subkey less, and is gone if that was the only one. */
  ghost predicate Removed(version: nat, indexes: map<HCell, Index>, names: map<HCell, Name>, kind: nat, c: HCell,
                          indexes': map<HCell, Index>, c': HCell, at: nat, target: HCell)
  {
    var flat := Flat(indexes, c);
    && at < |flat| && flat[at] == target
    && if |flat| == 1 then c' == Nil && Framed(indexes, Footprint(indexes, c), indexes', {})
       else && TreeOk(version, indexes', names, kind, c') && Flat(indexes', c') == Without(flat, at)
            && Framed(indexes, Footprint(indexes, c), indexes', Footprint(indexes', c')) && Footprint(indexes', c') <= Footprint(indexes, c)
  }

  ghost predicate Shrunk(version: nat, names: map<HCell, Name>, indexes: map<HCell, Index>, counts: map<Slot, nat>, lists: map<Slot, HCell>,
                         s: Slot, indexes': map<HCell, Index>, counts': map<Slot, nat>, lists': map<Slot, HCell>, at: nat, target: HCell)
  {
    var subkeys := Subkeys(indexes, counts, lists, s);
    && Coherent(version, indexes', names, counts', lists') && at < |subkeys| && subkeys[at] == target
    && counts' == counts[s := |subkeys| - 1] && Subkeys(indexes', counts', lists', s) == Without(subkeys, at)
    && forall r {:trigger Subkeys(indexes', counts', lists', r)} :: r != s ==>
         Subkeys(indexes', counts', lists', r) == Subkeys(indexes, counts, lists, r)
  }

  lemma UsedSlot(version: nat, indexes: map<HCell, Index>, names: map<HCell, Name>, counts: map<Slot, nat>, lists: map<Slot, HCell>,
                 s: Slot, target: HCell)
    requires Coherent(version, indexes, names, counts, lists) && target in Subkeys(indexes, counts, lists, s)
    ensures s in counts && s in lists && counts[s] > 0 && TreeOk(version, indexes, names, s.kind, lists[s])
    ensures target in Flat(indexes, lists[s]) && target in names
  {
    assert SlotOk(version, indexes, names, counts, lists, s);
    ListedKey(version, indexes, names, s.kind, lists[s], target);
  }

  lemma RemovedFromSlot(version: nat, indexes: map<HCell, Index>, names: map<HCell, Name>, counts: map<Slot, nat>, lists: map<Slot, HCell>,
                        s: Slot, indexes': map<HCell, Index>, counts': map<Slot, nat>, lists': map<Slot, HCell>, at: nat, target: HCell)
    requires Coherent(version, indexes, names, counts, lists) && s in counts && s in lists && s in lists' && counts[s] > 0
    requires counts' == counts[s := counts[s] - 1] && lists' == lists[s := lists'[s]]
    requires Removed(version, indexes, names, s.kind, lists[s], indexes', lists'[s], at, target)
    ensures Shrunk(version, names, indexes, counts, lists, s, indexes', counts', lists', at, target)
  {
    SlotShrunk(version, indexes, names, counts, lists, s, indexes', counts', lists', at, target);
    hide Coherent, TreeOk, Footprint, Flat, Framed, SlotCells, SlotOk, Used, Subkeys, Removed, Without;
    SlotReplaced(version, indexes, names, counts, lists, s, indexes', counts', lists');
  }

  lemma SlotShrunk(version: nat, indexes: map<HCell, Index>, names: map<HCell, Name>, counts: map<Slot, nat>, lists: map<Slot, HCell>,
                   s: Slot, indexes': map<HCell, Index>, counts': map<Slot, nat>, lists': map<Slot, HCell>, at: nat, target: HCell)
    requires Coherent(version, indexes, names, counts, lists) && s in counts && s in lists && s in lists' && counts[s] > 0
    requires counts' == counts[s := counts[s] - 1] && lists' == lists[s := lists'[s]]
    requires Removed(version, indexes, names, s.kind, lists[s], indexes', lists'[s], at, target)
    ensures SlotOk(version, indexes', names, counts', lists', s) && counts[s] == |Subkeys(indexes, counts, lists, s)|
    ensures Framed(indexes, SlotCells(indexes, counts, lists, s), indexes', SlotCells(indexes', counts', lists', s))
    ensures SlotCells(indexes', counts', lists', s) !! names.Keys
    ensures at < |Subkeys(indexes, counts, lists, s)| && Subkeys(indexes, counts, lists, s)[at] == target
    ensures Subkeys(indexes', counts', lists', s) == Without(Subkeys(indexes, counts, lists, s), at)
  {
    assert SlotOk(version, indexes, names, counts, lists, s);
    FootprintExists(version, indexes, names, s.kind, lists[s]);
    assert Footprint(indexes, lists[s]) !! names.Keys;
    hide Coherent, TreeOk, Footprint, Flat, Framed;
    assert |Flat(indexes, lists[s])| == 1 ==> Without(Flat(indexes, lists[s]), at) == [];
  }

  lemma SingleAscending(indexes: map<HCell, Index>, names: map<HCell, Name>, c: HCell)
    requires c in indexes && indexes[c].signature != IndexRoot && FlatAscending(names, Tree(indexes, c))
    ensures LeafAscending(names, indexes[c])
  {
    OneLeaf(indexes, c);
  }

  /** The entry a search for a listed key's name finds is the key's. */
  lemma TheEntry(names: map<HCell, Name>, leaf: Index, i: nat, target: HCell)
    requires LeafAscending(names, leaf) && target in names && target in Cells(leaf.list)
    requires leaf.list != [] ==> AtOrNextTo(NamesOf(names, Cells(leaf.list)), i, names[target])
    ensures i < |leaf.list| && leaf.list[i].cell == target
  {
    var ns := NamesOf(names, Cells(leaf.list));
    var p :| 0 <= p < |leaf.list| && Cells(leaf.list)[p] == target;
    OrderEqual(names[target], names[target]);
    hide Order, Ascending;
    assert ns[p] == names[target];
    NextToFound(ns, i, p, names[target]);
    SamePlace(ns, i, p, names[target]);
    assert Cells(leaf.list)[i] == leaf.list[i].cell;
  }

  lemma NextToFound(ns: seq<Name>, i: nat, p: nat, name: Name)
    requires AtOrNextTo(ns, i, name) && p < |ns| && Order(name, ns[p]) == 0
    ensures Order(name, ns[i]) == 0
  {
    if Order(name, ns[i]) != 0 { NextToIsAbsent(ns, i, name); }
  }

  lemma SamePlace(ns: seq<Name>, i: nat, p: nat, name: Name)
    requires Ascending(ns) && i < |ns| && p < |ns| && ns[p] == name && Order(name, ns[i]) == 0
    ensures i == p
  {
    OnlyOnce(ns, p, i);
  }

  lemma RootIsSound(version: nat, indexes: map<HCell, Index>, names: map<HCell, Name>, kind: nat, c: HCell)
    requires TreeOk(version, indexes, names, kind, c) && indexes[c].signature == IndexRoot
    ensures RootSound(version, indexes, names, kind, c)
  {
  }

  /** The leaf a search of the root for a listed key's name finds lists the key. */
  lemma TheLeaf(version: nat, indexes: map<HCell, Index>, names: map<HCell, Name>, kind: nat, c: HCell, k: nat, leafCell: HCell, target: HCell)
    requires RootSound(version, indexes, names, kind, c) && target in names && target in Concat(Leaves(indexes, c))
    requires k < |indexes[c].list|
    requires var t := Leaves(indexes, c);
      var ns := NamesOf(names, Concat(t));
      if leafCell.Cell? then leafCell == indexes[c].list[k].cell && FirstReaching(ns, t, k, names[target])
      else (k == 0 && Above(ns, 0, names[target])) || (k == |indexes[c].list| - 1 && Below(ns, |ns|, names[target]))
    ensures leafCell in indexes && leafCell == indexes[c].list[k].cell && LeafOk(names, kind, indexes[leafCell])
    ensures LeafAscending(names, indexes[leafCell]) && target in Cells(indexes[leafCell].list) && k < |Leaves(indexes, c)|
  {
    var signature, root, t := RootedSignature(version), indexes[c], Leaves(indexes, c);
    var ns, name := NamesOf(names, Concat(t)), names[target];
    var p :| 0 <= p < |Concat(t)| && Concat(t)[p] == target;
    assert ns[p] == name;
    OrderEqual(name, name);
    RootLeaf(indexes, names, kind, signature, root, k);
    LeafOfRoot(indexes, names, kind, signature, root, k);
    ConcatAt(t, k);
    hide RootOk, Order, Concat, Start, Ascending;
    if !leafCell.Cell? { OutsideIsAbsent(ns, name); }
    OnlyInLeaf(ns, t, k, p, name);
    assert t[k][p - Start(t, k)] == target;
  }

  lemma EntriesWithout(names: map<HCell, Name>, kind: nat, leaf: Index, i: nat)
    requires LeafOk(names, kind, leaf) && i < |leaf.list|
    ensures var leaf' := leaf.(list := leaf.list[..i] + leaf.list[i + 1..]);
      LeafOk(names, kind, leaf') && Cells(leaf'.list) == Without(Cells(leaf.list), i)
  {
    hide EntryOk;
    var list' := leaf.list[..i] + leaf.list[i + 1..];
    forall k | 0 <= k < |list'| ensures EntryOk(names, kind, leaf.signature, list'[k]) {
      assert list'[k] == leaf.list[if k < i then k else k + 1];
    }
  }

  lemma AscendingWithout(names: map<HCell, Name>, cells: seq<HCell>, i: nat)
    requires Ascending(NamesOf(names, cells)) && i < |cells|
    ensures Ascending(NamesOf(names, Without(cells, i)))
  {
    var ns := NamesOf(names, cells);
    RemovedAscending(ns, i);
    assert NamesOf(names, Without(cells, i)) == ns[..i] + ns[i + 1..];
  }

  lemma SingleGone(version: nat, indexes: map<HCell, Index>, names: map<HCell, Name>, kind: nat, c: HCell, target: HCell)
    requires TreeOk(version, indexes, names, kind, c) && indexes[c].signature != IndexRoot && |indexes[c].list| == 1
    requires indexes[c].list[0].cell == target
    ensures Removed(version, indexes, names, kind, c, indexes - {c}, Nil, 0, target)
  {
    FlatOfLeaf(indexes, c);
    assert Cells(indexes[c].list)[0] == target;
  }

  lemma SingleRemoved(version: nat, indexes: map<HCell, Index>, names: map<HCell, Name>, kind: nat, c: HCell, i: nat, target: HCell)
    requires TreeOk(version, indexes, names, kind, c) && indexes[c].signature != IndexRoot && |indexes[c].list| > 1
    requires i < |indexes[c].list| && indexes[c].list[i].cell == target
    ensures var leaf := indexes[c];
      Removed(version, indexes, names, kind, c, indexes[c := leaf.(list := leaf.list[..i] + leaf.list[i + 1..])], c, i, target)
  {
    var leaf := indexes[c];
    var indexes' := indexes[c := leaf.(list := leaf.list[..i] + leaf.list[i + 1..])];
    SingleAscending(indexes, names, c);
    EntriesWithout(names, kind, leaf, i);
    assert LeafAscending(names, leaf) ==> Ascending(NamesOf(names, Cells(leaf.list)));
    hide EntryOk, Order, Ascending, NamesOf, LeafAscending;
    AscendingWithout(names, Cells(leaf.list), i);
    hide LeafOk, Ascending;
    FlatOfLeaf(indexes, c);
    FlatOfLeaf(indexes', c);
    assert Cells(leaf.list)[i] == target && |Cells(leaf.list)| == |leaf.list|;
  }

  lemma ConcatWithout(t: seq<seq<HCell>>, k: nat, i: nat)
    requires k < |t| && i < |t[k]|
    ensures Start(t, k) + i < |Concat(t)| && Concat(t)[Start(t, k) + i] == t[k][i]
    ensures Concat(t[k := Without(t[k], i)]) == Without(Concat(t), Start(t, k) + i)
    ensures |t[k]| == 1 ==> Concat(t[..k] + t[k + 1..]) == Without(Concat(t), Start(t, k) + i)
  {
    ConcatAt(t, k);
    ConcatUpdated(t, k, Without(t[k], i));
    ConcatSum(t[..k], t[k + 1..]);
    hide Concat;
    WithoutMiddle(Concat(t[..k]), t[k], Concat(t[k + 1..]), i);
  }

  lemma WithoutMiddle(a: seq<HCell>, m: seq<HCell>, b: seq<HCell>, i: nat)
    requires i < |m|
    ensures a + Without(m, i) + b == Without(a + m + b, |a| + i)
    ensures |m| == 1 ==> a + b == Without(a + m + b, |a| + i)
  {
    assert (a + m + b)[..|a| + i] == a + m[..i];
    assert (a + m + b)[|a| + i + 1..] == m[i + 1..] + b;
  }

  /** Of a root's lists, one subkey is gone. */
  lemma TreeShrunk(version: nat, indexes: map<HCell, Index>, names: map<HCell, Name>, kind: nat, c: HCell, k: nat, i: nat,
                   indexes': map<HCell, Index>)
    requires c in indexes' && c.Cell? && c.kind == kind && indexes'[c].signature == IndexRoot
    requires RootOk(indexes', names, kind, RootedSignature(version), indexes'[c])
    requires var t := Leaves(indexes, c);
      k < |t| && i < |t[k]| && (Leaves(indexes', c) == t[k := Without(t[k], i)] || (|t[k]| == 1 && Leaves(indexes', c) == t[..k] + t[k + 1..]))
    requires Ascending(NamesOf(names, Concat(Leaves(indexes, c))))
    ensures TreeOk(version, indexes', names, kind, c)
    ensures var t := Leaves(indexes, c);
      && Start(t, k) + i < |Concat(t)| && Concat(t)[Start(t, k) + i] == t[k][i]
      && Concat(Leaves(indexes', c)) == Without(Concat(t), Start(t, k) + i)
  {
    var t := Leaves(indexes, c);
    hide RootOk, Leaves, Concat, Start, Ascending;
    ConcatWithout(t, k, i);
    AscendingWithout(names, Concat(t), Start(t, k) + i);
    FlatOfRoot(indexes', c);
  }

  /** A root that lists more than one leaf, or a leaf of more than one entry, lists more than one subkey. */
  lemma MoreThanOne(version: nat, indexes: map<HCell, Index>, names: map<HCell, Name>, kind: nat, c: HCell, k: nat)
    requires RootSound(version, indexes, names, kind, c) && k < |indexes[c].list|
    ensures var t := Leaves(indexes, c); k < |t| && ((|t| == 1 && |t[k]| == 1) <==> |Concat(t)| == 1) && |t[k]| >= 1
    ensures var t := Leaves(indexes, c); |t| == 1 ==> Start(t, k) == 0
  {
    var t := Leaves(indexes, c);
    RootLeaf(indexes, names, kind, RootedSignature(version), indexes[c], k);
    RootLeaf(indexes, names, kind, RootedSignature(version), indexes[c], 0);
    RootLeaf(indexes, names, kind, RootedSignature(version), indexes[c], |t| - 1);
    hide RootOk;
    ConcatAll(t);
    ConcatAt(t, k);
    ConcatAt(t, 0);
    ConcatAt(t, |t| - 1);
    hide Concat;
    if |t| > 1 { StartsRise(t, 1, |t| - 1); }
  }

  lemma LeafShrunk(version: nat, indexes: map<HCell, Index>, names: map<HCell, Name>, kind: nat, c: HCell, k: nat, i: nat, target: HCell)
    requires RootSound(version, indexes, names, kind, c) && k < |indexes[c].list| && indexes[c].list[k].cell in indexes
    requires indexes[c].signature == IndexRoot && k < |Leaves(indexes, c)|
    requires var leaf := indexes[indexes[c].list[k].cell]; |leaf.list| > 1 && i < |leaf.list| && leaf.list[i].cell == target
    ensures var leafCell := indexes[c].list[k].cell;
      var leaf := indexes[leafCell];
      Removed(version, indexes, names, kind, c, indexes[leafCell := leaf.(list := leaf.list[..i] + leaf.list[i + 1..])], c,
              Start(Leaves(indexes, c), k) + i, target)
  {
    var signature, root, t := RootedSignature(version), indexes[c], Leaves(indexes, c);
    var leafCell := root.list[k].cell;
    var leaf := indexes[leafCell];
    var leaf' := leaf.(list := leaf.list[..i] + leaf.list[i + 1..]);
    var indexes' := indexes[leafCell := leaf'];
    RootLeaf(indexes, names, kind, signature, root, k);
    MoreThanOne(version, indexes, names, kind, c, k);
    EntriesWithout(names, kind, leaf, i);
    assert RootedLeaf(indexes', names, kind, signature, root.list[k]);
    assert RootOk(indexes, names, kind, signature, root) && Ascending(NamesOf(names, Concat(t)));
    hide RootSound, LeafOk, Concat, Start, Ascending, NamesOf, RootedLeaf;
    LeafReplaced(indexes, names, kind, signature, root, k, indexes', root.list[k]);
    NotARoot(indexes, names, kind, signature, root, c);
    InList(root.list, k);
    assert root.list[k := root.list[k]] == root.list && root.(list := root.list) == root;
    assert indexes'[c] == root;
    hide RootOk, RootTree, ListCells;
    assert Leaves(indexes', c) == t[k := Without(t[k], i)];
    TreeShrunk(version, indexes, names, kind, c, k, i, indexes');
    FlatOfRoot(indexes, c);
    FlatOfRoot(indexes', c);
  }

  lemma LeafGone(version: nat, indexes: map<HCell, Index>, names: map<HCell, Name>, kind: nat, c: HCell, k: nat, target: HCell)
    requires RootSound(version, indexes, names, kind, c) && k < |indexes[c].list| && indexes[c].list[k].cell in indexes
    requires indexes[c].signature == IndexRoot && k < |Leaves(indexes, c)| && |indexes[c].list| > 1
    requires var leaf := indexes[indexes[c].list[k].cell]; |leaf.list| == 1 && leaf.list[0].cell == target
    ensures var root := indexes[c];
      Removed(version, indexes, names, kind, c, (indexes - {root.list[k].cell})[c := root.(list := root.list[..k] + root.list[k + 1..])], c,
              Start(Leaves(indexes, c), k), target)
  {
    var signature, root, t := RootedSignature(version), indexes[c], Leaves(indexes, c);
    var leafCell := root.list[k].cell;
    var indexes1 := indexes - {leafCell};
    var root' := root.(list := root.list[..k] + root.list[k + 1..]);
    var indexes' := indexes1[c := root'];
    RootLeaf(indexes, names, kind, signature, root, k);
    MoreThanOne(version, indexes, names, kind, c, k);
    assert RootOk(indexes, names, kind, signature, root) && Ascending(NamesOf(names, Concat(t)));
    hide RootSound, LeafOk, Concat, Start, Ascending, NamesOf, RootedLeaf;
    LeafRemoved(indexes, names, kind, signature, root, k, indexes1);
    NotARoot(indexes, names, kind, signature, root, c);
    InList(root.list, k);
    ListedExist(indexes, names, kind, signature, root);
    RootRewritten(version, indexes1, names, kind, c, root');
    hide RootOk, RootTree, ListCells;
    assert Leaves(indexes', c) == t[..k] + t[k + 1..];
    hide Leaves;
    TreeShrunk(version, indexes, names, kind, c, k, 0, indexes');
    FlatOfRoot(indexes, c);
    FlatOfRoot(indexes', c);
    hide Flat, TreeOk;
    FootprintWithout(indexes, c, leafCell, indexes', ListCells(root.list), ListCells(root'.list));
  }

  lemma FootprintWithout(indexes: map<HCell, Index>, c: HCell, leafCell: HCell, indexes': map<HCell, Index>, cells: set<HCell>, cells': set<HCell>)
    requires Footprint(indexes, c) == {c} + cells && Footprint(indexes', c) == {c} + cells' && cells' == cells - {leafCell}
    requires c in indexes && leafCell in cells && c !in cells && c in indexes' && indexes' == (indexes - {leafCell})[c := indexes'[c]]
    requires cells <= indexes.Keys
    ensures Framed(indexes, Footprint(indexes, c), indexes', Footprint(indexes', c)) && Footprint(indexes', c) <= Footprint(indexes, c)
  {
  }

  lemma RootGone(version: nat, indexes: map<HCell, Index>, names: map<HCell, Name>, kind: nat, c: HCell, target: HCell)
    requires RootSound(version, indexes, names, kind, c) && indexes[c].signature == IndexRoot && |indexes[c].list| == 1
    requires indexes[c].list[0].cell in indexes
    requires var leaf := indexes[indexes[c].list[0].cell]; |leaf.list| == 1 && leaf.list[0].cell == target
    ensures |Leaves(indexes, c)| == 1 && Start(Leaves(indexes, c), 0) == 0
    ensures Removed(version, indexes, names, kind, c, indexes - {indexes[c].list[0].cell} - {c}, Nil, 0, target)
  {
    RootLeaf(indexes, names, kind, RootedSignature(version), indexes[c], 0);
    MoreThanOne(version, indexes, names, kind, c, 0);
    FlatOfRoot(indexes, c);
    ConcatAt(Leaves(indexes, c), 0);
    assert Leaves(indexes, c)[0][0] == target;
    assert ListCells(indexes[c].list) == {indexes[c].list[0].cell} by { InList(indexes[c].list, 0); }
  }

  lemma FirstIsKey(names: map<HCell, Name>, kind: nat, leaf: Index)
    requires LeafOk(names, kind, leaf) && leaf.list != []
    ensures leaf.list[0].cell in names
  {
    assert EntryOk(names, kind, leaf.signature, leaf.list[0]);
  }

  ghost function VerdictOf(ns: seq<Name>, t: seq<seq<HCell>>, k: nat, cell: HCell, name: Name): Verdict
  {
    if cell.Cell? then Reached else if k == 0 && Above(ns, 0, name) then BeforeAll else AfterAll
  }

  lemma VerdictHolds(ns: seq<Name>, t: seq<seq<HCell>>, k: nat, cell: HCell, name: Name)
    requires k < |t|
    requires if cell.Cell? then FirstReaching(ns, t, k, name)
             else (k == 0 && Above(ns, 0, name)) || (k == |t| - 1 && Below(ns, |ns|, name))
    ensures Found(ns, t, k, VerdictOf(ns, t, k, cell, name), name)
  {
  }

  lemma NothingFramed(indexes: map<HCell, Index>, fp: set<HCell>)
    ensures fp <= indexes.Keys ==> Framed(indexes, fp, indexes, fp)
  {
  }

  lemma RootExists(version: nat, indexes: map<HCell, Index>, names: map<HCell, Name>, kind: nat, c: HCell)
    requires RootSound(version, indexes, names, kind, c)
    ensures Footprint(indexes, c) <= indexes.Keys
  {
    ListedExist(indexes, names, kind, RootedSignature(version), indexes[c]);
  }

  /** After a split: leaves at and at + 1 are the halves, and both have room. */
  ghost predicate Halved(ns: seq<Name>, t: seq<seq<HCell>>, at: nat, how: Verdict, name: Name)
  {
    at + 1 < |t| && |t[at]| < MAX_INDEX && |t[at + 1]| < MAX_INDEX && FoundHalf(ns, t, at, how, name)
  }

  lemma NoThirdSearch(version: nat, indexes: map<HCell, Index>, names: map<HCell, Name>, kind: nat, rootCell: HCell,
                      at: nat, how: Verdict, k: nat, verdict: Verdict, name: Name)
    requires RootSound(version, indexes, names, kind, rootCell)
    requires var t := Leaves(indexes, rootCell);
      var ns := NamesOf(names, Concat(t));
      k < |t| && Halved(ns, t, at, how, name) && Found(ns, t, k, verdict, name)
    ensures |Leaves(indexes, rootCell)[k]| < MAX_INDEX
  {
    hide RootOk, RootTree, Concat, Start, Ascending, Order, Below, Above, NamesOf, LeafOk;
    var t := Leaves(indexes, rootCell);
    forall i | 0 <= i < |t| ensures t[i] != [] {
      RootLeaf(indexes, names, kind, RootedSignature(version), indexes[rootCell], i);
    }
    hide FirstReaching, Leaves;
    SecondSearch(NamesOf(names, Concat(t)), t, at, how, k, verdict, name);
  }

  lemma SplitFound(version: nat, indexes: map<HCell, Index>, names: map<HCell, Name>, kind: nat, rootCell: HCell,
                   indexes': map<HCell, Index>, newRoot: HCell, k: nat, verdict: Verdict, name: Name)
    requires RootSound(version, indexes, names, kind, rootCell) && k < |indexes[rootCell].list|
    requires newRoot in indexes' && newRoot.Cell? && newRoot.kind == kind
    requires RootOk(indexes', names, kind, RootedSignature(version), indexes'[newRoot])
    requires var t := Leaves(indexes, rootCell);
      Leaves(indexes', newRoot) == SplitTree(t, k) && Found(NamesOf(names, Concat(t)), t, k, verdict, name)
    ensures var t, t' := Leaves(indexes, rootCell), Leaves(indexes', newRoot);
      && Concat(t') == Concat(t) && RootSound(version, indexes', names, kind, newRoot)
      && Halved(NamesOf(names, Concat(t)), t', k, verdict, name)
  {
    hide RootOk, RootTree, Concat, Ascending, Order, SplitTree, Below, Above, NamesOf, LeafOk;
    var t := Leaves(indexes, rootCell);
    RootLeaf(indexes, names, kind, RootedSignature(version), indexes[rootCell], k);
    SplitListsTheSame(t, k);
    SplitStarts(t, k);
  }

  lemma SplitStarts(t: seq<seq<HCell>>, k: nat)
    requires k < |t|
    ensures var t' := SplitTree(t, k); Start(t', k) == Start(t, k) && Start(t', k + 2) == Start(t, k + 1)
    ensures var t' := SplitTree(t, k); |t'| == |t| + 1 && t'[k] == t[k][..|t[k]| / 2] && t'[k + 1] == t[k][|t[k]| / 2..]
  {
    var t' := SplitTree(t, k);
    assert t'[..k] == t[..k];
    ConcatAt(t', k);
    ConcatAt(t', k + 1);
    ConcatAt(t, k);
  }

  /** Leaf k of a root is a leaf. */
  lemma RootLeaf(indexes: map<HCell, Index>, names: map<HCell, Name>, kind: nat, signature: Signature, root: Index, k: nat)
    requires RootOk(indexes, names, kind, signature, root) && k < |root.list|
    ensures root.list[k].cell in indexes && root.list[k].cell.Cell? && root.list[k].cell.kind == kind
    ensures LeafOk(names, kind, indexes[root.list[k].cell]) && 0 < |indexes[root.list[k].cell].list| <= MAX_INDEX
    ensures indexes[root.list[k].cell].signature == signature
    ensures RootTree(indexes, root.list)[k] == Cells(indexes[root.list[k].cell].list)
    ensures 4 + 4 * |root.list| <= root.size
  {
    assert RootedLeaf(indexes, names, kind, signature, root.list[k]);
  }

  lemma GrownCells(indexes: map<HCell, Index>, rootCell: HCell, indexes': map<HCell, Index>, newRoot: HCell, leafCell: HCell)
    requires Framed(indexes, {rootCell}, indexes', {newRoot}) && leafCell in indexes && leafCell != rootCell
    ensures leafCell in indexes' && newRoot in indexes' && newRoot != leafCell
    ensures indexes'.Keys == indexes.Keys - {rootCell} + {newRoot}
  {
  }

  lemma SplitStored(indexes: map<HCell, Index>, rootCell: HCell, k: nat, newCell: HCell, newSize: nat, newRoot: HCell,
                    between: map<HCell, Index>, indexes': map<HCell, Index>)
    requires rootCell in indexes && k < |indexes[rootCell].list| && indexes[rootCell].list[k].cell in indexes
    requires indexes[rootCell].list[k].cell != rootCell && newCell !in indexes
    requires var leaf := indexes[indexes[rootCell].list[k].cell];
      Framed(indexes[newCell := Index(leaf.signature, newSize, [])], {rootCell}, between, {newRoot})
    requires newRoot == rootCell || (newRoot !in indexes && newRoot != newCell)
    requires newRoot in between && between[newRoot] == indexes[rootCell].(size := between[newRoot].size)
    requires indexes[rootCell].signature == IndexRoot
    requires var leafCell := indexes[rootCell].list[k].cell;
      var leaf := indexes[leafCell];
      var h := |leaf.list| / 2;
      var root := between[newRoot];
      indexes' == between[newCell := Index(leaf.signature, newSize, leaf.list[h..])][leafCell := leaf.(list := leaf.list[..h])]
                         [newRoot := root.(list := root.list[..k + 1] + [Entry(newCell, [], 0)] + root.list[k + 1..])]
    ensures SplitCells(indexes, rootCell, k, newCell, newSize, newRoot, between[newRoot].size, indexes')
  {
  }

  lemma FootprintInside(indexes: map<HCell, Index>, c: HCell, indexes': map<HCell, Index>, c': HCell)
    ensures c in Footprint(indexes, c) && c' in Footprint(indexes', c')
  {
  }

  /** Position i is where the name goes. */
  ghost predicate PlacedAt(ns: seq<Name>, i: nat, name: Name)
  {
    i <= |ns| && Below(ns, i, name) && Above(ns, i, name)
  }

  lemma NoNames(ns: seq<Name>, name: Name)
    ensures |ns| == 0 ==> PlacedAt(ns, 0, name)
  {
  }

  lemma NotThere(names: map<HCell, Name>, list: seq<Entry>, i: nat, name: Name)
    requires Absent(NamesOf(names, Cells(list)), name) && i < |list|
    ensures Order(name, NameOf(names, list[i].cell)) != 0
  {
    assert NamesOf(names, Cells(list))[i] == NameOf(names, list[i].cell);
  }

  /** There are always cells not in use. */
  lemma {:induction false} SomeCell(kind: nat, used: set<HCell>)
    ensures exists n: nat :: Cell(kind, n) !in used
  {
    var bound := BoundOf(used);
    assert Cell(kind, bound) !in used;
  }

  lemma {:induction false} BoundOf(used: set<HCell>) returns (bound: nat)
    ensures forall c {:trigger c in used} :: c in used && c.Cell? ==> c.n < bound
  {
    if used == {} {
      bound := 0;
    } else {
      var c :| c in used;
      bound := BoundOf(used - {c});
      if c.Cell? && c.n >= bound { bound := c.n + 1; }
      forall d | d in used && d.Cell? ensures d.n < bound {
        assert d == c || d in used - {c};
      }
    }
  }

  lemma EntryInserted(names: map<HCell, Name>, kind: nat, leaf: Index, i: nat, e: Entry)
    requires LeafOk(names, kind, leaf) && EntryOk(names, kind, leaf.signature, e) && i <= |leaf.list|
    requires 4 + EntriesSize(leaf.signature, |leaf.list|) + EntrySize(leaf.signature) <= leaf.size
    ensures var leaf' := leaf.(list := leaf.list[..i] + [e] + leaf.list[i..]);
      && LeafOk(names, kind, leaf') && Cells(leaf'.list) == InsertedCell(Cells(leaf.list), i, e.cell)
  {
    hide EntryOk;
    var list' := leaf.list[..i] + [e] + leaf.list[i..];
    forall k | 0 <= k < |list'| ensures EntryOk(names, kind, leaf.signature, list'[k]) {
      assert list'[k] == if k < i then leaf.list[k] else if k == i then e else leaf.list[k - 1];
    }
  }
}
