/** Looking names up in subkey indexes. */
module IndexSearch {
  import opened Indexes
  import opened Names
  import opened SortedNames

  /** CmpDoCompareKeyName, of a key that exists. */
  method DoCompareKeyName(names: map<HCell, Name>, searchName: Name, cell: HCell) returns (result: int)
    requires cell in names
    ensures result == Order(searchName, names[cell])
  {
    result := CompareCompressedName(searchName, names[cell]);
    result := if result == 0 then result else if result > 0 then 1 else -1;
  }

  /** CmpCompareInIndex: the hint of a fast leaf may decide, and what it says is what the full comparison
      would say. */
  method CompareInIndex(names: map<HCell, Name>, ghost kind: nat, searchName: Name, count: nat, index: Index)
    returns (result: int, subKey: HCell)
    requires count < |index.list| && EntryOk(names, kind, index.signature, index.list[count])
    ensures result == Order(searchName, names[index.list[count].cell])
    ensures subKey == if result == 0 then index.list[count].cell else Nil
  {
    hide Order, HintOf, KeyName;
    var entry := index.list[count];
    if index.signature == FastLeaf {
      HintShape(entry.hint, names[entry.cell]);
      result := CompareHint(searchName, entry.hint);
      if result != 0 {
        return result, Nil;
      }
    }
    result := DoCompareKeyName(names, searchName, entry.cell);
    subKey := if result == 0 then entry.cell else Nil;
  }

  lemma HintShape(hint: seq<nat>, name: Name)
    requires HintOf(hint, name)
    ensures |hint| == 4
  {
  }

  // ----- in a leaf

  /** Entry i has the name, or it is where the name would go: before entry i, or right after it. */
  ghost predicate AtOrNextTo(ns: seq<Name>, i: nat, name: Name)
  {
    i < |ns| && Below(ns, i, name) && Above(ns, i + 1, name)
  }

  /** CmpFindSubKeyInLeaf: the entry with the name, or one next to where the name would go. */
  method FindSubKeyInLeaf(names: map<HCell, Name>, ghost kind: nat, index: Index, searchName: Name)
    returns (i: nat, subKey: HCell)
    requires LeafOk(names, kind, index) && LeafAscending(names, index)
    ensures index.list == [] ==> i == 0 && subKey == Nil
    ensures index.list != [] ==> i < |index.list| && AtOrNextTo(NamesOf(names, Cells(index.list)), i, searchName)
    ensures index.list != [] ==>
      subKey == if Order(searchName, NameOf(names, index.list[i].cell)) == 0 then index.list[i].cell else Nil
  {
    if |index.list| == 0 {
      return 0, Nil;
    }
    ghost var ns := NamesOf(names, Cells(index.list));
    var high: nat := |index.list| - 1;
    var low: nat := 0;
    var result;
    i := high / 2;
    assert Below(ns, 0, searchName) && Above(ns, high + 1, searchName);
    hide Order, EntryOk, Ascending, Below, Above, NamesOf, Cells;
    while true
      invariant low <= i <= high < |index.list| && (high - low > 1 ==> low < i < high)
      invariant Below(ns, low, searchName) && Above(ns, high + 1, searchName)
      decreases high - low
    {
      result, subKey := CompareInLeaf(names, kind, index, i, searchName);
      if result == 0 {
        return;
      }
      if result < 0 {
        AboveFewer(ns, i, i + 1, searchName);
        high := i;
      } else {
        BelowFewer(ns, i, i + 1, searchName);
        low := i;
      }
      if high - low <= 1 {
        break;
      }
      i := (high - low) / 2 + low;
    }
    result, subKey := CompareInLeaf(names, kind, index, low, searchName);
    if result == 0 {
      return low, subKey;
    }
    if result < 0 {
      AboveFewer(ns, low, low + 1, searchName);
      return low, subKey;
    }
    BelowFewer(ns, high, low + 1, searchName);
    result, subKey := CompareInLeaf(names, kind, index, high, searchName);
    i := high;
  }

  /** One comparison in a leaf, and what it says about the others. */
  method CompareInLeaf(names: map<HCell, Name>, ghost kind: nat, index: Index, i: nat, searchName: Name)
    returns (result: int, subKey: HCell)
    requires LeafOk(names, kind, index) && LeafAscending(names, index) && i < |index.list|
    ensures result == Order(searchName, NameOf(names, index.list[i].cell))
    ensures subKey == if result == 0 then index.list[i].cell else Nil
    ensures var ns := NamesOf(names, Cells(index.list));
      && (result >= 0 ==> Below(ns, i, searchName)) && (result > 0 ==> Below(ns, i + 1, searchName))
      && (result <= 0 ==> Above(ns, i + 1, searchName)) && (result < 0 ==> Above(ns, i, searchName))
  {
    hide Order, KeyName, HintOf, Ascending, Below, Above;
    ghost var ns := NamesOf(names, Cells(index.list));
    assert EntryOk(names, kind, index.signature, index.list[i]);
    assert ns[i] == names[index.list[i].cell];
    Compared(ns, i, searchName);
    result, subKey := CompareInIndex(names, kind, searchName, i, index);
  }

  // ----- in a root

  /** Leaf k is the first whose last name is not before this one. */
  ghost predicate FirstReaching(ns: seq<Name>, t: seq<seq<HCell>>, k: nat, name: Name)
  {
    && k < |t| && 0 < Start(t, k + 1) <= |ns| && Below(ns, Start(t, k), name)
    && Order(name, ns[Start(t, k + 1) - 1]) <= 0
  }

  /** Leaf k of a root: where it is in what the root lists. */
  lemma LeafOfRoot(indexes: map<HCell, Index>, names: map<HCell, Name>, kind: nat, signature: Signature, root: Index, k: nat)
    requires RootOk(indexes, names, kind, signature, root) && k < |root.list|
    ensures root.list[k].cell in indexes
    ensures var t := RootTree(indexes, root.list);
      var leaf := indexes[root.list[k].cell];
      var ns := NamesOf(names, Concat(t));
      && t[k] == Cells(leaf.list) && Start(t, k) < Start(t, k + 1) == Start(t, k) + |leaf.list| <= |ns|
      && LeafOk(names, kind, leaf) && 0 < |leaf.list| && leaf.signature == signature
      && (Ascending(ns) ==> LeafAscending(names, leaf))
      && (forall i {:trigger leaf.list[i]} :: 0 <= i < |leaf.list| ==> NameOf(names, leaf.list[i].cell) == ns[Start(t, k) + i])
  {
    var t := RootTree(indexes, root.list);
    var leaf := indexes[root.list[k].cell];
    var ns := NamesOf(names, Concat(t));
    assert RootedLeaf(indexes, names, kind, signature, root.list[k]);
    assert t[k] == Cells(leaf.list);
    ConcatAt(t, k);
    hide RootOk, RootTree, Concat, Ascending, LeafOk;
    forall i | 0 <= i < |leaf.list| ensures NameOf(names, leaf.list[i].cell) == ns[Start(t, k) + i] {
      assert t[k][i] == leaf.list[i].cell;
    }
    if Ascending(ns) {
      PartAscending(ns, Start(t, k), Start(t, k + 1));
      assert NamesOf(names, Cells(leaf.list)) == ns[Start(t, k)..Start(t, k + 1)];
    }
  }

  /** The name is after all of leaf k; before all of it; not before what precedes it. */
  ghost predicate AfterLeaf(ns: seq<Name>, t: seq<seq<HCell>>, k: nat, name: Name)
  {
    k < |t| && Below(ns, Start(t, k + 1), name)
  }

  ghost predicate BeforeLeaf(ns: seq<Name>, t: seq<seq<HCell>>, k: nat, name: Name)
  {
    k < |t| && Above(ns, Start(t, k), name)
  }

  ghost predicate NotEarlier(ns: seq<Name>, t: seq<seq<HCell>>, k: nat, name: Name)
  {
    k < |t| && Below(ns, Start(t, k), name)
  }

  /** A comparison with the last entry of a leaf of a root. */
  method CompareLast(indexes: map<HCell, Index>, names: map<HCell, Name>, ghost kind: nat, ghost signature: Signature,
                     root: Index, k: nat, searchName: Name) returns (result: int)
    requires RootOk(indexes, names, kind, signature, root) && k < |root.list|
    requires FlatAscending(names, RootTree(indexes, root.list))
    ensures var t := RootTree(indexes, root.list);
      var ns := NamesOf(names, Concat(t));
      && (result > 0 <==> AfterLeaf(ns, t, k, searchName))
      && (result == 0 || (result < 0 && NotEarlier(ns, t, k, searchName)) ==> FirstReaching(ns, t, k, searchName))
      && (BeforeLeaf(ns, t, k, searchName) ==> result < 0)
  {
    hide Order, KeyName, HintOf, Ascending, Below, Above, RootTree, Concat, Start, RootOk;
    LeafOfRoot(indexes, names, kind, signature, root, k);
    ghost var t := RootTree(indexes, root.list);
    ghost var ns := NamesOf(names, Concat(t));
    var leaf := indexes[root.list[k].cell];
    var i := |leaf.list| - 1;
    ghost var at := Start(t, k + 1) - 1;
    Compared(ns, at, searchName);
    assert EntryOk(names, kind, leaf.signature, leaf.list[i]) && ns[at] == NameOf(names, leaf.list[i].cell);
    var subKey;
    result, subKey := CompareInIndex(names, kind, searchName, i, leaf);
    if result >= 0 { BelowFewer(ns, Start(t, k), at, searchName); }
    if AfterLeaf(ns, t, k, searchName) { BelowSays(ns, at, searchName); }
    if BeforeLeaf(ns, t, k, searchName) { AboveSays(ns, Start(t, k), at, searchName); }
  }

  /** A comparison with entry 0 of a leaf of a root. */
  method CompareFirst(indexes: map<HCell, Index>, names: map<HCell, Name>, ghost kind: nat, ghost signature: Signature,
                      root: Index, k: nat, searchName: Name) returns (result: int)
    requires RootOk(indexes, names, kind, signature, root) && k < |root.list|
    requires FlatAscending(names, RootTree(indexes, root.list))
    ensures var t := RootTree(indexes, root.list);
      var ns := NamesOf(names, Concat(t));
      && (result >= 0 ==> NotEarlier(ns, t, k, searchName)) && (result < 0 <==> BeforeLeaf(ns, t, k, searchName))
  {
    hide Order, KeyName, HintOf, Ascending, Below, Above, RootTree, Concat, Start, RootOk;
    LeafOfRoot(indexes, names, kind, signature, root, k);
    ghost var t := RootTree(indexes, root.list);
    ghost var ns := NamesOf(names, Concat(t));
    var leaf := indexes[root.list[k].cell];
    ghost var at := Start(t, k);
    Compared(ns, at, searchName);
    assert EntryOk(names, kind, leaf.signature, leaf.list[0]) && ns[at] == NameOf(names, leaf.list[0].cell);
    var subKey;
    result, subKey := CompareInIndex(names, kind, searchName, 0, leaf);
    if BeforeLeaf(ns, t, k, searchName) { AboveSays(ns, at, at, searchName); }
  }

  lemma NextLeaf(ns: seq<Name>, t: seq<seq<HCell>>, k: nat, name: Name)
    requires AfterLeaf(ns, t, k, name)
    ensures k + 1 < |t| ==> NotEarlier(ns, t, k + 1, name)
    ensures k + 1 == |t| && |ns| == |Concat(t)| ==> Below(ns, |ns|, name)
  {
    ConcatAll(t);
  }

  lemma FirstLeaf(ns: seq<Name>, t: seq<seq<HCell>>, name: Name)
    requires t != []
    ensures NotEarlier(ns, t, 0, name) && (BeforeLeaf(ns, t, 0, name) ==> Above(ns, 0, name))
  {
    ConcatAll(t);
  }

  /** The two leaves, or the one, that a search of a root narrows down to. */
  method LastTwo(indexes: map<HCell, Index>, names: map<HCell, Name>, ghost kind: nat, ghost signature: Signature,
                 root: Index, low: nat, high: nat, searchName: Name) returns (returnIndex: nat, subKey: HCell)
    requires RootOk(indexes, names, kind, signature, root)
    requires FlatAscending(names, RootTree(indexes, root.list))
    requires low <= high <= low + 1 && high < |root.list|
    requires var t := RootTree(indexes, root.list);
      var ns := NamesOf(names, Concat(t));
      (low == 0 || AfterLeaf(ns, t, low, searchName)) && (high == |root.list| - 1 || BeforeLeaf(ns, t, high, searchName))
    ensures returnIndex < |root.list|
    ensures var t := RootTree(indexes, root.list);
      var ns := NamesOf(names, Concat(t));
      if subKey.Cell? then subKey == root.list[returnIndex].cell && FirstReaching(ns, t, returnIndex, searchName)
      else || (returnIndex == 0 && Above(ns, 0, searchName))
           || (returnIndex == |root.list| - 1 && Below(ns, |ns|, searchName))
  {
    ghost var t := RootTree(indexes, root.list);
    ghost var ns := NamesOf(names, Concat(t));
    LeafIsCell(indexes, names, kind, signature, root);
    FirstLeaf(ns, t, searchName);
    hide RootOk, FlatAscending, RootTree, Order, Concat, Start, Below, Above, NamesOf;
    hide AfterLeaf, BeforeLeaf, NotEarlier, FirstReaching;
    var result;
    result := CompareLast(indexes, names, kind, signature, root, low, searchName);
    if result == 0 {
      return low, root.list[low].cell;
    }
    if result < 0 {
      result := CompareFirst(indexes, names, kind, signature, root, low, searchName);
      if result >= 0 {
        return low, root.list[low].cell;
      }
      return low, Nil;
    }
    NextLeaf(ns, t, low, searchName);
    result := CompareLast(indexes, names, kind, signature, root, high, searchName);
    if result == 0 {
      return high, root.list[high].cell;
    }
    if result < 0 {
      return high, root.list[high].cell;
    }
    NextLeaf(ns, t, high, searchName);
    returnIndex, subKey := high, Nil;
  }

  /** CmpFindSubKeyInRoot: the first leaf whose last name is not before this one; no leaf when the name is
      before all, with index 0, or after all, with the last index. */
  method FindSubKeyInRoot(indexes: map<HCell, Index>, names: map<HCell, Name>, ghost kind: nat, ghost signature: Signature,
                          root: Index, searchName: Name) returns (returnIndex: nat, subKey: HCell)
    requires RootOk(indexes, names, kind, signature, root)
    requires FlatAscending(names, RootTree(indexes, root.list))
    ensures returnIndex < |root.list|
    ensures var t := RootTree(indexes, root.list);
      var ns := NamesOf(names, Concat(t));
      if subKey.Cell? then subKey == root.list[returnIndex].cell && FirstReaching(ns, t, returnIndex, searchName)
      else || (returnIndex == 0 && Above(ns, 0, searchName))
           || (returnIndex == |root.list| - 1 && Below(ns, |ns|, searchName))
  {
    ghost var t := RootTree(indexes, root.list);
    ghost var ns := NamesOf(names, Concat(t));
    LeafIsCell(indexes, names, kind, signature, root);
    FirstLeaf(ns, t, searchName);
    hide RootOk, FlatAscending, RootTree, Order, Concat, Start, Below, Above, NamesOf;
    hide AfterLeaf, BeforeLeaf, NotEarlier, FirstReaching;
    var high: nat := |root.list| - 1;
    var low: nat := 0;
    var result;
    while true
      invariant low <= high < |root.list|
      invariant low == 0 || AfterLeaf(ns, t, low, searchName)
      invariant high == |root.list| - 1 || BeforeLeaf(ns, t, high, searchName)
      decreases high - low
    {
      var i := (high - low) / 2 + low;
      result := CompareLast(indexes, names, kind, signature, root, i, searchName);
      if result == 0 {
        return i, root.list[i].cell;
      }
      if result < 0 {
        result := CompareFirst(indexes, names, kind, signature, root, i, searchName);
        if result >= 0 {
          return i, root.list[i].cell;
        }
        high := i;
      } else {
        low := i;
      }
      if high - low <= 1 {
        break;
      }
    }
    returnIndex, subKey := LastTwo(indexes, names, kind, signature, root, low, high, searchName);
  }

  lemma LeafIsCell(indexes: map<HCell, Index>, names: map<HCell, Name>, kind: nat, signature: Signature, root: Index)
    requires RootOk(indexes, names, kind, signature, root)
    ensures root.list != [] && forall k {:trigger root.list[k]} :: 0 <= k < |root.list| ==> root.list[k].cell.Cell?
  {
  }

  // ----- where a name goes

  /** A name not yet listed goes into leaf k. */
  ghost predicate GoesInto(ns: seq<Name>, t: seq<seq<HCell>>, k: nat, name: Name)
  {
    k < |t| && Below(ns, Start(t, k), name) && Above(ns, Start(t, k + 1), name)
  }

  /** What a search of a root says: the first leaf that reaches the name, or that all names are after it or
      before it. */
  datatype Verdict = Reached | BeforeAll | AfterAll

  ghost predicate Found(ns: seq<Name>, t: seq<seq<HCell>>, k: nat, verdict: Verdict, name: Name)
  {
    match verdict
    case Reached => FirstReaching(ns, t, k, name)
    case BeforeAll => k == 0 && t != [] && Above(ns, 0, name)
    case AfterAll => k + 1 == |t| && Below(ns, |ns|, name)
  }

  lemma FoundPlace(ns: seq<Name>, t: seq<seq<HCell>>, k: nat, verdict: Verdict, name: Name)
    requires Ascending(ns) && |ns| == |Concat(t)| && Found(ns, t, k, verdict, name)
    ensures GoesInto(ns, t, k, name)
  {
    hide Order, Concat, Start;
    ConcatAll(t);
    StartsRise(t, k, |t|);
    if verdict == Reached { Compared(ns, Start(t, k + 1) - 1, name); }
  }

  /** Leaf k, where a name goes, split in two: what was known of the name in terms of the two halves. */
  ghost predicate FoundHalf(ns: seq<Name>, t: seq<seq<HCell>>, k: nat, verdict: Verdict, name: Name)
  {
    match verdict
    case Reached => k + 2 <= |t| && 0 < Start(t, k + 2) <= |ns| && Below(ns, Start(t, k), name) && Order(name, ns[Start(t, k + 2) - 1]) <= 0
    case BeforeAll => k == 0 && Above(ns, 0, name)
    case AfterAll => k + 2 == |t| && Below(ns, |ns|, name)
  }

  /** The second search ends in one of the halves. */
  lemma SecondSearch(ns: seq<Name>, t: seq<seq<HCell>>, k: nat, verdict: Verdict, k': nat, verdict': Verdict, name: Name)
    requires |ns| == |Concat(t)| && |t| >= 2 && FoundHalf(ns, t, k, verdict, name) && Found(ns, t, k', verdict', name)
    requires forall i {:trigger t[i]} :: 0 <= i < |t| ==> t[i] != []
    ensures k' == k || k' == k + 1
  {
    hide Order, Concat, Start, Below, Above;
    ConcatAll(t);
    ConcatAt(t, 0);
    if k' + 1 <= k && k <= |t| { StartsRise(t, k' + 1, k); }
    if k + 2 <= k' { StartsRise(t, k + 2, k'); }
    if 1 <= k <= |t| { StartsRise(t, 1, k); }
    if 1 <= k' { StartsRise(t, 1, k'); }
    match (verdict, verdict') {
      case (Reached, Reached) =>
        BelowBound(ns, Start(t, k), Start(t, k' + 1) - 1, name);
        BelowBound(ns, Start(t, k'), Start(t, k + 2) - 1, name);
      case (Reached, BeforeAll) => BelowAbove(ns, Start(t, k), 0, name);
      case (Reached, AfterAll) => BelowBound(ns, |ns|, Start(t, k + 2) - 1, name);
      case (BeforeAll, Reached) => BelowAbove(ns, Start(t, k'), 0, name);
      case (BeforeAll, BeforeAll) =>
      case (BeforeAll, AfterAll) => BelowAbove(ns, |ns|, 0, name);
      case (AfterAll, Reached) => BelowBound(ns, |ns|, Start(t, k' + 1) - 1, name);
      case (AfterAll, BeforeAll) => BelowAbove(ns, |ns|, 0, name);
      case (AfterAll, AfterAll) =>
    }
  }

  // ----- exact lookup

  /** The name is not among these. */
  ghost predicate Absent(ns: seq<Name>, name: Name)
  {
    forall k {:trigger ns[k]} :: 0 <= k < |ns| ==> Order(name, ns[k]) != 0
  }

  lemma NextToIsAbsent(ns: seq<Name>, i: nat, name: Name)
    requires AtOrNextTo(ns, i, name) && Order(name, ns[i]) != 0
    ensures Absent(ns, name)
  {
    forall k | 0 <= k < |ns| && k != i ensures Order(name, ns[k]) != 0 { NotAmong(ns, i, i + 1, k, name); }
  }

  lemma OutsideIsAbsent(ns: seq<Name>, name: Name)
    requires Above(ns, 0, name) || Below(ns, |ns|, name)
    ensures Absent(ns, name)
  {
    forall k | 0 <= k < |ns| ensures Order(name, ns[k]) != 0 { OrderSwapped(name, ns[k]); }
  }

  /** A name that is anywhere is in the leaf that reaches it. */
  lemma OnlyInLeaf(ns: seq<Name>, t: seq<seq<HCell>>, k: nat, p: nat, name: Name)
    requires Ascending(ns) && FirstReaching(ns, t, k, name) && p < |ns| && Order(name, ns[p]) == 0
    ensures Start(t, k) <= p < Start(t, k + 1)
  {
    hide Order, Start;
    Compared(ns, Start(t, k + 1) - 1, name);
    NotAmongIf(ns, Start(t, k), Start(t, k + 1), p, name);
  }

  lemma NotAmongIf(ns: seq<Name>, m: nat, n: nat, p: nat, name: Name)
    requires Below(ns, m, name) && Above(ns, n, name) && p < |ns| && Order(name, ns[p]) == 0
    ensures m <= p < n
  {
    OrderSwapped(name, ns[p]);
  }

  /** CmpFindSubKeyByHash: the entry with the name, among those with its hash. */
  method FindSubKeyByHash(names: map<HCell, Name>, ghost kind: nat, index: Index, searchName: Name) returns (subKey: HCell)
    requires LeafOk(names, kind, index) && index.signature == HashLeaf
    ensures subKey == Nil ==> Absent(NamesOf(names, Cells(index.list)), searchName)
    ensures subKey != Nil ==> subKey in Cells(index.list) && Order(searchName, NameOf(names, subKey)) == 0
  {
    hide Order, Hash, Upcased, KeyName;
    var hashKey := ComputeHashKey(0, searchName);
    for i := 0 to |index.list|
      invariant forall k :: 0 <= k < i ==> Order(searchName, NameOf(names, index.list[k].cell)) != 0
    {
      var entry := index.list[i];
      assert EntryOk(names, kind, HashLeaf, entry);
      SameNameSameHash(searchName, names[entry.cell]);
      if entry.hash == hashKey {
        var result := DoCompareKeyName(names, searchName, entry.cell);
        if result == 0 {
          assert Cells(index.list)[i] == entry.cell;
          return entry.cell;
        }
      }
    }
    subKey := Nil;
  }

  lemma SameNameSameHash(a: Name, b: Name)
    ensures Order(a, b) == 0 ==> Hash(0, a) == Hash(0, b)
  {
    OrderEqual(a, b);
    if Order(a, b) == 0 { HashOfUpcased(0, a, b); }
  }

  /** What a search of a leaf, by halving or by hash, comes to. */
  method FindInLeaf(names: map<HCell, Name>, ghost kind: nat, index: Index, searchName: Name) returns (subKey: HCell)
    requires LeafOk(names, kind, index) && LeafAscending(names, index) && index.list != []
    ensures subKey == Nil ==> Absent(NamesOf(names, Cells(index.list)), searchName)
    ensures subKey != Nil ==> subKey in Cells(index.list) && Order(searchName, NameOf(names, subKey)) == 0
  {
    hide Order, Ascending, Below, Above;
    if index.signature != HashLeaf {
      var i;
      i, subKey := FindSubKeyInLeaf(names, kind, index, searchName);
      assert EntryOk(names, kind, index.signature, index.list[i]) && Cells(index.list)[i] == index.list[i].cell;
      if subKey == Nil { NextToIsAbsent(NamesOf(names, Cells(index.list)), i, searchName); }
    } else {
      subKey := FindSubKeyByHash(names, kind, index, searchName);
    }
  }

  /** A lookup in one index: exact, for leaves of either kind and for roots, also when the root's search ends
      in a leaf the name is only before. */
  method FindInIndex(indexes: map<HCell, Index>, names: map<HCell, Name>, ghost kind: nat, ghost signature: Signature,
                     c: HCell, searchName: Name) returns (subKey: HCell)
    requires c in indexes && FlatAscending(names, Tree(indexes, c))
    requires if indexes[c].signature == IndexRoot then RootOk(indexes, names, kind, signature, indexes[c])
             else LeafOk(names, kind, indexes[c]) && indexes[c].list != []
    ensures subKey == Nil <==> Absent(NamesOf(names, Flat(indexes, c)), searchName)
    ensures subKey != Nil ==> subKey in Flat(indexes, c) && Order(searchName, NameOf(names, subKey)) == 0
  {
    hide Order, Ascending, Below, Above;
    var leaf := indexes[c];
    if leaf.signature == IndexRoot {
      subKey := FindBelowRoot(indexes, names, kind, signature, leaf, searchName);
    } else {
      OneLeaf(indexes, c);
      subKey := FindInLeaf(names, kind, leaf, searchName);
    }
    if subKey != Nil { IsPresent(names, Flat(indexes, c), subKey, searchName); }
  }

  lemma IsPresent(names: map<HCell, Name>, cells: seq<HCell>, c: HCell, name: Name)
    requires c in cells && Order(name, NameOf(names, c)) == 0
    ensures !Absent(NamesOf(names, cells), name)
  {
    var i :| 0 <= i < |cells| && cells[i] == c;
    assert NamesOf(names, cells)[i] == NameOf(names, c);
  }

  method FindBelowRoot(indexes: map<HCell, Index>, names: map<HCell, Name>, ghost kind: nat, ghost signature: Signature,
                       root: Index, searchName: Name) returns (subKey: HCell)
    requires RootOk(indexes, names, kind, signature, root) && FlatAscending(names, RootTree(indexes, root.list))
    ensures var flat := Concat(RootTree(indexes, root.list));
      && (subKey == Nil ==> Absent(NamesOf(names, flat), searchName))
      && (subKey != Nil ==> subKey in flat && Order(searchName, NameOf(names, subKey)) == 0)
  {
    ghost var t := RootTree(indexes, root.list);
    ghost var ns := NamesOf(names, Concat(t));
    hide RootOk, RootTree, Concat, Start, Order, Ascending, Below, Above, FirstReaching, NamesOf;
    var k, leafCell := FindSubKeyInRoot(indexes, names, kind, signature, root, searchName);
    if leafCell == Nil {
      OutsideIsAbsent(ns, searchName);
      return Nil;
    }
    LeafOfRoot(indexes, names, kind, signature, root, k);
    var leaf := indexes[leafCell];
    subKey := FindInLeaf(names, kind, leaf, searchName);
    if subKey == Nil {
      AbsentOutside(ns, t, k, NamesOf(names, Cells(leaf.list)), names, leaf, searchName);
    } else {
      PartOfRoot(t, k, subKey);
    }
  }

  lemma PartOfRoot(t: seq<seq<HCell>>, k: nat, c: HCell)
    requires k < |t| && c in t[k]
    ensures c in Concat(t)
  {
    ConcatAt(t, k);
  }

  lemma AbsentOutside(ns: seq<Name>, t: seq<seq<HCell>>, k: nat, ls: seq<Name>, names: map<HCell, Name>, leaf: Index, name: Name)
    requires Ascending(ns) && FirstReaching(ns, t, k, name) && ls == NamesOf(names, Cells(leaf.list)) && Absent(ls, name)
    requires Start(t, k + 1) == Start(t, k) + |leaf.list|
    requires forall i {:trigger leaf.list[i]} :: 0 <= i < |leaf.list| ==> NameOf(names, leaf.list[i].cell) == ns[Start(t, k) + i]
    ensures Absent(ns, name)
  {
    hide Order, Start;
    var at := Start(t, k);
    forall p | at <= p < at + |leaf.list| ensures p < |ns| && Order(name, ns[p]) != 0 {
      assert ls[p - at] == NameOf(names, leaf.list[p - at].cell) == ns[at + (p - at)];
    }
    forall p | 0 <= p < |ns| ensures Order(name, ns[p]) != 0 {
      if Order(name, ns[p]) == 0 { OnlyInLeaf(ns, t, k, p, name); }
    }
  }

  // ----- by number

  /** CmpDoFindSubKeyByNumber: entry number of all that an index lists. */
  method DoFindSubKeyByNumber(indexes: map<HCell, Index>, names: map<HCell, Name>, ghost kind: nat, ghost signature: Signature,
                              c: HCell, number: nat) returns (subKey: HCell)
    requires c in indexes && number < |Flat(indexes, c)|
    requires indexes[c].signature == IndexRoot ==> RootOk(indexes, names, kind, signature, indexes[c])
    ensures subKey == Flat(indexes, c)[number]
  {
    var index := indexes[c];
    if index.signature == IndexRoot {
      subKey := NumberBelowRoot(indexes, names, kind, signature, index, number);
      return;
    }
    OneLeaf(indexes, c);
    subKey := index.list[number].cell;
  }

  method NumberBelowRoot(indexes: map<HCell, Index>, names: map<HCell, Name>, ghost kind: nat, ghost signature: Signature,
                         root: Index, number: nat) returns (subKey: HCell)
    requires RootOk(indexes, names, kind, signature, root) && number < |Concat(RootTree(indexes, root.list))|
    ensures subKey == Concat(RootTree(indexes, root.list))[number]
  {
    ghost var t := RootTree(indexes, root.list);
    var left: nat := number;
    ConcatAll(t);
    hide RootOk, RootTree, Concat, Start;
    for i := 0 to |root.list|
      invariant Start(t, i) + left == number
    {
      LeafOfRoot(indexes, names, kind, signature, root, i);
      ConcatAt(t, i);
      var leaf := indexes[root.list[i].cell];
      if left < |leaf.list| {
        assert t[i][left] == leaf.list[left].cell;
        return leaf.list[left].cell;
      }
      left := left - |leaf.list|;
    }
    assert false;   // the number is one of the root's
  }
}
