/** The registry check and its self-healing: every key reachable from the root is validated, and mended or
    taken out where that is asked for. */
module Checker {
  import opened CheckStack
  import opened Healing
  import opened Indexes
  import opened KeyGraph

  const KEY_SIZE_THRESHOLD: nat := 0x45C
  const KEY_NODE_NAME: nat := 76             // where the name starts in a key node
  const KEY_VALUE_NAME: nat := 20            // where the name starts in a value
  const SPECIAL_SIZE: nat := 0x8000_0000     // marks data held in the value itself
  const HSYS_WHISTLER_BETA1: nat := 4
  const VOLATILE_LIST_UNINITIALIZED: HCell := Cell(1, 0x3AADF00D)   // 0xBAADF00D

  datatype Status =
    | Good | RootCellNotFound | TreeTooManyLevels | SubkeyNotFound | BadLexicographicalOrder
    | KeyCellNotAllocated | CellSizeNotSane | KeyNameLengthZero | KeyTooBigThanCell
    | BadKeyNodeParent | BadKeyNodeSignature | KeyClassUnallocated
    | ValueListUnallocated | ValueListSizeNotSane | ValueCellBad
    | StableKeysOnVolatile | SubkeysListUnallocated | BadSubkeyCount | KeyIndexCellUnallocated
    | CorruptLeafSignature | CorruptKeyIndexSignature

  /** A cell seen as a key node. */
  datatype KeyNode = KeyNode(
    cellSize: nat, nameLength: nat, signatureValid: bool, parent: HCell,
    classCell: HCell, classLength: nat, valueList: HCell, valueCount: nat,
    subKeyCount: nat, subKeyList: HCell, volatileCount: nat, volatileList: HCell)

  /** A cell seen as a value. */
  datatype KeyValue = KeyValue(cellSize: nat, nameLength: nat, signatureValid: bool, dataLength: nat, data: HCell)

  /** The list is a leaf, or a root of leaves, in allocated cells. */
  ghost predicate ListOk(indexes: map<HCell, Index>, cells: set<HCell>, list: HCell)
  {
    && list in cells && list in indexes
    && (indexes[list].signature == IndexRoot ==>
        forall i {:trigger indexes[list].list[i]} :: 0 <= i < |indexes[list].list| ==> LeafAt(indexes, cells, indexes[list].list[i].cell))
  }

  ghost predicate LeafAt(indexes: map<HCell, Index>, cells: set<HCell>, leaf: HCell)
  {
    leaf in cells && leaf in indexes && indexes[leaf].signature != IndexRoot
  }

  /** The stable subkeys of a key: what its list names, if it has a sound one. */
  ghost function KidsOf(key: KeyNode, cell: HCell, indexes: map<HCell, Index>, cells: set<HCell>): seq<HCell>
  {
    if cell.Cell? && cell.kind == 1 then []
    else if key.subKeyCount > 0 && ListOk(indexes, cells, key.subKeyList) then Flat(indexes, key.subKeyList)
    else []
  }

  ghost function GraphOf(keys: map<HCell, KeyNode>, indexes: map<HCell, Index>, cells: set<HCell>): Graph
  {
    map k | k in keys :: KidsOf(keys[k], k, indexes, cells)
  }

  ghost function ParentsOf(keys: map<HCell, KeyNode>): map<HCell, HCell>
  {
    map k | k in keys :: keys[k].parent
  }

  /** One key differs, and not in what its list names. */
  ghost predicate KeyMended(keys: map<HCell, KeyNode>, keys': map<HCell, KeyNode>, indexes: map<HCell, Index>, cells: set<HCell>, k: HCell)
  {
    && k in keys && k in keys' && keys' == keys[k := keys'[k]]
    && KidsOf(keys'[k], k, indexes, cells) == KidsOf(keys[k], k, indexes, cells)
    && keys'[k].cellSize == keys[k].cellSize && keys'[k].nameLength == keys[k].nameLength
    && (k.Cell? && k.kind == 1 ==> keys'[k].subKeyCount == keys[k].subKeyCount)
  }

  /** The node is of a sane size and has a name in it. */
  predicate ShapedKey(key: KeyNode)
  {
    key.cellSize <= KEY_SIZE_THRESHOLD && key.nameLength != 0 && key.nameLength + KEY_NODE_NAME <= key.cellSize
  }

  /** The keys that healing can make good: their nodes are of a sane shape, and the volatile ones among them have
      no stable subkeys. */
  ghost function Mendable(keys: map<HCell, KeyNode>, cells: set<HCell>): set<HCell>
  {
    set k | k in keys && k in cells && ShapedKey(keys[k]) && !(k.Cell? && k.kind == 1 && keys[k].subKeyCount != 0)
  }

  lemma MendedTwice(keys: map<HCell, KeyNode>, keys1: map<HCell, KeyNode>, keys2: map<HCell, KeyNode>, indexes: map<HCell, Index>,
                    cells: set<HCell>, k: HCell)
    requires KeyMended(keys, keys1, indexes, cells, k) && KeyMended(keys1, keys2, indexes, cells, k)
    ensures KeyMended(keys, keys2, indexes, cells, k)
  {
  }

  /** Mending a key leaves the graph alone. */
  lemma GraphMended(keys: map<HCell, KeyNode>, keys': map<HCell, KeyNode>, indexes: map<HCell, Index>, cells: set<HCell>, k: HCell)
    requires KeyMended(keys, keys', indexes, cells, k)
    ensures GraphOf(keys', indexes, cells) == GraphOf(keys, indexes, cells)
    ensures Mendable(keys', cells) == Mendable(keys, cells)
  {
    hide KidsOf;
  }

  /** With healing off, only a class length that goes with no class and the volatile subkeys may change. */
  ghost predicate LinksKept(keys: map<HCell, KeyNode>, keys': map<HCell, KeyNode>)
  {
    && keys'.Keys == keys.Keys
    && forall k {:trigger keys'[k]} :: k in keys ==> LinkKept(keys[k], keys'[k])
  }

  ghost predicate LinkVolatile(key: KeyNode, key': KeyNode)
  {
    key' == key.(volatileCount := key'.volatileCount, volatileList := key'.volatileList)
  }

  ghost predicate LinkKept(key: KeyNode, key': KeyNode)
  {
    key' == key.(classLength := key'.classLength, volatileCount := key'.volatileCount, volatileList := key'.volatileList)
  }

  /** Nothing is different about the volatile subkeys. */
  ghost predicate SameVolatiles(key: KeyNode, key': KeyNode)
  {
    key'.volatileCount == key.volatileCount && key'.volatileList == key.volatileList
  }

  lemma MendedMore(key: KeyNode, key1: KeyNode, key2: KeyNode)
    requires key1.subKeyCount == key.subKeyCount && key1.subKeyList == key.subKeyList
    requires key2 == key1.(subKeyList := key2.subKeyList, subKeyCount := key2.subKeyCount)
    ensures LinkKept(key, key2) <==> LinkKept(key, key1) && key2 == key1
  {
  }

  lemma SameVolatilesTwice(key: KeyNode, key1: KeyNode, key2: KeyNode)
    requires SameVolatiles(key, key1) && SameVolatiles(key1, key2)
    ensures SameVolatiles(key, key2)
  {
  }

  lemma LinksKeptTwice(keys: map<HCell, KeyNode>, keys1: map<HCell, KeyNode>, keys2: map<HCell, KeyNode>)
    requires LinksKept(keys, keys1) && LinksKept(keys1, keys2)
    ensures LinksKept(keys, keys2)
  {
    forall k | k in keys ensures LinkKept(keys[k], keys2[k]) { assert LinkKept(keys[k], keys1[k]) && LinkKept(keys1[k], keys2[k]); }
  }

  lemma LinksKeptGraph(keys: map<HCell, KeyNode>, keys': map<HCell, KeyNode>, indexes: map<HCell, Index>, cells: set<HCell>)
    requires LinksKept(keys, keys')
    ensures GraphOf(keys', indexes, cells) == GraphOf(keys, indexes, cells) && ParentsOf(keys') == ParentsOf(keys)
  {
    forall k | k in keys ensures KidsOf(keys'[k], k, indexes, cells) == KidsOf(keys[k], k, indexes, cells) {
    }
  }

  class Registry {
    const RootCell: HCell
    const Allocated: set<HCell>                     // the cells in allocated blocks
    const LexicalOrder: (HCell, HCell) -> bool      // what the check of two neighbours' names says
    const Version: nat
    const PurgeVolatiles: bool                      // the check's two flags for volatile keys
    const BootLoaderPurge: bool
    const Values: map<HCell, KeyValue>
    var Keys: map<HCell, KeyNode>
    var Indexes: map<HCell, Index>
    var ValueLists: map<HCell, seq<HCell>>          // cells seen as lists of values
    var SelfHeal: bool                              // HBOOT_TYPE_SELF_HEAL of the header

    constructor (rootCell: HCell, cells: set<HCell>, lexicalOrder: (HCell, HCell) -> bool, version: nat, purgeVolatiles: bool,
                 bootLoaderPurge: bool, values: map<HCell, KeyValue>, keys: map<HCell, KeyNode>, indexes: map<HCell, Index>,
                 valueLists: map<HCell, seq<HCell>>)
      ensures RootCell == rootCell && Allocated == cells && LexicalOrder == lexicalOrder && Values == values
      ensures Version == version && PurgeVolatiles == purgeVolatiles && BootLoaderPurge == bootLoaderPurge
      ensures Keys == keys && Indexes == indexes && ValueLists == valueLists && !SelfHeal
    {
      RootCell, Allocated, LexicalOrder, Values := rootCell, cells, lexicalOrder, values;
      Version, PurgeVolatiles, BootLoaderPurge := version, purgeVolatiles, bootLoaderPurge;
      Keys, Indexes, ValueLists, SelfHeal := keys, indexes, valueLists, false;
    }

    ghost predicate Valid()
      reads this
    {
      && Nil !in Allocated && Indexes.Keys <= Allocated
      && Keys.Keys == ValueLists.Keys == Values.Keys == Allocated
    }

    // ----- the value list

    /** The checks of one value. */
    predicate ValueOk(cell: HCell)
    {
      && cell in Allocated && cell in Values
      && var v := Values[cell];
         && v.nameLength + KEY_VALUE_NAME <= v.cellSize && v.signatureValid
         && (v.dataLength < SPECIAL_SIZE ==> if v.dataLength == 0 then v.data == Nil else v.data in Allocated)
    }

    /** CmpRepairValueListCount: one value less in the list. */
    method RepairValueListCount(current: HCell, index: nat, list: HCell, fixHive: bool) returns (repaired: bool)
      requires current in Keys && list in ValueLists && index < Keys[current].valueCount <= |ValueLists[list]|
      modifies this`Keys, this`ValueLists, this`SelfHeal
      ensures repaired == fixHive && SelfHeal == (old(SelfHeal) || fixHive)
      ensures !fixHive ==> Keys == old(Keys) && ValueLists == old(ValueLists)
      ensures fixHive ==> Keys == old(Keys)[current := old(Keys)[current].(valueCount := old(Keys)[current].valueCount - 1)]
      ensures fixHive ==> list in ValueLists && ValueLists == old(ValueLists)[list := ValueLists[list]] && |ValueLists[list]| == |old(ValueLists)[list]|
      ensures fixHive ==> var n := old(Keys)[current].valueCount; var was := old(ValueLists)[list];
        ValueLists[list][..n - 1] == was[..index] + was[index + 1..n]
    {
      if !fixHive {
        return false;
      }
      var cells, count := ValueLists[list], Keys[current].valueCount;
      ValueLists := ValueLists[list := cells[..index] + cells[index + 1..count] + cells[count - 1..]];
      Keys := Keys[current := Keys[current].(valueCount := count - 1)];
      SelfHeal := true;
      repaired := true;
    }

    /** CmpValidateValueListByCount: with healing, the values that are not sound are taken out, and the others
        stay in order; without, one such value is enough to fail. */
    method ValidateValueListByCount(current: HCell, list: HCell, fixHive: bool) returns (status: Status)
      requires Valid() && current in Keys && list in ValueLists && Keys[current].valueCount <= |ValueLists[list]|
      modifies this`Keys, this`ValueLists, this`SelfHeal
      ensures Valid() && current in Keys && Keys == old(Keys)[current := old(Keys)[current].(valueCount := Keys[current].valueCount)]
      ensures status in {Good, ValueCellBad} && Keys[current].valueCount <= |ValueLists[list]|
      ensures var was := old(ValueLists)[list][..old(Keys)[current].valueCount];
        && (status == Good ==> ValueLists[list][..Keys[current].valueCount] == Sound(was))
        && (fixHive ==> status == Good)
        && (!fixHive ==> Keys == old(Keys) && ValueLists == old(ValueLists) && SelfHeal == old(SelfHeal))
        && (!fixHive ==> (status == Good <==> Sound(was) == was))
        && (Sound(was) == was ==> Keys == old(Keys) && ValueLists == old(ValueLists))
      ensures ListsKept(old(ValueLists), ValueLists) && ValueLists == old(ValueLists)[list := ValueLists[list]]
      ensures SelfHeal == (old(SelfHeal) || Keys[current].valueCount != old(Keys)[current].valueCount)
    {
      ghost var lists, keys := ValueLists, Keys;
      var index: nat, count: nat := 0, Keys[current].valueCount;
      hide *;
      NothingReviewed(lists, keys, current, list, fixHive);
      while index < count
        invariant Reviewed(lists, keys, ValueLists, Keys, current, list, index, count, fixHive)
        invariant !fixHive ==> SelfHeal == old(SelfHeal)
        invariant count <= keys[current].valueCount && SelfHeal == (old(SelfHeal) || count < keys[current].valueCount)
        decreases count - index
      {
        ghost var lists', keys' := ValueLists, Keys;
        UnderReview(lists, keys, current, list, index, count, fixHive);
        var value := ValueLists[list][index];
        if !ValueOk(value) {
          var repaired := RepairValueListCount(current, index, list, fixHive);
          if !repaired {
            ReviewFails(lists, keys, current, list, index, count);
            StillValid(keys, current);
            return ValueCellBad;
          }
          count := count - 1;
          OneTakenOut(lists, keys, lists', keys', ValueLists, Keys, current, list, index, count);
          continue;
        }
        OneMoreReviewed(lists, keys, ValueLists, Keys, current, list, index, count, fixHive);
        index := index + 1;
      }
      ReviewPasses(lists, keys, current, list, index, count, fixHive);
      StillValid(keys, current);
      status := Good;
    }

    /** What is so once the first values of a list have been looked at: of the lists and keys there were at first,
        only this list and this count may differ. */
    ghost predicate Reviewed(lists: map<HCell, seq<HCell>>, keys: map<HCell, KeyNode>, lists': map<HCell, seq<HCell>>,
                             keys': map<HCell, KeyNode>, current: HCell, list: HCell, index: nat, count: nat, fixHive: bool)
    {
      && list in lists && current in keys && keys[current].valueCount <= |lists[list]|
      && list in lists' && lists' == lists[list := lists'[list]] && ListKept(lists[list], lists'[list])
      && keys' == keys[current := keys[current].(valueCount := count)]
      && Checked(lists[list][..keys[current].valueCount], lists'[list], index, count)
      && (!fixHive || AllSound(lists[list][..keys[current].valueCount]) ==> count == keys[current].valueCount && lists' == lists)
    }

    ghost predicate AllSound(cells: seq<HCell>)
    {
      Sound(cells) == cells
    }

    lemma NothingReviewed(lists: map<HCell, seq<HCell>>, keys: map<HCell, KeyNode>, current: HCell, list: HCell, fixHive: bool)
      requires list in lists && current in keys && keys[current].valueCount <= |lists[list]|
      ensures Reviewed(lists, keys, lists, keys, current, list, 0, keys[current].valueCount, fixHive)
    {
      hide Checked, ListKept;
      SameList(lists[list]);
      NothingChecked(lists[list][..keys[current].valueCount], lists[list], keys[current].valueCount);
      assert lists[list := lists[list]] == lists && keys[current := keys[current]] == keys;
    }

    lemma UnderReview(lists: map<HCell, seq<HCell>>, keys: map<HCell, KeyNode>, current: HCell, list: HCell, index: nat, count: nat, fixHive: bool)
      requires Reviewed(lists, keys, ValueLists, Keys, current, list, index, count, fixHive) && index < count
      ensures current in Keys && list in ValueLists && index < count == Keys[current].valueCount <= |ValueLists[list]|
    {
      hide ListKept, Sound;
    }

    lemma OneMoreReviewed(lists: map<HCell, seq<HCell>>, keys: map<HCell, KeyNode>, lists': map<HCell, seq<HCell>>,
                          keys': map<HCell, KeyNode>, current: HCell, list: HCell, index: nat, count: nat, fixHive: bool)
      requires Reviewed(lists, keys, lists', keys', current, list, index, count, fixHive)
      requires index < count <= |lists'[list]| && ValueOk(lists'[list][index])
      ensures Reviewed(lists, keys, lists', keys', current, list, index + 1, count, fixHive)
    {
      hide Checked, ListKept, ValueOk;
      OneMoreSound(lists[list][..keys[current].valueCount], lists'[list], index, count);
    }

    lemma OneTakenOut(lists: map<HCell, seq<HCell>>, keys: map<HCell, KeyNode>, lists1: map<HCell, seq<HCell>>, keys1: map<HCell, KeyNode>,
                      lists2: map<HCell, seq<HCell>>, keys2: map<HCell, KeyNode>, current: HCell, list: HCell, index: nat, count: nat)
      requires Reviewed(lists, keys, lists1, keys1, current, list, index, count + 1, true)
      requires index <= count < |lists1[list]| && !ValueOk(lists1[list][index])
      requires keys2 == keys1[current := keys1[current].(valueCount := count)]
      requires list in lists2 && lists2 == lists1[list := lists2[list]] && |lists2[list]| == |lists1[list]|
      requires lists2[list][..count] == lists1[list][..index] + lists1[list][index + 1..count + 1]
      ensures Reviewed(lists, keys, lists2, keys2, current, list, index, count, true)
    {
      hide Checked, ListKept, ValueOk;
      if count + 1 == keys[current].valueCount { NotAllSound(lists[list][..keys[current].valueCount], lists1[list], index, count + 1); }
      PrefixKept(lists[list], lists1[list], lists2[list], index, count);
      OneRemoved(lists[list][..keys[current].valueCount], lists1[list], lists2[list], index, count);
    }

    lemma ReviewFails(lists: map<HCell, seq<HCell>>, keys: map<HCell, KeyNode>, current: HCell, list: HCell, index: nat, count: nat)
      requires Reviewed(lists, keys, ValueLists, Keys, current, list, index, count, false)
      requires index < count <= |ValueLists[list]| && !ValueOk(ValueLists[list][index])
      ensures ValueLists == lists && Keys == keys && ListsKept(lists, lists) && list in lists && lists == lists[list := lists[list]]
      ensures var was := lists[list][..keys[current].valueCount]; Sound(was) != was
    {
      hide Checked, ListKept, ValueOk, ListsKept;
      NotAllSound(lists[list][..keys[current].valueCount], ValueLists[list], index, count);
      OneListKept(lists, list, ValueLists);
      assert keys[current := keys[current]] == keys;
    }

    lemma ReviewPasses(lists: map<HCell, seq<HCell>>, keys: map<HCell, KeyNode>, current: HCell, list: HCell, index: nat, count: nat, fixHive: bool)
      requires Reviewed(lists, keys, ValueLists, Keys, current, list, index, count, fixHive) && index >= count
      ensures current in Keys && Keys == keys[current := keys[current].(valueCount := Keys[current].valueCount)]
      ensures list in ValueLists && Keys[current].valueCount <= |ValueLists[list]|
      ensures var was := lists[list][..keys[current].valueCount];
        && ValueLists[list][..Keys[current].valueCount] == Sound(was) && (!fixHive ==> Sound(was) == was)
        && (!fixHive || Sound(was) == was ==> Keys == keys && ValueLists == lists)
      ensures ListsKept(lists, ValueLists) && ValueLists.Keys == lists.Keys && ValueLists == lists[list := ValueLists[list]]
    {
      var was := lists[list][..keys[current].valueCount];
      assert index == count;
      hide ListKept, ListsKept, Sound;
      AllChecked(was, ValueLists[list], count);
      OneListKept(lists, list, ValueLists);
      assert keys[current := keys[current]] == keys;
    }

    lemma StillValid(keys: map<HCell, KeyNode>, current: HCell)
      requires Nil !in Allocated && Indexes.Keys <= Allocated && ValueLists.Keys == Values.Keys == Allocated == keys.Keys
      requires current in keys && current in Keys && Keys == keys[current := Keys[current]]
      ensures Valid()
    {
    }

    /** The first i of n values are sound, and with the sound ones of the rest they are all there were. */
    ghost predicate Checked(was: seq<HCell>, cells: seq<HCell>, i: nat, n: nat)
    {
      i <= n <= |cells| && Sound(was) == cells[..i] + Sound(cells[i..n])
    }

    lemma NothingChecked(was: seq<HCell>, cells: seq<HCell>, n: nat)
      requires n <= |cells| && was == cells[..n]
      ensures Checked(was, cells, 0, n)
    {
      assert cells[0..n] == was;
    }

    lemma OneMoreSound(was: seq<HCell>, cells: seq<HCell>, i: nat, n: nat)
      requires Checked(was, cells, i, n) && i < n && ValueOk(cells[i])
      ensures Checked(was, cells, i + 1, n)
    {
      hide ValueOk;
      SoundNext(cells, i, n);
    }

    lemma OneRemoved(was: seq<HCell>, cells: seq<HCell>, cells': seq<HCell>, i: nat, n: nat)
      requires Checked(was, cells, i, n + 1) && i <= n < |cells| && !ValueOk(cells[i])
      requires |cells'| == |cells| && cells'[..n] == cells[..i] + cells[i + 1..n + 1]
      ensures Checked(was, cells', i, n)
    {
      hide ValueOk;
      SoundNext(cells, i, n + 1);
      OneLess(cells, cells', i, n);
    }

    lemma NotAllSound(was: seq<HCell>, cells: seq<HCell>, i: nat, n: nat)
      requires Checked(was, cells, i, n) && i < n && !ValueOk(cells[i]) && |was| == n
      ensures Sound(was) != was
    {
      hide ValueOk;
      SoundNext(cells, i, n);
      SoundLength(cells[i + 1..n]);
    }

    lemma AllChecked(was: seq<HCell>, cells: seq<HCell>, n: nat)
      requires Checked(was, cells, n, n)
      ensures cells[..n] == Sound(was) && (was == cells[..n] ==> Sound(was) == was)
    {
      assert cells[n..n] == [];
    }

    /** The sound values of a list, in order. */
    ghost function Sound(cells: seq<HCell>): seq<HCell>
    {
      if cells == [] then [] else (if ValueOk(cells[0]) then [cells[0]] else []) + Sound(cells[1..])
    }

    lemma SoundNext(cells: seq<HCell>, i: nat, n: nat)
      requires i < n <= |cells|
      ensures Sound(cells[i..n]) == (if ValueOk(cells[i]) then [cells[i]] else []) + Sound(cells[i + 1..n])
      ensures cells[..i] + [cells[i]] == cells[..i + 1]
    {
      assert cells[i..n][0] == cells[i] && cells[i..n][1..] == cells[i + 1..n];
    }

    lemma OneLess(cells: seq<HCell>, cells': seq<HCell>, i: nat, n: nat)
      requires i <= n < |cells| && |cells'| == |cells| && cells'[..n] == cells[..i] + cells[i + 1..n + 1]
      ensures cells'[..i] == cells[..i] && cells'[i..n] == cells[i + 1..n + 1]
    {
      assert cells'[..i] == cells'[..n][..i] && cells'[i..n] == cells'[..n][i..];
    }

    lemma {:induction false} SoundLength(cells: seq<HCell>)
      ensures |Sound(cells)| <= |cells|
    {
      if cells != [] { SoundLength(cells[1..]); }
    }

    lemma {:induction false} SoundAll(cells: seq<HCell>)
      ensures Sound(cells) == cells <==> forall c {:trigger ValueOk(c)} :: c in cells ==> ValueOk(c)
    {
      hide ValueOk;
      if cells != [] {
        SoundAll(cells[1..]);
        SoundLength(cells[1..]);
        assert cells == [cells[0]] + cells[1..];
      }
    }

    lemma {:induction false} SoundTwice(cells: seq<HCell>)
      ensures Sound(Sound(cells)) == Sound(cells)
    {
      hide ValueOk;
      if cells != [] {
        SoundTwice(cells[1..]);
        if ValueOk(cells[0]) {
          var rest := Sound(cells[1..]);
          assert ([cells[0]] + rest)[1..] == rest;
        } else {
          assert [] + Sound(cells[1..]) == Sound(cells[1..]);
        }
      }
    }

    /** A list of the same size, whose sound beginnings are the same. */
    ghost predicate ListKept(cells: seq<HCell>, cells': seq<HCell>)
    {
      && |cells'| == |cells|
      && forall n {:trigger cells'[..n]} :: 0 <= n <= |cells| && Sound(cells[..n]) == cells[..n] ==> cells'[..n] == cells[..n]
    }

    ghost predicate ListsKept(lists: map<HCell, seq<HCell>>, lists': map<HCell, seq<HCell>>)
    {
      lists'.Keys == lists.Keys && forall l {:trigger lists'[l]} :: l in lists ==> ListKept(lists[l], lists'[l])
    }

    lemma SameList(cells: seq<HCell>)
      ensures ListKept(cells, cells)
    {
    }

    lemma OneListKept(lists: map<HCell, seq<HCell>>, list: HCell, lists': map<HCell, seq<HCell>>)
      requires list in lists && list in lists' && lists' == lists[list := lists'[list]] && ListKept(lists[list], lists'[list])
      ensures ListsKept(lists, lists')
    {
      hide ListKept;
      forall l | l in lists ensures ListKept(lists[l], lists'[l]) { SameList(lists[l]); }
    }

    lemma SoundBefore(was: seq<HCell>, cells: seq<HCell>, i: nat, m: nat)
      requires ListKept(was, cells) && i < |cells| && !ValueOk(cells[i])
      requires m <= |was| && Sound(was[..m]) == was[..m]
      ensures m <= i && cells[..m] == was[..m]
    {
      hide ValueOk, Sound;
      assert cells[..m] == was[..m];
      if m > i { assert was[..m][i] == cells[i]; }
      SoundAll(was[..m]);
    }

    /** Taking out an unsound value changes nothing before it. */
    lemma PrefixKept(was: seq<HCell>, cells: seq<HCell>, cells': seq<HCell>, i: nat, n: nat)
      requires ListKept(was, cells) && i <= n < |cells| && !ValueOk(cells[i])
      requires |cells'| == |cells| && cells'[..n] == cells[..i] + cells[i + 1..n + 1]
      ensures ListKept(was, cells')
    {
      OneLess(cells, cells', i, n);
      hide ValueOk, Sound;
      forall m | 0 <= m <= |was| && Sound(was[..m]) == was[..m] ensures cells'[..m] == was[..m] {
        SoundBefore(was, cells, i, m);
        assert cells'[..m] == cells'[..i][..m] == cells[..i][..m];
      }
    }

    /** The value list is there, is no larger than its cell, and has only sound values. */
    ghost predicate ValueListSound(key: KeyNode)
      reads this`ValueLists
    {
      key.valueCount > 0 ==>
        && key.valueList in ValueLists && key.valueCount <= |ValueLists[key.valueList]|
        && Sound(ValueLists[key.valueList][..key.valueCount]) == ValueLists[key.valueList][..key.valueCount]
    }

    /** The value list is not there, or larger than its cell. */
    ghost predicate ValuesLost(key: KeyNode)
      reads this`ValueLists
    {
      key.valueCount > 0 && (key.valueList !in Allocated || key.valueList !in ValueLists || key.valueCount > |ValueLists[key.valueList]|)
    }

    /** The values of a key once they have been validated: those that were sound, or none if the list was lost. */
    ghost function MendedValues(key: KeyNode): KeyNode
      reads this`ValueLists
    {
      if key.valueCount == 0 then key
      else if ValuesLost(key) then key.(valueList := Nil, valueCount := 0)
      else key.(valueCount := |Sound(ValueLists[key.valueList][..key.valueCount])|)
    }

    /** CmpValidateValueList. */
    method ValidateValueList(current: HCell, fixHive: bool) returns (status: Status)
      requires Valid() && current in Keys
      modifies this`Keys, this`ValueLists, this`SelfHeal
      ensures Valid() && current in Keys && Keys == old(Keys)[current := old(Keys)[current].(valueCount := Keys[current].valueCount)]
      ensures (status == Good ==> ValueListSound(Keys[current])) && ListsKept(old(ValueLists), ValueLists)
      ensures !fixHive ==> Keys == old(Keys) && ValueLists == old(ValueLists) && (status == Good <==> ValueListSound(Keys[current]))
      ensures status == Good ==> Keys[current] == old(MendedValues(Keys[current])) && !old(ValuesLost(Keys[current]))
      ensures status != Good && fixHive ==> Keys == old(Keys) && old(ValuesLost(Keys[current]))
      ensures old(ValueListSound(Keys[current])) ==> ValueLists == old(ValueLists)
      ensures SelfHeal == (old(SelfHeal) || Keys[current].valueCount != old(Keys)[current].valueCount)
    {
      SameLists(ValueLists);
      var list, count := Keys[current].valueList, Keys[current].valueCount;
      if count > 0 {
        if list !in Allocated {
          return ValueListUnallocated;
        }
        if 4 * count > 4 * |ValueLists[list]| {
          return ValueListSizeNotSane;
        }
        ghost var was := ValueLists[list][..count];
        status := ValidateValueListByCount(current, list, fixHive);
        SoundTwice(was);
        return;
      }
      status := Good;
    }

    lemma SameLists(lists: map<HCell, seq<HCell>>)
      ensures ListsKept(lists, lists)
    {
      hide ListKept;
      forall l | l in lists ensures ListKept(lists[l], lists[l]) { SameList(lists[l]); }
    }

    // ----- the subkey list

    /** The count is what the list names, and there is a list if it is not zero.  A volatile key has no stable subkeys. */
    ghost predicate SubkeysSound(key: KeyNode, current: HCell)
      reads this`Indexes
    {
      if current.Cell? && current.kind == 1 then key.subKeyCount == 0
      else key.subKeyCount > 0 ==> ListOk(Indexes, Allocated, key.subKeyList) && key.subKeyCount == |Flat(Indexes, key.subKeyList)|
    }

    /** The list of subkeys is not there, or not an index. */
    ghost predicate SubkeysLost(key: KeyNode, current: HCell)
      reads this`Indexes
    {
      !(current.Cell? && current.kind == 1) && key.subKeyCount > 0 && !ListOk(Indexes, Allocated, key.subKeyList)
    }

    /** The subkeys of a key once they have been validated: those listed, as many as are listed, or none. */
    ghost function MendedSubkeys(key: KeyNode, current: HCell): KeyNode
      reads this`Indexes
    {
      if (current.Cell? && current.kind == 1) || key.subKeyCount == 0 then key
      else if SubkeysLost(key, current) then key.(subKeyList := Nil, subKeyCount := 0)
      else key.(subKeyCount := |Flat(Indexes, key.subKeyList)|)
    }

    /** CmpRepairSubKeyCounts. */
    method RepairSubKeyCounts(current: HCell, count: nat, fixHive: bool) returns (repaired: bool)
      requires current in Keys
      modifies this`Keys, this`SelfHeal
      ensures repaired == fixHive && SelfHeal == (old(SelfHeal) || fixHive)
      ensures Keys == if fixHive then old(Keys)[current := old(Keys)[current].(subKeyCount := count)] else old(Keys)
    {
      if !fixHive {
        return false;
      }
      Keys := Keys[current := Keys[current].(subKeyCount := count)];
      SelfHeal := true;
      repaired := true;
    }

    /** CmpValidateSubKeyList: the list must be sound, and its count right or put right.  doRepair says that the
        list may be given up to mend the key. */
    method ValidateSubKeyList(current: HCell, fixHive: bool) returns (status: Status, doRepair: bool)
      requires Valid() && current in Keys
      modifies this`Keys, this`SelfHeal
      ensures Valid() && current in Keys && Keys == old(Keys)[current := old(Keys)[current].(subKeyCount := Keys[current].subKeyCount)]
      ensures status == Good ==> SubkeysSound(Keys[current], current)
      ensures !fixHive || status != Good ==> Keys == old(Keys)
      ensures !fixHive ==> (status == Good <==> SubkeysSound(Keys[current], current))
      ensures KidsOf(Keys[current], current, Indexes, Allocated) == KidsOf(old(Keys)[current], current, Indexes, Allocated)
      ensures current.kind == 1 ==> Keys == old(Keys) && !doRepair
      ensures doRepair ==> status != Good && KidsOf(Keys[current], current, Indexes, Allocated) == []
      ensures fixHive && status != Good && !doRepair ==> current.kind == 1 && Keys[current].subKeyCount != 0
      ensures fixHive && current.kind == 1 && Keys[current].subKeyCount != 0 ==> status != Good && !doRepair
      ensures status == Good ==> Keys[current] == old(MendedSubkeys(Keys[current], current)) && !old(SubkeysLost(Keys[current], current))
      ensures doRepair ==> old(SubkeysLost(Keys[current], current))
      ensures status == SubkeysListUnallocated <==> old(current.kind != 1 && Keys[current].subKeyCount > 0 && Keys[current].subKeyList !in Allocated)
      ensures SelfHeal == (old(SelfHeal) || Keys[current].subKeyCount != old(Keys)[current].subKeyCount)
    {
      if current.kind == 1 {
        return if Keys[current].subKeyCount != 0 then StableKeysOnVolatile else Good, false;
      }
      var list, count := Keys[current].subKeyList, Keys[current].subKeyCount;
      if count > 0 {
        if list !in Allocated {
          return SubkeysListUnallocated, true;
        }
        if list !in Indexes {
          return CorruptKeyIndexSignature, true;   // no signature of an index
        }
        var total;
        if Indexes[list].signature != IndexRoot {
          total := |Indexes[list].list|;
          OneLeaf(Indexes, list);
        } else {
          total, status := CountLeaves(list);
          if status != Good {
            return status, true;
          }
        }
        if count != total {
          var repaired := RepairSubKeyCounts(current, total, fixHive);
          if !repaired {
            return BadSubkeyCount, false;
          }
        }
      }
      return Good, false;
    }

    /** The leaves of a root are looked at one by one, and their entries counted. */
    method CountLeaves(list: HCell) returns (total: nat, status: Status)
      requires Valid() && list in Allocated && list in Indexes && Indexes[list].signature == IndexRoot
      ensures status == Good <==> ListOk(Indexes, Allocated, list)
      ensures status == Good ==> total == |Flat(Indexes, list)|
      ensures status != Good ==> exists i :: 0 <= i < |Indexes[list].list| && FirstBadLeaf(Indexes[list].list, i, status)
    {
      var root := Indexes[list];
      ghost var t := RootTree(Indexes, root.list);
      assert Tree(Indexes, list) == t;
      total := 0;
      ConcatAll(t);
      hide Concat;
      for i := 0 to |root.list|
        invariant total == Start(t, i)
        invariant forall j {:trigger root.list[j]} :: 0 <= j < i ==> LeafAt(Indexes, Allocated, root.list[j].cell)
      {
        var leaf := root.list[i].cell;
        if leaf !in Allocated {
          assert FirstBadLeaf(root.list, i, KeyIndexCellUnallocated);
          return 0, KeyIndexCellUnallocated;
        }
        if leaf !in Indexes || Indexes[leaf].signature == IndexRoot {
          assert FirstBadLeaf(root.list, i, CorruptLeafSignature);
          return 0, CorruptLeafSignature;
        }
        ConcatAt(t, i);
        total := total + |Indexes[leaf].list|;
      }
      status := Good;
    }

    /** The entries before i name leaves, and entry i does not, which is the complaint. */
    ghost predicate FirstBadLeaf(list: seq<Entry>, i: nat, status: Status)
      reads this`Indexes
      requires i < |list|
    {
      && !LeafAt(Indexes, Allocated, list[i].cell)
      && (forall j {:trigger list[j]} :: 0 <= j < i ==> LeafAt(Indexes, Allocated, list[j].cell))
      && status == if list[i].cell !in Allocated then KeyIndexCellUnallocated else CorruptLeafSignature
    }

    // ----- one key

    /** The cell is allocated and holds a node of a sane size with a name in it. */
    predicate Shaped(current: HCell)
      reads this`Keys
    {
      current in Allocated && current in Keys && ShapedKey(Keys[current])
    }

    ghost predicate LinksSound(key: KeyNode, parent: HCell)
    {
      && (parent != Nil ==> key.parent == parent) && key.signatureValid
      && (key.classLength > 0 && key.classCell != Nil ==> key.classCell in Allocated)
    }

    /** The parent, the signature and the class of a key once they have been validated: a class that is not there
        is given up. */
    ghost function MendedLinks(key: KeyNode, parent: HCell): KeyNode
    {
      var linked := key.(parent := if parent != Nil then parent else key.parent, signatureValid := true);
      if key.classLength > 0 && (key.classCell == Nil || key.classCell !in Allocated) then linked.(classCell := Nil, classLength := 0) else linked
    }

    /** The parent, the signature and the class of a key, mended if that is asked for. */
    method ValidateLinks(parent: HCell, current: HCell, fixHive: bool) returns (status: Status)
      requires Valid() && current in Keys
      modifies this`Keys, this`SelfHeal
      ensures Valid() && current in Keys && Keys == old(Keys)[current := Keys[current]]
      ensures Keys[current] == old(Keys)[current].(parent := Keys[current].parent, signatureValid := Keys[current].signatureValid,
                                                   classCell := Keys[current].classCell, classLength := Keys[current].classLength)
      ensures status == Good ==> LinksSound(Keys[current], parent)
      ensures fixHive ==> status == Good
      ensures !fixHive ==> Keys[current] == old(Keys)[current].(classLength := Keys[current].classLength)
      ensures !fixHive ==> (LinksSound(Keys[current], Nil) <==> LinksSound(old(Keys)[current], Nil))
      ensures !fixHive ==> (status == Good <==> LinksSound(old(Keys)[current], parent))
      ensures status == Good ==> Keys[current] == MendedLinks(old(Keys)[current], parent)
      ensures SelfHeal == (old(SelfHeal) || Keys[current] != old(Keys)[current].(classLength := Keys[current].classLength))
    {
      var key := Keys[current];
      if parent != Nil && parent != key.parent {
        if !fixHive {
          return BadKeyNodeParent;
        }
        key := key.(parent := parent);   // CmpRepairParentNode
        SelfHeal := true;
      }
      if !key.signatureValid {
        if !fixHive {
          return BadKeyNodeSignature;
        }
        key := key.(signatureValid := true);   // CmpRepairKeyNodeSignature
        SelfHeal := true;
      }
      if key.classLength > 0 {   // CmpValidateClass
        if key.classCell == Nil {
          key := key.(classLength := 0);
        } else if key.classCell !in Allocated {
          if !fixHive {
            return KeyClassUnallocated;
          }
          key := key.(classCell := Nil, classLength := 0);   // CmpRepairClassOfNodeKey
          SelfHeal := true;
        }
      }
      Keys := Keys[current := key];
      status := Good;
    }

    /** The value list of a key, given up if it cannot be mended otherwise. */
    method ValidateValues(current: HCell, fixHive: bool) returns (status: Status)
      requires Valid() && current in Keys
      modifies this`Keys, this`ValueLists, this`SelfHeal
      ensures Valid() && current in Keys && Keys == old(Keys)[current := Keys[current]]
      ensures Keys[current] == old(Keys)[current].(valueList := Keys[current].valueList, valueCount := Keys[current].valueCount)
      ensures (status == Good ==> ValueListSound(Keys[current])) && ListsKept(old(ValueLists), ValueLists)
      ensures fixHive ==> status == Good
      ensures !fixHive ==> Keys == old(Keys) && ValueLists == old(ValueLists) && (status == Good <==> ValueListSound(Keys[current]))
      ensures status == Good ==> Keys[current] == old(MendedValues(Keys[current]))
      ensures old(ValueListSound(Keys[current])) ==> ValueLists == old(ValueLists)
      ensures SelfHeal == (old(SelfHeal) || Keys[current].valueCount != old(Keys)[current].valueCount)
    {
      hide Sound, ListsKept;
      status := ValidateValueList(current, fixHive);
      if status != Good {
        if !fixHive {
          return;
        }
        Keys := Keys[current := Keys[current].(valueList := Nil, valueCount := 0)];   // CmpRepairValueList
        SelfHeal := true;
        status := Good;
      }
    }

    /** The subkey list of a key, given up if that is the way to mend the key. */
    method ValidateSubKeys(current: HCell, fixHive: bool) returns (status: Status)
      requires Valid() && current in Keys
      modifies this`Keys, this`SelfHeal
      ensures Valid() && current in Keys && Keys == old(Keys)[current := Keys[current]]
      ensures Keys[current] == old(Keys)[current].(subKeyList := Keys[current].subKeyList, subKeyCount := Keys[current].subKeyCount)
      ensures KidsOf(Keys[current], current, Indexes, Allocated) == KidsOf(old(Keys)[current], current, Indexes, Allocated)
      ensures status == Good ==> SubkeysSound(Keys[current], current)
      ensures current.kind == 1 ==> Keys == old(Keys)
      ensures fixHive ==> (status == Good <==> !(current.kind == 1 && old(Keys)[current].subKeyCount != 0))
      ensures !fixHive ==> Keys == old(Keys) && (status == Good <==> SubkeysSound(Keys[current], current))
      ensures status == Good ==> Keys[current] == old(MendedSubkeys(Keys[current], current))
      ensures SelfHeal == (old(SelfHeal) || Keys[current] != old(Keys)[current])
    {
      hide Flat, ListOk;
      var doRepair;
      status, doRepair := ValidateSubKeyList(current, fixHive);
      if status != Good {
        if !doRepair || !fixHive {
          return;
        }
        Keys := Keys[current := Keys[current].(subKeyList := Nil, subKeyCount := 0)];   // CmpRepairSubKeyList
        SelfHeal := true;
        status := Good;
      }
    }

    /** A sound list of values stays sound when other lists are mended. */
    twostate lemma StillSound(current: HCell)
      requires Passed(Nil, current) && current in old(Keys) && Keys == old(Keys)[current := Keys[current]]
      requires ListsKept(old(ValueLists), ValueLists) && Indexes == old(Indexes)
      ensures old(SoundKeys()) + {current} <= SoundKeys()
    {
      hide Sound, Flat, ListOk;
      forall k | k in old(SoundKeys()) && k != current ensures k in SoundKeys() {
        var key := Keys[k];
        if key.valueCount > 0 {
          assert ListKept(old(ValueLists)[key.valueList], ValueLists[key.valueList]);
          assert ValueLists[key.valueList][..key.valueCount] == old(ValueLists)[key.valueList][..key.valueCount];
        }
      }
    }

    /** The node: allocated, of a sane size, and with a name that fits. */
    method CheckShape(current: HCell) returns (status: Status)
      requires Valid() && current != Nil
      ensures status == Good <==> Shaped(current)
      ensures status == KeyCellNotAllocated <==> current !in Allocated
      ensures status in {Good, KeyCellNotAllocated} || var key := Keys[current];
        && (status == CellSizeNotSane <==> key.cellSize > KEY_SIZE_THRESHOLD)
        && (status == KeyNameLengthZero <==> key.cellSize <= KEY_SIZE_THRESHOLD && key.nameLength == 0)
        && status in {CellSizeNotSane, KeyNameLengthZero, KeyTooBigThanCell}
    {
      if current !in Allocated {
        return KeyCellNotAllocated;
      }
      if Keys[current].cellSize > KEY_SIZE_THRESHOLD {
        return CellSizeNotSane;
      }
      if Keys[current].nameLength == 0 {
        return KeyNameLengthZero;
      }
      if Keys[current].nameLength + KEY_NODE_NAME > Keys[current].cellSize {
        return KeyTooBigThanCell;
      }
      status := Good;
    }

    lemma WhatPasses(parent: HCell, current: HCell)
      requires Valid() && current != Nil
      ensures current in Keys ==> KeyMended(Keys, Keys, Indexes, Allocated, current) && VolatileKept(Keys[current], Keys[current])
      ensures current in Keys ==> SameVolatiles(Keys[current], Keys[current]) && LinkKept(Keys[current], Keys[current])
      ensures current in Mendable(Keys, Allocated) <==> Shaped(current) && !(current.kind == 1 && Keys[current].subKeyCount != 0)
      ensures current in SoundKeys() && (parent != Nil ==> Keys[current].parent == parent) <==>
        Shaped(current) && LinksSound(Keys[current], parent) && ValueListSound(Keys[current]) && SubkeysSound(Keys[current], current)
      ensures LinksKept(Keys, Keys) && ListsKept(ValueLists, ValueLists)
      ensures current in SoundKeys() ==> current in Keys && ValueListSound(Keys[current])
    {
      SameLists(ValueLists);
      if current in Keys { NotMended(Keys, Indexes, Allocated, current); }
      hide KidsOf, Sound, Flat, ListOk, ListsKept;
    }

    /** What becomes of a key that passes below a parent: whatever was not right has been mended or given up, and the
        rest is as it was. */
    ghost function Healed(key: KeyNode, parent: HCell, current: HCell): KeyNode
      reads this`ValueLists, this`Indexes
    {
      PurgedKey(MendedSubkeys(MendedValues(MendedLinks(key, parent)), current))
    }

    /** A sound key is left as it is: its Parent is set, a class length without a class cleared, and its volatile
        subkeys purged if that is asked for. */
    lemma SoundKeyStays(parent: HCell, current: HCell)
      requires Valid() && current in SoundKeys()
      ensures var key, healed := Keys[current], Healed(Keys[current], parent, current);
        && healed == PurgedKey(key.(parent := healed.parent, classLength := healed.classLength))
        && healed.parent == (if parent != Nil then parent else key.parent)
        && healed.classLength == (if key.classCell == Nil then 0 else key.classLength)
    {
      hide Flat, ListOk, Sound;
    }

    /** CmpValidateKey.  Without healing a key passes exactly when it is sound; with healing, whatever can be
        mended is, and the graph of keys stays what it is. */
    method ValidateKey(parent: HCell, current: HCell, fixHive: bool) returns (status: Status)
      requires Valid() && current != Nil
      modifies this`Keys, this`ValueLists, this`SelfHeal
      ensures Valid() && (current in Keys ==> KeyMended(old(Keys), Keys, Indexes, Allocated, current))
      ensures current !in Keys ==> Keys == old(Keys)
      ensures status == Good ==> Passed(parent, current) && old(SoundKeys()) + {current} <= SoundKeys()
      ensures status == Good ==> current in old(Keys) && Keys[current] == old(Healed(Keys[current], parent, current))
      ensures current in Keys ==> current in old(Keys) && VolatileKept(old(Keys)[current], Keys[current])
      ensures status != Good && current in Keys ==> SameVolatiles(old(Keys)[current], Keys[current])
      ensures current in old(SoundKeys()) ==> ValueLists == old(ValueLists)
      ensures SelfHeal == (old(SelfHeal) || (current in Keys && !LinkKept(old(Keys)[current], Keys[current])))
      ensures fixHive ==> (status == Good <==> current in old(Mendable(Keys, Allocated)))
      ensures !fixHive ==> LinksKept(old(Keys), Keys) && SoundKeys() == old(SoundKeys())
      ensures old(current in SoundKeys() && (parent != Nil ==> Keys[current].parent == parent)) ==>
        status == Good && LinkKept(old(Keys)[current], Keys[current]) && SoundKeys() == old(SoundKeys())
      ensures !fixHive ==> (status == Good <==> old(current in SoundKeys() && (parent != Nil ==> Keys[current].parent == parent)))
    {
      WhatPasses(parent, current);
      ghost var harmless := current in SoundKeys() && (parent != Nil ==> Keys[current].parent == parent);
      if harmless { SoundStays(parent, current); }
      hide *;
      status := CheckShape(current);
      if status != Good {
        return;
      }
      InKeys(current);
      status := ValidateShaped(parent, current, fixHive);
      if status == Good {
        StillPassed(parent, current);
        StillSound(current);
      }
      if harmless { LinksOfPassed(parent, current); }
      if !fixHive || harmless { SoundKept(current); }
    }

    lemma SoundStays(parent: HCell, current: HCell)
      requires Valid() && current in SoundKeys() && (parent != Nil ==> Keys[current].parent == parent)
      ensures current in Mendable(Keys, Allocated) && LinkKept(Keys[current], Healed(Keys[current], parent, current)) && LinksSound(Keys[current], Nil)
    {
      SoundMends(current);
      SoundKeyStays(parent, current);
      hide Flat, ListOk, Sound, Healed;
    }

    lemma LinksOfPassed(parent: HCell, current: HCell)
      requires Passed(parent, current)
      ensures LinksSound(Keys[current], Nil)
    {
    }

    /** A key whose node has a sane shape is checked and, if it passes, purged. */
    method ValidateShaped(parent: HCell, current: HCell, fixHive: bool) returns (status: Status)
      requires Valid() && Shaped(current)
      modifies this`Keys, this`ValueLists, this`SelfHeal
      ensures Valid() && KeyMended(old(Keys), Keys, Indexes, Allocated, current)
      ensures current in old(Keys) && current in Keys && Keys == old(Keys)[current := Keys[current]] && ListsKept(old(ValueLists), ValueLists)
      ensures status == Good ==> Passed(parent, current) && Keys[current] == old(Healed(Keys[current], parent, current))
      ensures VolatileKept(old(Keys)[current], Keys[current])
      ensures status != Good ==> SameVolatiles(old(Keys)[current], Keys[current])
      ensures old(ValueListSound(Keys[current])) ==> ValueLists == old(ValueLists)
      ensures SelfHeal == (old(SelfHeal) || !LinkKept(old(Keys)[current], Keys[current]))
      ensures fixHive ==> (status == Good <==> !(current.kind == 1 && old(Keys)[current].subKeyCount != 0))
      ensures !fixHive ==> LinksKept(old(Keys), Keys) && ValueLists == old(ValueLists) && LinkKept(old(Keys)[current], Keys[current])
      ensures !fixHive ==> (LinksSound(Keys[current], Nil) <==> LinksSound(old(Keys)[current], Nil))
      ensures !fixHive ==> (status == Good <==> old(LinksSound(Keys[current], parent)
                            && ValueListSound(Keys[current]) && SubkeysSound(Keys[current], current)))
    {
      ghost var before, healed := Keys, Healed(Keys[current], parent, current);
      HealedIs(parent, current);
      hide *;
      InKeys(current);
      status := ValidateContents(parent, current, fixHive);
      ghost var mended := Keys[current];
      MendedKey(before, current);
      if status == Good { PurgeChecked(before, parent, current); }
      MendedAndPurged(before, mended, current, status == Good);
    }

    lemma HealedIs(parent: HCell, current: HCell)
      requires current in Keys
      ensures Healed(Keys[current], parent, current) == PurgedKey(MendedSubkeys(MendedValues(MendedLinks(Keys[current], parent)), current))
    {
    }

    lemma MendedKey(keys: map<HCell, KeyNode>, current: HCell)
      requires KeyMended(keys, Keys, Indexes, Allocated, current)
      ensures current in keys && current in Keys && Keys == keys[current := Keys[current]]
    {
    }

    /** What the purge adds to what was mended: of the links nothing, of the volatile subkeys all. */
    lemma MendedAndPurged(keys: map<HCell, KeyNode>, mended: KeyNode, current: HCell, purged: bool)
      requires KeyMended(keys, Keys, Indexes, Allocated, current) && SameVolatiles(keys[current], mended)
      requires Keys[current] == if purged then PurgedKey(mended) else mended
      ensures current in keys && current in Keys && Keys == keys[current := Keys[current]]
      ensures VolatileKept(keys[current], Keys[current]) && (!purged ==> SameVolatiles(keys[current], Keys[current]))
      ensures LinkKept(keys[current], Keys[current]) <==> LinkKept(keys[current], mended)
      ensures mended == keys[current].(classLength := mended.classLength) ==> LinkKept(keys[current], mended) && LinksKept(keys, Keys)
      ensures LinksSound(Keys[current], Nil) <==> LinksSound(mended, Nil)
    {
      hide KidsOf;
    }

    /** The sound keys list as many subkeys as before. */
    ghost predicate CountsKept(sound: set<HCell>, keys: map<HCell, KeyNode>, keys': map<HCell, KeyNode>)
    {
      forall k {:trigger k in sound} :: k in sound && k in keys ==> k in keys' && keys'[k].subKeyCount == keys[k].subKeyCount
    }

    lemma CountKept(sound: set<HCell>, mending: set<HCell>, keys: map<HCell, KeyNode>, healed: KeyNode, current: HCell, fixHive: bool, good: bool)
      requires current in Keys && KeyMended(keys, Keys, Indexes, Allocated, current)
      requires good ==> Keys[current] == healed
      requires !good && fixHive ==> current !in mending
      requires !good && !fixHive ==> LinksKept(keys, Keys)
      requires current in sound ==> current in mending && healed.subKeyCount == keys[current].subKeyCount
      ensures CountsKept(sound, keys, Keys)
    {
      hide KidsOf;
    }

    lemma SameCounts(sound: set<HCell>, keys: map<HCell, KeyNode>)
      ensures CountsKept(sound, keys, keys)
    {
    }

    lemma SoundCount(parent: HCell, current: HCell)
      requires Valid() && current in SoundKeys()
      ensures current in Mending() && Healed(Keys[current], parent, current).subKeyCount == Keys[current].subKeyCount
    {
      SoundMends(current);
      SoundKeyStays(parent, current);
    }

    /** A sound key is one that can be mended: there is nothing to mend. */
    lemma SoundMends(k: HCell)
      requires Valid() && k in SoundKeys()
      ensures k in Mending()
    {
      hide Sound, Flat, ListOk;
    }

    /** The keys that healing can make good. */
    ghost function Mending(): set<HCell>
      reads this`Keys
    {
      Mendable(Keys, Allocated)
    }

    /** A key that has passed is purged of what is volatile, and is what passed still. */
    method PurgeChecked(ghost before: map<HCell, KeyNode>, parent: HCell, current: HCell)
      requires Valid() && Passed(parent, current) && KeyMended(before, Keys, Indexes, Allocated, current)
      modifies this`Keys
      ensures Valid() && Passed(parent, current) && KeyMended(before, Keys, Indexes, Allocated, current)
      ensures current in old(Keys) && Keys == old(Keys)[current := Keys[current]] && LinkVolatile(old(Keys)[current], Keys[current])
      ensures Keys[current] == PurgedKey(old(Keys)[current])
    {
      ghost var mended := Keys;
      hide KidsOf, Sound, Flat, ListOk;
      PurgeVolatileKeys(current);
      SameKids(mended, Keys, Indexes, Allocated, current);
      MendedTwice(before, mended, Keys, Indexes, Allocated, current);
    }

    lemma StillPassed(parent: HCell, current: HCell)
      requires Passed(parent, current)
      ensures Passed(Nil, current)
    {
    }

    twostate lemma SoundKept(current: HCell)
      requires current in old(Keys) && current in Keys && Keys == old(Keys)[current := Keys[current]]
      requires LinkKept(old(Keys)[current], Keys[current]) && ValueLists == old(ValueLists) && Indexes == old(Indexes)
      requires LinksSound(Keys[current], Nil) <==> LinksSound(old(Keys)[current], Nil)
      ensures SoundKeys() == old(SoundKeys())
    {
      hide Sound, Flat, ListOk;
      forall k | k in Keys
        ensures k in SoundKeys() <==> k in old(SoundKeys())
      {
      }
    }

    /** The keys that would pass, wherever they are listed. */
    ghost function SoundKeys(): set<HCell>
      reads this`Keys, this`Indexes, this`ValueLists
    {
      set k | k in Keys && Passed(Nil, k)
    }

    /** What a key that has been found good meets. */
    ghost predicate Passed(parent: HCell, current: HCell)
      reads this`Keys, this`Indexes, this`ValueLists
    {
      && Shaped(current) && LinksSound(Keys[current], parent)
      && ValueListSound(Keys[current]) && SubkeysSound(Keys[current], current)
    }

    /** The links and the values of a key; nothing is done about its subkeys. */
    method ValidateNode(parent: HCell, current: HCell, fixHive: bool) returns (status: Status)
      requires Valid() && current in Keys
      modifies this`Keys, this`ValueLists, this`SelfHeal
      ensures Valid() && current in Keys && Keys == old(Keys)[current := Keys[current]]
      ensures Keys[current].subKeyCount == old(Keys)[current].subKeyCount && Keys[current].subKeyList == old(Keys)[current].subKeyList
      ensures Keys[current].cellSize == old(Keys)[current].cellSize && Keys[current].nameLength == old(Keys)[current].nameLength
      ensures status == Good ==> LinksSound(Keys[current], parent) && ValueListSound(Keys[current])
      ensures (fixHive ==> status == Good) && ListsKept(old(ValueLists), ValueLists)
      ensures !fixHive ==> ValueLists == old(ValueLists) && Keys[current] == old(Keys)[current].(classLength := Keys[current].classLength)
      ensures !fixHive ==> (LinksSound(Keys[current], Nil) <==> LinksSound(old(Keys)[current], Nil))
      ensures !fixHive ==> (status == Good <==> old(LinksSound(Keys[current], parent) && ValueListSound(Keys[current])))
      ensures status == Good ==> Keys[current] == old(MendedValues(MendedLinks(Keys[current], parent)))
      ensures old(ValueListSound(Keys[current])) ==> ValueLists == old(ValueLists)
      ensures SameVolatiles(old(Keys)[current], Keys[current])
      ensures SelfHeal == (old(SelfHeal) || !LinkKept(old(Keys)[current], Keys[current]))
    {
      SameLists(ValueLists);
      hide Sound, ListsKept;
      status := ValidateLinks(parent, current, fixHive);
      if status != Good {
        return;
      }
      status := ValidateValues(current, fixHive);
    }

    /** The checks of a key whose node has a sane shape. */
    method ValidateContents(parent: HCell, current: HCell, fixHive: bool) returns (status: Status)
      requires Valid() && Shaped(current)
      modifies this`Keys, this`ValueLists, this`SelfHeal
      ensures Valid() && KeyMended(old(Keys), Keys, Indexes, Allocated, current)
      ensures (status == Good ==> Passed(parent, current)) && ListsKept(old(ValueLists), ValueLists)
      ensures fixHive ==> (status == Good <==> !(current.kind == 1 && old(Keys)[current].subKeyCount != 0))
      ensures !fixHive ==> LinksKept(old(Keys), Keys) && ValueLists == old(ValueLists)
      ensures !fixHive ==> Keys[current] == old(Keys)[current].(classLength := Keys[current].classLength)
      ensures !fixHive ==> (LinksSound(Keys[current], Nil) <==> LinksSound(old(Keys)[current], Nil))
      ensures !fixHive ==> (status == Good <==> old(LinksSound(Keys[current], parent)
                            && ValueListSound(Keys[current]) && SubkeysSound(Keys[current], current)))
      ensures status == Good ==> Keys[current] == old(MendedSubkeys(MendedValues(MendedLinks(Keys[current], parent)), current))
      ensures old(ValueListSound(Keys[current])) ==> ValueLists == old(ValueLists)
      ensures SameVolatiles(old(Keys)[current], Keys[current])
      ensures SelfHeal == (old(SelfHeal) || !LinkKept(old(Keys)[current], Keys[current]))
    {
      hide *;
      ghost var keys := Keys;
      InKeys(current);
      status := ValidateNode(parent, current, fixHive);
      NodeKept(keys, current);
      if status != Good {
        return;
      }
      ghost var node := Keys;
      status := ValidateSubKeys(current, fixHive);
      ContentsKept(keys, node, current, parent);
      SameVolatilesTwice(keys[current], node[current], Keys[current]);
      MendedMore(keys[current], node[current], Keys[current]);
    }

    lemma InKeys(current: HCell)
      requires Shaped(current)
      ensures current in Keys && ShapedKey(Keys[current])
    {
    }

    lemma NodeKept(keys: map<HCell, KeyNode>, current: HCell)
      requires current in keys && current in Keys && Keys == keys[current := Keys[current]]
      requires Keys[current].cellSize == keys[current].cellSize && Keys[current].nameLength == keys[current].nameLength
      requires Keys[current].subKeyCount == keys[current].subKeyCount && Keys[current].subKeyList == keys[current].subKeyList
      ensures KeyMended(keys, Keys, Indexes, Allocated, current)
      ensures ShapedKey(keys[current]) ==> ShapedKey(Keys[current])
      ensures SubkeysSound(Keys[current], current) <==> SubkeysSound(keys[current], current)
      ensures Keys[current] == keys[current].(classLength := Keys[current].classLength) ==> LinksKept(keys, Keys)
    {
      SameKids(keys, Keys, Indexes, Allocated, current);
    }

    /** After the subkeys, too: the graph is the same, and a key that has passed each check has passed them all. */
    lemma ContentsKept(keys: map<HCell, KeyNode>, node: map<HCell, KeyNode>, current: HCell, parent: HCell)
      requires Valid() && KeyMended(keys, node, Indexes, Allocated, current)
      requires current in node && current in Keys && Keys == node[current := Keys[current]]
      requires Keys[current] == node[current].(subKeyList := Keys[current].subKeyList, subKeyCount := Keys[current].subKeyCount)
      requires KidsOf(Keys[current], current, Indexes, Allocated) == KidsOf(node[current], current, Indexes, Allocated)
      requires current.Cell? && current.kind == 1 ==> Keys == node
      ensures KeyMended(keys, Keys, Indexes, Allocated, current) && SameVolatiles(node[current], Keys[current])
      ensures (ShapedKey(node[current]) && LinksSound(node[current], parent) && ValueListSound(node[current])
               && SubkeysSound(Keys[current], current)) ==> Passed(parent, current)
    {
      hide KidsOf, Flat, ListOk;
    }

    /** Nothing is left of the volatile subkeys where they are to be purged. */
    ghost predicate Purged(key: KeyNode)
    {
      PurgeVolatiles || BootLoaderPurge ==> key.volatileCount == 0
    }

    /** A key without its volatile subkeys, where they are to be purged: it has none any more; for the boot loader,
        and a hive that is new enough, its volatile list is marked as one that has yet to be set up. */
    ghost function PurgedKey(key: KeyNode): (r: KeyNode)
      ensures Purged(r) && r.subKeyCount == key.subKeyCount
    {
      if !(PurgeVolatiles || BootLoaderPurge) || key.volatileCount == 0 then key
      else key.(volatileCount := 0, volatileList := if BootLoaderPurge && Version >= HSYS_WHISTLER_BETA1 then VOLATILE_LIST_UNINITIALIZED else Nil)
    }

    /** The volatile subkeys of each key are as they were, or have been purged. */
    ghost predicate VolatilesKept(keys: map<HCell, KeyNode>, keys': map<HCell, KeyNode>)
    {
      keys'.Keys == keys.Keys && forall k {:trigger keys'[k]} :: k in keys ==> VolatileKept(keys[k], keys'[k])
    }

    ghost predicate VolatileKept(key: KeyNode, key': KeyNode)
    {
      SameVolatiles(key, key') || SameVolatiles(PurgedKey(key), key')
    }

    lemma SameKeys(keys: map<HCell, KeyNode>)
      ensures VolatilesKept(keys, keys)
    {
    }

    lemma VolatilesKeptTwice(keys: map<HCell, KeyNode>, keys1: map<HCell, KeyNode>, keys2: map<HCell, KeyNode>)
      requires VolatilesKept(keys, keys1) && VolatilesKept(keys1, keys2)
      ensures VolatilesKept(keys, keys2)
    {
      forall k | k in keys ensures VolatileKept(keys[k], keys2[k]) {
        assert VolatileKept(keys[k], keys1[k]) && VolatileKept(keys1[k], keys2[k]);
      }
    }

    lemma OneVolatileKept(keys: map<HCell, KeyNode>, current: HCell)
      requires current in keys && current in Keys && Keys == keys[current := Keys[current]] && VolatileKept(keys[current], Keys[current])
      ensures VolatilesKept(keys, Keys)
    {
    }

    /** CmpPurgeVolatiles. */
    method PurgeVolatileKeys(current: HCell)
      requires current in Keys
      modifies this`Keys
      ensures current in Keys && Keys == old(Keys)[current := Keys[current]] && LinkVolatile(old(Keys)[current], Keys[current])
      ensures Keys[current] == PurgedKey(old(Keys)[current])
    {
      if (PurgeVolatiles || BootLoaderPurge) && Keys[current].volatileCount != 0 {
        if BootLoaderPurge && Version >= HSYS_WHISTLER_BETA1 {
          Keys := Keys[current := Keys[current].(volatileList := VOLATILE_LIST_UNINITIALIZED)];
        } else {
          Keys := Keys[current := Keys[current].(volatileList := Nil)];
        }
        Keys := Keys[current := Keys[current].(volatileCount := 0)];
      }
    }

    // ----- taking a key out

    /** CmpRemoveSubKeyInLeaf: the first entry that names the key. */
    method RemoveSubKeyInLeaf(leaf: HCell, targetKey: HCell) returns (removed: bool)
      requires leaf in Indexes && Indexes[leaf].signature != IndexRoot
      modifies this`Indexes
      ensures removed <==> targetKey in Cells(old(Indexes)[leaf].list)
      ensures if removed then EntryRemoved(old(Indexes), Indexes, targetKey) else Indexes == old(Indexes)
    {
      var index := Indexes[leaf];
      for i := 0 to |index.list|
        invariant forall j :: 0 <= j < i ==> index.list[j].cell != targetKey
        invariant Indexes == old(Indexes)
      {
        if index.list[i].cell == targetKey {
          Indexes := Indexes[leaf := index.(list := index.list[..i] + index.list[i + 1..])];
          assert RemovedAt(old(Indexes), Indexes, targetKey, leaf, i);
          assert Cells(index.list)[i] == targetKey;
          return true;
        }
      }
      removed := false;
    }

    /** CmpRemoveSubkeyInRoot: the first entry of any leaf that names the key. */
    method RemoveSubkeyInRoot(list: HCell, targetKey: HCell) returns (removed: bool)
      requires list in Indexes && Indexes[list].signature == IndexRoot && ListOk(Indexes, Allocated, list)
      modifies this`Indexes
      ensures removed <==> targetKey in Flat(old(Indexes), list)
      ensures if removed then EntryRemoved(old(Indexes), Indexes, targetKey) else Indexes == old(Indexes)
    {
      var root := Indexes[list];
      RootStarts(list);
      hide *;
      for i := 0 to |root.list|
        invariant Indexes == old(Indexes) && targetKey !in Concat(Tree(Indexes, list)[..i])
      {
        var leaf := root.list[i].cell;
        RootGoesOn(list, i);
        removed := RemoveSubKeyInLeaf(leaf, targetKey);
        if removed {
          return;
        }
      }
      removed := false;
    }

    lemma RootStarts(list: HCell)
      requires list in Indexes && Indexes[list].signature == IndexRoot
      ensures var t := Tree(Indexes, list); |t| == |Indexes[list].list| && Concat(t[..0]) == [] && Concat(t[..|t|]) == Flat(Indexes, list)
    {
      var t := Tree(Indexes, list);
      assert t[..0] == [] && t[..|t|] == t;
    }

    lemma RootGoesOn(list: HCell, i: nat)
      requires list in Indexes && Indexes[list].signature == IndexRoot && ListOk(Indexes, Allocated, list) && i < |Indexes[list].list|
      ensures var t, leaf := Tree(Indexes, list), Indexes[list].list[i].cell;
        && |t| == |Indexes[list].list| && leaf in Indexes && Indexes[leaf].signature != IndexRoot
        && Concat(t[..i + 1]) == Concat(t[..i]) + Cells(Indexes[leaf].list)
        && forall k :: k in Cells(Indexes[leaf].list) ==> k in Flat(Indexes, list)
    {
      var t, leaf := Tree(Indexes, list), Indexes[list].list[i].cell;
      assert LeafAt(Indexes, Allocated, leaf);
      assert t[..i + 1][..i] == t[..i] && t[i] == Cells(Indexes[leaf].list);
      ConcatAt(t, i);
    }

    /** CmpRepairParentKey: with healing, the key is taken out of its parent's list, and the parent counts one less. */
    method RepairParentKey(targetKey: HCell, parentKey: HCell, fixHive: bool) returns (repaired: bool)
      requires Valid() && parentKey in Keys && Keys[parentKey].subKeyCount > 0 && ListOk(Indexes, Allocated, Keys[parentKey].subKeyList)
      modifies this`Keys, this`Indexes, this`SelfHeal
      ensures Valid()
      ensures repaired <==> fixHive && targetKey in Flat(old(Indexes), old(Keys)[parentKey].subKeyList)
      ensures !repaired ==> Keys == old(Keys) && Indexes == old(Indexes)
      ensures SelfHeal == (old(SelfHeal) || repaired)
      ensures repaired ==> EntryRemoved(old(Indexes), Indexes, targetKey)
      ensures repaired ==> Keys == old(Keys)[parentKey := old(Keys)[parentKey].(subKeyCount := old(Keys)[parentKey].subKeyCount - 1)]
    {
      if !fixHive {
        return false;
      }
      var list := Keys[parentKey].subKeyList;
      if Indexes[list].signature == IndexRoot {
        repaired := RemoveSubkeyInRoot(list, targetKey);
      } else {
        OneLeaf(Indexes, list);
        repaired := RemoveSubKeyInLeaf(list, targetKey);
      }
      if repaired {
        Keys := Keys[parentKey := Keys[parentKey].(subKeyCount := Keys[parentKey].subKeyCount - 1)];
        SelfHeal := true;
      }
    }

    // ----- the walk

    /** The stable keys and what their lists name. */
    ghost function KeyTree(): Graph
      reads this`Keys, this`Indexes
    {
      GraphOf(Keys, Indexes, Allocated)
    }

    /** The keys found good: the sound ones that have been purged and, with healing, only those whose Parent is a key
        of the tree that lists them, or the root. */
    ghost function Settled(strict: bool): set<HCell>
      reads this`Keys, this`Indexes, this`ValueLists
    {
      SettledOf(strict, Keys, SoundKeys(), KeyTree())
    }

    ghost function SettledOf(strict: bool, keys: map<HCell, KeyNode>, sound: set<HCell>, graph: Graph): set<HCell>
    {
      set k | k in keys && k in sound && Purged(keys[k]) && (strict || k == RootCell || Adopted(graph, RootCell, keys[k].parent, k))
    }

    /** What is known of the keys. */
    ghost function Found(strict: bool): Findings
      reads this`Keys, this`Indexes, this`ValueLists
    {
      Findings(KeyTree(), Settled(strict), ParentsOf(Keys), strict, LexicalOrder, RootCell)
    }

    /** What a check that ends well has established. */
    ghost predicate Accepted(strict: bool)
      reads this`Keys, this`Indexes, this`ValueLists
    {
      Walked(Found(strict), Nil, RootCell, 511)
    }

    /** What a walk needs to find of the keys to end well: without healing the sound ones, with the Parent that
        lists them; with healing those that can be mended. */
    ghost function Awaited(strict: bool): Findings
      reads this`Keys, this`Indexes, this`ValueLists
    {
      AwaitedOf(strict, Keys, SoundKeys())
    }

    /** What a check can be told to end well by, before it starts. */
    ghost predicate Acceptable(strict: bool)
      reads this`Keys, this`Indexes, this`ValueLists
    {
      Walked(Awaited(strict), Nil, RootCell, 511)
    }

    /** One walk of CmpValidateRegistryInternal: to its end, to a failure, or to a key that is taken out, after
        which the source starts again from the root. */
    method Walk(fixHive: bool) returns (status: Status, restart: bool)
      requires Valid() && RootCell != Nil
      modifies this`Keys, this`Indexes, this`ValueLists, this`SelfHeal
      ensures Valid()
      ensures restart ==> fixHive && SomeEntryRemoved(old(Indexes), Indexes)
      ensures !restart ==> Indexes == old(Indexes) && KeyTree() == old(KeyTree()) && Awaited(!fixHive) == old(Awaited(!fixHive))
      ensures !restart && status == Good ==> Accepted(!fixHive)
      ensures !fixHive ==> LinksKept(old(Keys), Keys)
      ensures VolatilesKept(old(Keys), Keys)
      ensures !restart && status == Good <==> old(Acceptable(!fixHive))
      ensures Mending() == old(Mending()) && (restart && old(InOrderNow()) ==> Thinned(old(KeyTree()), KeyTree(), Mending()))
      ensures fixHive && old(InOrderNow() && Bears(KeyTree(), Mending(), RootCell, 511, true)) ==> restart || status == Good
      ensures old(SelfHeal) || restart || !LinksKept(old(Keys), Keys) ==> SelfHeal
      ensures !fixHive ==> SelfHeal == old(SelfHeal)
      ensures old(Acceptable(true)) ==>
        !restart && status == Good && LinksKept(old(Keys), Keys) && ValueLists == old(ValueLists) && SelfHeal == old(SelfHeal)
    {
      hide *;
      ghost var keys, graph, awaited := Keys, KeyTree(), Awaited(!fixHive);
      var stack, allChildrenChecked := [Frame(0, RootCell, Nil, Nil)], false;
      KeysKept(Keys, Indexes, Allocated);
      SameKeys(Keys);
      FoundTree(!fixHive);
      AcceptedIs(!fixHive);
      Started(Found(!fixHive), stack[0]);
      FirstPromised(awaited, stack[0]);
      ghost var strictly, harmless := Awaited(true), Acceptable(true);
      FoundTree(true);
      AcceptedIs(true);
      FirstPromised(strictly, stack[0]);
      ghost var promise, mending, sure := Acceptable(!fixHive), Mending(), InOrderNow() && Bears(KeyTree(), Mending(), RootCell, 511, true);
      if sure { FirstSure(stack[0]); }
      SureIs(graph, mending, stack);
      while stack != []
        invariant Valid() && Indexes == old(Indexes) && KeyTree() == graph && |stack| <= 511 && Awaited(!fixHive) == awaited
        invariant (!fixHive ==> LinksKept(keys, Keys)) && VolatilesKept(keys, Keys)
        invariant if stack == [] then Accepted(!fixHive) else StackOk(Found(!fixHive), stack, allChildrenChecked)
        invariant promise ==> Promised(awaited, stack)
        invariant Mending() == mending && (fixHive && sure ==> Sure(stack))
        invariant (old(SelfHeal) || !LinksKept(keys, Keys) ==> SelfHeal) && (!fixHive ==> SelfHeal == old(SelfHeal))
        invariant harmless ==> LinksKept(keys, Keys) && ValueLists == old(ValueLists) && SelfHeal == old(SelfHeal)
        invariant harmless ==> Awaited(true) == strictly && Promised(strictly, stack)
        decreases StackWork(graph, stack)
      {
        ghost var before := Keys;
        var proceed;
        SureIs(graph, mending, stack);
        status, restart, proceed, allChildrenChecked, stack := Round(stack, allChildrenChecked, keys, fixHive);
        VolatilesKeptTwice(keys, before, Keys);
        if LinksKept(keys, before) && LinksKept(before, Keys) { LinksKeptTwice(keys, before, Keys); }
        if !proceed {
          return;
        }
      }
      AcceptedWas(!fixHive);
      AcceptedIs(!fixHive);
      status, restart := Good, false;
    }

    /** One round of the walk: the key on top, unless it is only come back to, and on to the next. */
    method Round(stack: seq<Frame>, allChildrenChecked: bool, ghost keys: map<HCell, KeyNode>, fixHive: bool)
      returns (status: Status, restart: bool, proceed: bool, allChildrenChecked': bool, stack': seq<Frame>)
      requires Valid() && RootCell != Nil && StackOk(Found(!fixHive), stack, allChildrenChecked) && |stack| <= 511
      requires !fixHive ==> LinksKept(keys, Keys)
      modifies this`Keys, this`Indexes, this`ValueLists, this`SelfHeal
      ensures Valid() && VolatilesKept(old(Keys), Keys) && Mending() == old(Mending())
      ensures !fixHive ==> LinksKept(keys, Keys)
      ensures restart ==> !proceed && fixHive && SomeEntryRemoved(old(Indexes), Indexes)
      ensures restart && old(InOrderNow()) ==> Thinned(old(KeyTree()), KeyTree(), Mending())
      ensures !restart ==> Indexes == old(Indexes) && KeyTree() == old(KeyTree()) && Awaited(!fixHive) == old(Awaited(!fixHive))
      ensures !restart && !proceed ==> status != Good
      ensures proceed ==> !restart && |stack'| <= 511 && StackWork(KeyTree(), stack') < StackWork(KeyTree(), stack)
      ensures proceed ==> if stack' == [] then Accepted(!fixHive) else StackOk(Found(!fixHive), stack', allChildrenChecked')
      ensures old(Promised(Awaited(!fixHive), stack)) ==> proceed && Promised(Awaited(!fixHive), stack')
      ensures fixHive && old(Sure(stack)) ==> restart || (proceed && Sure(stack'))
      ensures SelfHeal == (old(SelfHeal) || restart || !LinksKept(old(Keys), Keys)) && (!fixHive ==> SelfHeal == old(SelfHeal))
      ensures old(Promised(Awaited(true), stack)) ==> (proceed && Promised(Awaited(true), stack')
                && LinksKept(old(Keys), Keys) && ValueLists == old(ValueLists) && Awaited(true) == old(Awaited(true)))
    {
      hide *;
      KeysKept(Keys, Indexes, Allocated);
      SameKeys(Keys);
      stack', restart := stack, false;
      if !allChildrenChecked {
        status, restart, proceed, stack' := VisitTop(stack, keys, fixHive);
        if !proceed {
          return status, restart, false, false, stack;
        }
      }
      status, proceed, allChildrenChecked', stack' := Advance(stack', !fixHive);
    }

    /** What has been found good is what could be made good. */
    lemma AcceptedWas(strict: bool)
      requires Valid() && Accepted(strict)
      ensures Acceptable(strict)
    {
      hide Sound, Flat, ListOk, KidsOf, Walked;
      WalkedMore(Found(strict), Awaited(strict), Nil, RootCell, 511);
    }

    lemma FirstSure(frame: Frame)
      requires InOrderNow() && Bears(KeyTree(), Mending(), RootCell, 511, true) && frame.current == RootCell
      ensures Sure([frame])
    {
    }

    lemma SameVerdict(strict: bool)
      ensures Acceptable(strict) <==> Walked(Awaited(strict), Nil, RootCell, 511)
      ensures InOrderNow() <==> Orderly(KeyTree(), Mending(), LexicalOrder)
    {
    }

    lemma FirstPromised(f: Findings, frame: Frame)
      requires frame == Frame(0, f.root, Nil, Nil)
      ensures Promised(f, [frame]) <==> Walked(f, Nil, f.root, 511)
    {
      assert Promised(f, [frame]) ==> Walked(f, [frame][0].parent, [frame][0].current, 511 - 0);
    }

    /** On to the next child of the key on top, or back to the frame below when there is none. */
    method Advance(stack: seq<Frame>, ghost strict: bool) returns (status: Status, proceed: bool, allChildrenChecked: bool, stack': seq<Frame>)
      requires Valid() && StackOk(Found(strict), stack, true)
      ensures !proceed ==> status != Good
      ensures proceed ==> |stack'| <= 511 && StackWork(KeyTree(), stack') < StackWork(KeyTree(), stack)
      ensures proceed ==> if stack' == [] then Accepted(strict) else StackOk(Found(strict), stack', allChildrenChecked)
      ensures Promised(Awaited(strict), stack) ==> proceed && Promised(Awaited(strict), stack')
      ensures Sure(stack) ==> proceed && Sure(stack')
      ensures Promised(Awaited(true), stack) ==> proceed && Promised(Awaited(true), stack')
    {
      hide *;
      ghost var f, g, h, mending := Found(strict), Awaited(strict), Awaited(true), Mending();
      FoundTree(true);
      FoundTree(strict);
      SettledMend(strict);
      SureIs(f.graph, mending, stack);
      TopIsSettled(f, stack);
      var depth := |stack| - 1;
      var current := stack[depth].current;
      SettledKey(strict, current);
      if stack[depth].childCellIndex < Keys[current].subKeyCount {
        var child := Flat(Indexes, Keys[current].subKeyList)[stack[depth].childCellIndex];   // CmpFindSubKeyByNumber
        if Promised(g, stack) { ChildPromised(g, stack); }
        if Promised(h, stack) { ChildPromised(h, stack); }
        if Sure(stack) { ChildHopeful(f.graph, mending, stack); }
        if child == Nil {
          return SubkeyNotFound, false, false, stack;
        }
        if depth + 1 >= 511 {
          return TreeTooManyLevels, false, false, stack;
        }
        ChildPushed(f, stack);
        PushedIs(stack, child);
        stack' := stack[depth := stack[depth].(childCellIndex := stack[depth].childCellIndex + 1)] + [Frame(0, child, current, Nil)];
        SureIs(f.graph, mending, stack');
        return Good, true, false, stack';
      }
      TopPopped(f, stack);
      if Promised(g, stack) { StillPromised(g, stack); }
      if Promised(h, stack) { StillPromised(h, stack); }
      if Sure(stack) { StillHopeful(f.graph, mending, stack); }
      SureIs(f.graph, mending, stack[..depth]);
      AcceptedIs(strict);
      return Good, true, true, stack[..depth];
    }

    lemma FoundTree(strict: bool)
      ensures Found(strict).graph == KeyTree() == Awaited(strict).graph
      ensures Found(strict).order == Awaited(strict).order == LexicalOrder && Found(strict).root == Awaited(strict).root == RootCell
      ensures Found(strict).strict == Awaited(strict).strict == strict && (strict ==> Found(strict).parents == Awaited(strict).parents)
    {
    }

    lemma AcceptedIs(strict: bool)
      ensures Accepted(strict) <==> Walked(Found(strict), Nil, RootCell, 511)
      ensures Acceptable(strict) <==> Walked(Awaited(strict), Nil, RootCell, 511)
    {
    }

    /** The key on top of the stack is validated, and compared with the one before it under the same parent. */
    method VisitTop(stack: seq<Frame>, ghost keys: map<HCell, KeyNode>, fixHive: bool)
      returns (status: Status, restart: bool, proceed: bool, stack': seq<Frame>)
      requires Valid() && RootCell != Nil && StackOk(Found(!fixHive), stack, false)
      requires !fixHive ==> LinksKept(keys, Keys)
      modifies this`Keys, this`Indexes, this`ValueLists, this`SelfHeal
      ensures Valid() && VolatilesKept(old(Keys), Keys)
      ensures !fixHive ==> LinksKept(keys, Keys)
      ensures restart ==> !proceed && fixHive && SomeEntryRemoved(old(Indexes), Indexes)
      ensures !restart ==> Indexes == old(Indexes) && KeyTree() == old(KeyTree()) && Awaited(!fixHive) == old(Awaited(!fixHive))
      ensures !restart && !proceed ==> status != Good
      ensures proceed ==> !restart && |stack'| == |stack| && StackOk(Found(!fixHive), stack', true)
      ensures proceed ==> StackWork(KeyTree(), stack') == StackWork(KeyTree(), stack)
      ensures old(Promised(Awaited(!fixHive), stack)) ==> proceed && Promised(Awaited(!fixHive), stack')
      ensures Mending() == old(Mending()) && (restart && old(InOrderNow()) ==> Thinned(old(KeyTree()), KeyTree(), Mending()))
      ensures fixHive && old(Sure(stack)) ==> restart || (proceed && Sure(stack'))
      ensures SelfHeal == (old(SelfHeal) || restart || !LinksKept(old(Keys), Keys)) && (!fixHive ==> SelfHeal == old(SelfHeal))
      ensures old(Promised(Awaited(true), stack)) ==> (proceed && Promised(Awaited(true), stack')
                && LinksKept(old(Keys), Keys) && ValueLists == old(ValueLists) && Awaited(true) == old(Awaited(true)))
    {
      hide *;
      ghost var f, g, strictly := Found(!fixHive), Awaited(!fixHive), Awaited(true);
      TopSound(f, stack, !fixHive);
      ghost var sound, before, mending, sure := SoundKeys(), Keys, Mending(), Sure(stack);
      FoundTree(!fixHive);
      TopIsListed(f, stack);
      TopListing(f, stack, !fixHive);
      TopInOrder(f, stack, !fixHive);
      SureIs(f.graph, mending, stack);
      var depth := |stack| - 1;
      var sibling := if depth > 0 then stack[depth - 1].sibling else Nil;
      TopExpected(f, stack, !fixHive);
      TopListed(f, stack);
      var fatal;
      status, fatal := Judge(stack[depth].parent, stack[depth].current, sibling, keys, fixHive);
      if status != Good {
        ghost var judged := Keys;
        if depth > 0 { StillListing(sound, before, f.graph, stack[depth].parent); }
        restart := GiveUp(stack, f, fatal, fixHive);
        VolatilesKeptTwice(before, judged, Keys);
        return status, restart, false, stack;
      }
      FoundTree(!fixHive);
      FoundParts(f, Found(!fixHive));
      stack' := Remember(f, Found(!fixHive), g, stack, sibling);
      if Promised(strictly, stack) { TopPromised(f, strictly, stack); }
      if sure { StillHopeful(f.graph, mending, stack); }
      SureIs(f.graph, mending, stack');
      return Good, false, true, stack';
    }

    /** Where a walk without healing would find nothing wrong, the key on top is sound and in order. */
    lemma TopSound(f: Findings, stack: seq<Frame>, strict: bool)
      requires Valid() && StackOk(f, stack, false) && f == Found(strict)
      ensures Awaited(true).graph == f.graph && Awaited(true).order == f.order == LexicalOrder
      ensures Promised(Awaited(true), stack) ==>
        && Expected(true, stack[|stack| - 1].parent, stack[|stack| - 1].current) && stack[|stack| - 1].current in Mending()
        && (|stack| > 1 && stack[|stack| - 2].sibling != Nil ==> LexicalOrder(stack[|stack| - 1].current, stack[|stack| - 2].sibling))
    {
      hide SoundKeys, GraphOf, Mending;
      if Promised(Awaited(true), stack) {
        TopPromised(f, Awaited(true), stack);
        SoundMends(stack[|stack| - 1].current);
      }
    }

    /** In every list the keys that can be mended are in order. */
    ghost predicate InOrderNow()
      reads this`Keys, this`Indexes
    {
      Orderly(KeyTree(), Mending(), LexicalOrder)
    }

    /** The walk will find nothing that healing does not do away with. */
    ghost predicate Sure(stack: seq<Frame>)
      reads this`Keys, this`Indexes
    {
      RootCell in Mending() && InOrderNow() && Hopeful(KeyTree(), Mending(), stack)
    }

    lemma SureIs(graph: Graph, mending: set<HCell>, stack: seq<Frame>)
      requires graph == KeyTree() && mending == Mending()
      ensures Sure(stack) <==> RootCell in mending && InOrderNow() && Hopeful(graph, mending, stack)
      ensures InOrderNow() <==> Orderly(graph, mending, LexicalOrder)
    {
    }

    /** The key that lists the one on top has the count it should have. */
    lemma TopListing(f: Findings, stack: seq<Frame>, strict: bool)
      requires Valid() && StackOk(f, stack, false) && f == Found(strict)
      ensures |stack| > 1 ==> var parent := stack[|stack| - 1].parent; parent in SoundKeys() && parent in Keys && Keys[parent].subKeyCount == |Kids(f.graph, parent)|
    {
      if |stack| > 1 {
        var n := |stack| - 1;
        assert Linked(f, stack, n) && Waiting(f, stack, n - 1, false);
        hide SoundKeys, KeyTree;
        SettledKey(strict, stack[n].parent);
      }
    }

    lemma StillListing(sound: set<HCell>, before: map<HCell, KeyNode>, graph: Graph, k: HCell)
      requires CountsKept(sound, before, Keys) && k in sound && k in before && before[k].subKeyCount == |Kids(graph, k)|
      ensures Listing(graph, k)
    {
    }

    /** If the keys that can be mended are in order, the key on top comes after the one before it, or cannot be mended. */
    lemma TopInOrder(f: Findings, stack: seq<Frame>, strict: bool)
      requires Valid() && StackOk(f, stack, false) && f == Found(strict)
      ensures InOrderNow() && stack[|stack| - 1].current in Mending() && |stack| > 1 && stack[|stack| - 2].sibling != Nil ==>
        LexicalOrder(stack[|stack| - 1].current, stack[|stack| - 2].sibling)
    {
      hide SoundKeys, KeyTree, Adopted, Mendable;
      SettledMend(strict);
      NilNotMending();
      if InOrderNow() && stack[|stack| - 1].current in Mending() && |stack| > 1 && stack[|stack| - 2].sibling != Nil {
        SiblingSettled(f, stack);
        TopOrderly(f, Mending(), stack);
      }
    }

    lemma NilNotMending()
      requires Valid()
      ensures Nil !in Mending()
    {
    }

    lemma SettledMend(strict: bool)
      requires Valid()
      ensures Found(strict).settled <= Mending()
    {
      hide SoundKeys, Mendable, Adopted, KeyTree;
      forall k | k in Found(strict).settled ensures k in Mending() { SoundMends(k); }
    }

    lemma TopListed(f: Findings, stack: seq<Frame>)
      requires StackOk(f, stack, false) && f.root == RootCell != Nil && f.graph == KeyTree()
      ensures |stack| > 0 && ListedBelow(stack[|stack| - 1].parent, stack[|stack| - 1].current)
    {
      TopIsListed(f, stack);
    }

    lemma FoundParts(f: Findings, f': Findings)
      requires f'.graph == f.graph && f'.order == f.order && f'.root == f.root && f'.strict == f.strict
      ensures f' == f.(settled := f'.settled, parents := f'.parents)
    {
    }

    lemma TopExpected(f: Findings, stack: seq<Frame>, strict: bool)
      requires StackOk(f, stack, false) && f == Found(strict)
      ensures Promised(Awaited(strict), stack) ==> Expected(strict, stack[|stack| - 1].parent, stack[|stack| - 1].current)
      ensures Promised(Awaited(strict), stack) && |stack| > 1 && stack[|stack| - 2].sibling != Nil ==>
        LexicalOrder(stack[|stack| - 1].current, stack[|stack| - 2].sibling)
    {
      FoundTree(strict);
      var g := Awaited(strict);
      if Promised(g, stack) { TopPromised(f, g, stack); }
    }

    /** A key at fault is taken out of the list that names it, unless the fault is fatal. */
    method GiveUp(stack: seq<Frame>, ghost f: Findings, fatal: bool, fixHive: bool) returns (restart: bool)
      requires Valid() && StackOk(f, stack, false) && KeyTree() == f.graph
      requires !fatal ==> stack[|stack| - 1].current != f.root || |stack| > 1
      requires |stack| > 1 ==> Listing(f.graph, stack[|stack| - 1].parent)
      modifies this`Keys, this`Indexes, this`SelfHeal
      ensures Valid() && (restart <==> fixHive && !fatal) && (restart ==> SomeEntryRemoved(old(Indexes), Indexes))
      ensures Mending() == old(Mending()) && SelfHeal == (old(SelfHeal) || restart)
      ensures restart && stack[|stack| - 1].current !in Mending() ==> Thinned(f.graph, KeyTree(), Mending())
      ensures VolatilesKept(old(Keys), Keys) && (!restart ==> Keys == old(Keys) && Indexes == old(Indexes))
      ensures !restart ==> KeyTree() == f.graph && Awaited(!fixHive) == old(Awaited(!fixHive))
    {
      restart := false;
      SameKeys(Keys);
      if !fatal {
        TopIsSubkey(f, stack);
        hide *;
        restart := TakeOut(stack[|stack| - 1].current, stack[|stack| - 1].parent, f.graph, fixHive);
      }
    }

    /** The root, or a key listed by one that can be reached. */
    ghost predicate ListedBelow(parent: HCell, current: HCell)
      reads this`Keys, this`Indexes
    {
      if parent == Nil then current == RootCell else Adopted(KeyTree(), RootCell, parent, current)
    }

    /** A key by itself, and next to the one before it.  What is wrong with the root is fatal. */
    method Judge(parent: HCell, current: HCell, sibling: HCell, ghost keys: map<HCell, KeyNode>, fixHive: bool) returns (status: Status, fatal: bool)
      requires Valid() && current != Nil && ListedBelow(parent, current)
      requires !fixHive ==> LinksKept(keys, Keys)
      modifies this`Keys, this`ValueLists, this`SelfHeal
      ensures Valid() && KeyTree() == old(KeyTree()) && Awaited(!fixHive) == old(Awaited(!fixHive)) && VolatilesKept(old(Keys), Keys)
      ensures !fixHive ==> LinksKept(keys, Keys)
      ensures status == Good ==> old(Found(!fixHive).settled) + {current} <= Found(!fixHive).settled
      ensures status == Good && parent != Nil ==> current in Found(!fixHive).parents && Found(!fixHive).parents[current] == parent
      ensures status == Good && sibling != Nil ==> LexicalOrder(current, sibling)
      ensures fatal ==> status != Good
      ensures old(Expected(!fixHive, parent, current)) && (sibling != Nil ==> LexicalOrder(current, sibling)) ==> status == Good
      ensures fatal ==> current == RootCell
      ensures status != Good && !fatal ==> current != RootCell || (sibling != Nil && !LexicalOrder(current, sibling))
      ensures fixHive ==> (status == Good <==> current in old(Mending()) && (sibling != Nil ==> LexicalOrder(current, sibling)))
      ensures fixHive ==> (fatal <==> current == RootCell && current !in old(Mending()))
      ensures Mending() == old(Mending()) && CountsKept(old(SoundKeys()), old(Keys), Keys)
      ensures SelfHeal == (old(SelfHeal) || !LinksKept(old(Keys), Keys)) && (!fixHive ==> SelfHeal == old(SelfHeal))
      ensures old(Expected(true, parent, current)) ==> LinksKept(old(Keys), Keys) && ValueLists == old(ValueLists) && Awaited(true) == old(Awaited(true))
    {
      hide Expected, Found, Awaited, LinksKept, KeyTree, Adopted, ListedBelow, VolatilesKept, Mending, CountsKept, SoundKeys;
      status := ValidateTop(parent, current, keys, fixHive);
      if status != Good {
        return status, current == RootCell;
      }
      if sibling != Nil && !LexicalOrder(current, sibling) {
        return BadLexicographicalOrder, false;
      }
      fatal := false;
    }

    /** A key at fault is taken out of the list that names it. */
    method TakeOut(current: HCell, parent: HCell, ghost graph: Graph, fixHive: bool) returns (repaired: bool)
      requires Valid() && KeyTree() == graph && current in Kids(graph, parent) && current != Nil
      requires Listing(graph, parent)
      modifies this`Keys, this`Indexes, this`SelfHeal
      ensures Valid() && (repaired <==> fixHive) && VolatilesKept(old(Keys), Keys) && SelfHeal == (old(SelfHeal) || repaired)
      ensures Mending() == old(Mending()) && (repaired && current !in Mending() ==> Thinned(graph, KeyTree(), Mending()))
      ensures repaired ==> SomeEntryRemoved(old(Indexes), Indexes)
      ensures !repaired ==> Keys == old(Keys) && Indexes == old(Indexes)
    {
      ghost var keys, indexes := Keys, Indexes;
      ListedBy(Keys, Indexes, Allocated, parent, current);
      hide *;
      SameKeys(Keys);
      repaired := RepairParentKey(current, parent, fixHive);
      if repaired { TakenOut(keys, indexes, graph, parent, current); }
    }

    lemma TakenOut(keys: map<HCell, KeyNode>, indexes: map<HCell, Index>, graph: Graph, parent: HCell, current: HCell)
      requires EntryRemoved(indexes, Indexes, current) && current != Nil && graph == GraphOf(keys, indexes, Allocated)
      requires parent in keys && current in Kids(graph, parent) && keys[parent].subKeyCount == |Kids(graph, parent)|
      requires Keys == keys[parent := keys[parent].(subKeyCount := keys[parent].subKeyCount - 1)]
      ensures VolatilesKept(keys, Keys) && SomeEntryRemoved(indexes, Indexes) && Mending() == Mendable(keys, Allocated)
      ensures current !in Mending() ==> Thinned(graph, KeyTree(), Mending())
    {
      hide Flat, ListOk, Thinned, KidsOf;
      var mending := Mendable(keys, Allocated);
      SameMending(keys, Keys, Allocated, parent, indexes);
      if current !in mending { GraphTaken(keys, indexes, Keys, Indexes, Allocated, parent, current, mending); }
    }

    /** The count of a key is that of its subkeys. */
    ghost predicate Listing(graph: Graph, k: HCell)
      reads this`Keys
    {
      k in Keys && Keys[k].subKeyCount == |Kids(graph, k)|
    }

    /** Validating a key changes neither the graph nor what can be mended, and what has been found good stays so. */
    method ValidateTop(parent: HCell, current: HCell, ghost keys: map<HCell, KeyNode>, fixHive: bool) returns (status: Status)
      requires Valid() && current != Nil && ListedBelow(parent, current)
      requires !fixHive ==> LinksKept(keys, Keys)
      modifies this`Keys, this`ValueLists, this`SelfHeal
      ensures Valid() && KeyTree() == old(KeyTree()) && Awaited(!fixHive) == old(Awaited(!fixHive)) && VolatilesKept(old(Keys), Keys)
      ensures !fixHive ==> LinksKept(keys, Keys)
      ensures status == Good ==> old(Found(!fixHive).settled) + {current} <= Found(!fixHive).settled
      ensures status == Good && parent != Nil ==> current in Found(!fixHive).parents && Found(!fixHive).parents[current] == parent
      ensures old(Expected(!fixHive, parent, current)) ==> status == Good
      ensures Mending() == old(Mending()) && (fixHive ==> (status == Good <==> current in old(Mending())))
      ensures CountsKept(old(SoundKeys()), old(Keys), Keys)
      ensures SelfHeal == (old(SelfHeal) || !LinksKept(old(Keys), Keys)) && (!fixHive ==> SelfHeal == old(SelfHeal))
      ensures old(Expected(true, parent, current)) ==> LinksKept(old(Keys), Keys) && ValueLists == old(ValueLists) && Awaited(true) == old(Awaited(true))
    {
      hide *;
      ghost var before, sound, settled, mending, graph := Keys, SoundKeys(), Settled(!fixHive), Mending(), KeyTree();
      ghost var healed := TopStarts(!fixHive, parent, current);
      status := ValidateKey(parent, current, fixHive);
      TopDone(keys, before, sound, settled, mending, graph, healed, parent, current, fixHive, status == Good);
    }

    /** What there is before a key is validated. */
    lemma TopStarts(strict: bool, parent: HCell, current: HCell) returns (healed: KeyNode)
      requires Valid() && ListedBelow(parent, current)
      ensures KeyTree() == GraphOf(Keys, Indexes, Allocated) && Mending() == Mendable(Keys, Allocated)
      ensures Found(strict).settled == Settled(strict) == SettledOf(strict, Keys, SoundKeys(), KeyTree())
      ensures Awaited(strict) == AwaitedOf(strict, Keys, SoundKeys()) && Awaited(true) == AwaitedOf(true, Keys, SoundKeys())
      ensures current in Keys ==> healed == Healed(Keys[current], parent, current) && Purged(healed)
      ensures current in SoundKeys() ==> current in Keys && current in Mending() && healed.subKeyCount == Keys[current].subKeyCount
      ensures Expected(strict, parent, current) ==>
        if strict then current in SoundKeys() && (parent != Nil ==> Keys[current].parent == parent) else current in Mending()
      ensures Expected(true, parent, current) ==> current in SoundKeys() && (parent != Nil ==> Keys[current].parent == parent)
      ensures if parent == Nil then current == RootCell else Adopted(KeyTree(), RootCell, parent, current)
      ensures CountsKept(SoundKeys(), Keys, Keys) && VolatilesKept(Keys, Keys) && LinksKept(Keys, Keys)
    {
      hide *;
      healed := if current in Keys then Healed(Keys[current], parent, current) else NodeAt(Nil, 0, Nil);
      if current in Keys { HealedIs(parent, current); }
      if current in SoundKeys() {
        SoundInKeys(current);
        SoundCount(parent, current);
      }
      TreeIs(strict, parent, current);
      TreeIs(true, parent, current);
      ListedIs(KeyTree(), parent, current);
      SameCounts(SoundKeys(), Keys);
      SameKeys(Keys);
      KeysKept(Keys, Indexes, Allocated);
    }

    lemma SoundInKeys(k: HCell)
      requires k in SoundKeys()
      ensures k in Keys
    {
    }

    lemma ListedIs(graph: Graph, parent: HCell, current: HCell)
      requires KeyTree() == graph
      ensures ListedBelow(parent, current) <==> if parent == Nil then current == RootCell else Adopted(graph, RootCell, parent, current)
    {
    }

    /** What has become of the tree, and of what was found in it, once a key has been validated. */
    lemma TopDone(keys: map<HCell, KeyNode>, before: map<HCell, KeyNode>, sound: set<HCell>, settled: set<HCell>, mending: set<HCell>,
                  graph: Graph, healed: KeyNode, parent: HCell, current: HCell, fixHive: bool, good: bool)
      requires Valid() && graph == GraphOf(before, Indexes, Allocated) && mending == Mendable(before, Allocated)
      requires settled == SettledOf(!fixHive, before, sound, graph)
      requires if parent == Nil then current == RootCell else Adopted(graph, RootCell, parent, current)
      requires current in Keys ==> KeyMended(before, Keys, Indexes, Allocated, current) && current in before && VolatileKept(before[current], Keys[current])
      requires current !in Keys ==> Keys == before
      requires CountsKept(sound, before, before) && VolatilesKept(before, before) && LinksKept(before, before)
      requires good ==> Passed(parent, current) && sound + {current} <= SoundKeys() && current in before && Keys[current] == healed && Purged(healed)
      requires !good ==> if fixHive then current !in mending else LinksKept(before, Keys)
      requires !fixHive ==> LinksKept(before, Keys) && SoundKeys() == sound && LinksKept(keys, before)
      requires current in sound ==> current in mending && current in before && healed.subKeyCount == before[current].subKeyCount
      ensures KeyTree() == graph && VolatilesKept(before, Keys) && Mending() == mending && CountsKept(sound, before, Keys)
      ensures !fixHive ==> LinksKept(keys, Keys)
      ensures Awaited(!fixHive) == AwaitedOf(!fixHive, before, sound)
      ensures good ==> settled + {current} <= Found(!fixHive).settled
      ensures good && parent != Nil ==> current in Found(!fixHive).parents && Found(!fixHive).parents[current] == parent
      ensures LinksKept(before, Keys) <==> (current in Keys && current in before ==> LinkKept(before[current], Keys[current]))
      ensures LinksKept(before, Keys) && SoundKeys() == sound ==> Awaited(true) == AwaitedOf(true, before, sound)
    {
      hide *;
      TreeKept(!fixHive, before, sound, current);
      TreeKept(true, before, sound, current);
      if current in Keys {
        MendedKey(before, current);
        OneVolatileKept(before, current);
        CountKept(sound, mending, before, healed, current, fixHive, good);
        OneLinkKept(before, current);
      }
      if !fixHive { LinksKeptTwice(keys, before, Keys); }
      ListedIs(graph, parent, current);
      if good { TopGood(!fixHive, before, sound, settled, parent, current); }
    }

    lemma OneLinkKept(keys: map<HCell, KeyNode>, current: HCell)
      requires current in keys && current in Keys && KeyMended(keys, Keys, Indexes, Allocated, current)
      ensures LinksKept(keys, Keys) <==> LinkKept(keys[current], Keys[current])
    {
      hide KidsOf;
    }

    lemma TopGood(strict: bool, before: map<HCell, KeyNode>, sound: set<HCell>, settled: set<HCell>, parent: HCell, current: HCell)
      requires Valid() && Passed(parent, current) && sound + {current} <= SoundKeys() && Purged(Keys[current])
      requires current in before && Keys == before[current := Keys[current]] && settled == SettledOf(strict, before, sound, KeyTree())
      requires ListedBelow(parent, current)
      ensures settled + {current} <= Found(strict).settled
      ensures parent != Nil ==> current in Found(strict).parents && Found(strict).parents[current] == parent
    {
      hide *;
      GoodIsSound(parent, current);
      StillSettled(before, sound, settled, parent, current, strict);
      TreeIs(strict, parent, current);
    }

    /** What the tree, the findings and what is awaited are made of. */
    lemma TreeIs(strict: bool, parent: HCell, current: HCell)
      requires Valid()
      ensures KeyTree() == GraphOf(Keys, Indexes, Allocated) && Mending() == Mendable(Keys, Allocated) && Awaited(strict) == AwaitedOf(strict, Keys, SoundKeys())
      ensures Found(strict).settled == Settled(strict) && Found(strict).parents == ParentsOf(Keys)
      ensures current in Keys ==> current in Found(strict).parents && Found(strict).parents[current] == Keys[current].parent
      ensures Settled(strict) == SettledOf(strict, Keys, SoundKeys(), KeyTree())
      ensures Expected(strict, parent, current) ==> if strict then current in SoundKeys() && (parent != Nil ==> Keys[current].parent == parent) else current in Mending()
    {
      hide SoundKeys, Mendable, Adopted, GraphOf;
    }

    lemma GoodIsSound(parent: HCell, current: HCell)
      requires Passed(parent, current)
      ensures current in Keys && (parent != Nil ==> Keys[current].parent == parent)
    {
    }

    ghost function AwaitedOf(strict: bool, keys: map<HCell, KeyNode>, sound: set<HCell>): Findings
      reads this`Indexes
    {
      if strict then Findings(GraphOf(keys, Indexes, Allocated), sound, ParentsOf(keys), true, LexicalOrder, RootCell)
      else Findings(GraphOf(keys, Indexes, Allocated), Mendable(keys, Allocated), map[], false, LexicalOrder, RootCell)
    }

    /** Mending a key leaves the tree and what is awaited of it alone. */
    lemma TreeKept(strict: bool, before: map<HCell, KeyNode>, sound: set<HCell>, current: HCell)
      requires current in Keys ==> KeyMended(before, Keys, Indexes, Allocated, current)
      requires current !in Keys ==> Keys == before
      ensures KeyTree() == GraphOf(before, Indexes, Allocated)
      ensures (strict ==> LinksKept(before, Keys) && SoundKeys() == sound) ==> Awaited(strict) == AwaitedOf(strict, before, sound)
      ensures Mending() == Mendable(before, Allocated)
    {
      hide GraphOf, Mendable, SoundKeys;
      if current in Keys { GraphMended(before, Keys, Indexes, Allocated, current); }
      if strict && LinksKept(before, Keys) { LinksKeptGraph(before, Keys, Indexes, Allocated); }
    }

    /** A key has passed: it is settled, and so are those that were. */
    lemma StillSettled(keys: map<HCell, KeyNode>, sound: set<HCell>, settled: set<HCell>, parent: HCell, current: HCell, strict: bool)
      requires current in keys && current in Keys && Keys == keys[current := Keys[current]]
      requires settled == SettledOf(strict, keys, sound, KeyTree())
      requires Purged(Keys[current]) && sound + {current} <= SoundKeys() && ListedBelow(parent, current) && (parent != Nil ==> Keys[current].parent == parent)
      ensures settled + {current} <= Settled(strict)
    {
      hide SoundKeys, KeyTree, Adopted;
    }

    /** A key that will pass where it is listed. */
    ghost predicate Expected(strict: bool, parent: HCell, current: HCell)
      reads this`Keys, this`Indexes, this`ValueLists
    {
      var f := Awaited(strict);
      current in f.settled && (strict && parent != Nil ==> current in f.parents && f.parents[current] == parent)
    }

    /** A settled key's children are those its count says, in the order of its list. */
    lemma SettledKey(strict: bool, k: HCell)
      requires Valid() && k in Found(strict).settled
      ensures k in Keys && k in SoundKeys() && Purged(Keys[k]) && |Kids(KeyTree(), k)| == Keys[k].subKeyCount
      ensures Keys[k].subKeyCount > 0 ==> Keys[k].subKeyList in Indexes && Kids(KeyTree(), k) == Flat(Indexes, Keys[k].subKeyList)
    {
      hide Sound, Flat, LeafAt, Adopted;
    }

    // ----- the whole check

    /** CmpValidateRegistryInternal: it ends, for every registry, also for one whose keys list each other in a
        circle; each new start has taken an entry out of an index.  When it ends well without having taken an
        entry out, which can be told before, the Parent of every key is the one key that lists it exactly if
        there was just one. */
    method ValidateRegistryInternal(fixHive: bool) returns (status: Status)
      requires Valid()
      modifies this`Keys, this`Indexes, this`ValueLists, this`SelfHeal
      ensures Valid()
      ensures status == Good ==> RootCell != Nil && Accepted(!fixHive)
      ensures !fixHive ==> Indexes == old(Indexes) && LinksKept(old(Keys), Keys)
      ensures VolatilesKept(old(Keys), Keys)
      ensures RootCell != Nil ==> (status == Good <==> Acceptable(!fixHive))
      ensures status == Good && Indexes == old(Indexes) <==> RootCell != Nil && old(Acceptable(!fixHive))
      ensures status == Good && Indexes == old(Indexes) ==>
        KeyTree() == old(KeyTree()) && (ParentsRecorded() <==> old(NoneShared(KeyTree(), RootCell)))
      ensures old(InOrderNow()) ==> Mending() == old(Mending()) && Thinned(old(KeyTree()), KeyTree(), Mending())
      ensures RootCell != Nil && fixHive && old(InOrderNow() && Bears(KeyTree(), Mending(), RootCell, 511, true)) ==> status == Good
      ensures status == Good && fixHive && old(InOrderNow()) ==> old(Bears(KeyTree(), Mending(), RootCell, 511, false))
      ensures old(SelfHeal) || Indexes != old(Indexes) || !LinksKept(old(Keys), Keys) ==> SelfHeal
      ensures !fixHive ==> SelfHeal == old(SelfHeal)
      ensures RootCell != Nil && old(Acceptable(true)) ==> (status == Good && LinksKept(old(Keys), Keys)
                && Indexes == old(Indexes) && ValueLists == old(ValueLists) && SelfHeal == old(SelfHeal))
    {
      ghost var graph, mending, ordered := KeyTree(), Mending(), InOrderNow();
      NotThinned(graph, mending);
      KeysKept(Keys, Indexes, Allocated);
      SameKeys(Keys);
      hide *;
      if RootCell == Nil {
        return RootCellNotFound;
      }
      ghost var cells := Enumerated(Indexes.Keys);
      ghost var first := true;
      while true
        invariant Valid() && Distinct(cells) && (forall c {:trigger c in Indexes} :: c in Indexes <==> c in cells)
        invariant (!fixHive ==> Indexes == old(Indexes) && LinksKept(old(Keys), Keys) && first) && VolatilesKept(old(Keys), Keys)
        invariant if first then Indexes == old(Indexes) && KeyTree() == old(KeyTree()) && Acceptable(!fixHive) == old(Acceptable(!fixHive))
                  else !old(Acceptable(!fixHive)) && Entries(Indexes, cells) < Entries(old(Indexes), cells)
        invariant first ==> Keys == old(Keys) && ValueLists == old(ValueLists) && SelfHeal == old(SelfHeal) && Acceptable(true) == old(Acceptable(true))
        invariant !first ==> !old(Acceptable(true)) && SelfHeal
        invariant Mending() == mending && (ordered ==> InOrderNow() && Thinned(graph, KeyTree(), mending))
        decreases Entries(Indexes, cells)
      {
        ghost var indexes, keys, thinned := Indexes, Keys, KeyTree();
        if ordered { BearsThinned(graph, thinned, mending, RootCell, 511); }
        SameVerdict(!fixHive);
        var restart;
        status, restart := Walk(fixHive);
        VolatilesKeptTwice(old(Keys), keys, Keys);
        if !restart {
          SameVerdict(!fixHive);
          if !fixHive { LinksKeptTwice(old(Keys), keys, Keys); }
          if status == Good {
            OneParentEach(!fixHive);
            AcceptableBears(!fixHive);
          }
          return;
        }
        if ordered { ThinnedFurther(graph, thinned, mending); }
        SomeEntryLess(indexes, Indexes, cells);
        first := false;
      }
    }

    lemma ThinnedFurther(graph: Graph, thinned: Graph, mending: set<HCell>)
      requires Thinned(graph, thinned, mending) && Thinned(thinned, KeyTree(), mending) && Mending() == mending
      requires Orderly(thinned, mending, LexicalOrder)
      ensures Thinned(graph, KeyTree(), mending) && InOrderNow()
    {
      hide KeyTree, Mending;
      ThinnedTwice(graph, thinned, KeyTree(), mending);
      OrderlyThinned(thinned, KeyTree(), mending, LexicalOrder);
    }

    lemma AcceptableBears(strict: bool)
      requires Acceptable(strict)
      ensures !strict ==> Bears(KeyTree(), Mending(), RootCell, 511, false)
    {
      hide Walked;
      WalkedBears(Awaited(strict), Nil, RootCell, 511);
    }

    /** Healing takes out just the keys that cannot be mended: what is found good in the end lists the others, in order.
        was is the tree there was before. */
    lemma OnlyMendedLeft(was: Graph, p: seq<HCell>, i: nat)
      requires Valid() && Accepted(false) && Thinned(was, KeyTree(), Mending()) && Path(KeyTree(), p) && p[0] == RootCell && i < |p|
      ensures Kids(KeyTree(), p[i]) == Among(Kids(was, p[i]), Mending())
    {
      hide KeyTree, SoundKeys, Mendable, Walked, Adopted;
      var kids := Kids(KeyTree(), p[i]);
      forall x | x in kids ensures x in Mending() {
        var q := p[..i + 1] + [x];
        forall j | 0 <= j < |q| - 1 ensures Step(KeyTree(), q, j) { if j < i { assert Step(KeyTree(), p, j); } }
        SettledCells(false);
        PathIsWalked(Found(false), Nil, q, 511);
        SettledMend(false);
        assert q[i + 1] == x;
      }
      AmongAll(kids, Mending());
      assert Shrunk(Kids(was, p[i]), kids, Mending());
    }

    // ----- what an accepted registry looks like

    /** What the verdict depends on: that no way down from the root is too long, or comes to a key that is not sound or not
        listed by its Parent (without healing) or cannot be mended (with it), or to a list out of order or with a nil entry. */
    lemma VerdictByPaths(strict: bool)
      requires RootCell != Nil
      ensures Acceptable(strict) <==> PathsFine(Awaited(strict), RootCell, 511)
    {
      var f := Awaited(strict);
      if Acceptable(strict) { WalkedThen(f, Nil, RootCell, 511); }
      if PathsFine(f, RootCell, 511) { WalkedWhen(f, Nil, RootCell, 511); }
    }

    /** On any way down from the root: at most 511 keys, none twice; every key is sound, and its count is that of
        the subkeys listed; and, without healing, every Parent is the key before. */
    lemma AcceptedPath(strict: bool, p: seq<HCell>)
      requires Valid() && Accepted(strict) && Path(KeyTree(), p) && p[0] == RootCell
      ensures |p| <= 511 && forall i {:trigger p[i]} :: 0 <= i < |p| ==>
        p[i] in Keys && p[i] in SoundKeys() && Purged(Keys[p[i]]) && Keys[p[i]].subKeyCount == |Kids(KeyTree(), p[i])|
      ensures forall i, j :: 0 <= i < j < |p| ==> p[i] != p[j]
      ensures strict ==> forall i :: 0 < i < |p| ==> Keys[p[i]].parent == p[i - 1]
    {
      hide *;
      var f := Found(strict);
      FoundTree(strict);
      AcceptedIs(strict);
      SettledCells(strict);
      PathIsWalked(f, Nil, p, 511);
      forall i | 0 <= i < |p| ensures p[i] in Keys && p[i] in SoundKeys() && Purged(Keys[p[i]]) && Keys[p[i]].subKeyCount == |Kids(KeyTree(), p[i])| {
        SettledKey(strict, p[i]);
      }
      forall i, j | 0 <= i < j < |p| ensures p[i] != p[j] { NoneTwice(f, RootCell, 511, p, i, j); }
      if strict {
        forall i | 0 < i < |p| ensures Keys[p[i]].parent == p[i - 1] { RecordedParent(p, i - 1); }
      }
    }

    lemma RecordedParent(p: seq<HCell>, i: nat)
      requires i + 1 < |p| && Recorded(Found(true).parents, p, i)
      ensures p[i + 1] in Keys && Keys[p[i + 1]].parent == p[i]
    {
    }

    lemma SettledCells(strict: bool)
      requires Valid()
      ensures Nil !in Found(strict).settled
    {
    }

    /** Without healing: a key that is listed is listed by one key only, the one its Parent names, and the root
        by none. */
    lemma AcceptedParent(a: HCell, b: HCell, k: HCell)
      requires Valid() && Accepted(true)
      requires Adopted(KeyTree(), RootCell, a, k) && Adopted(KeyTree(), RootCell, b, k)
      ensures a == b && k in Keys && Keys[k].parent == a && k != RootCell
    {
      var f := Found(true);
      SettledCells(true);
      OneParent(f, RootCell, 511, a, b, k);
      RootIsNotListed(f, RootCell, 511, a);
    }

    /** The Parent of every key of the tree is the key that lists it, which is then the only one. */
    ghost predicate ParentsRecorded()
      reads this`Keys, this`Indexes
    {
      forall a, k {:trigger Adopted(KeyTree(), RootCell, a, k)} :: Adopted(KeyTree(), RootCell, a, k) ==> k in Keys && Keys[k].parent == a
    }

    /** With healing, too, in a registry found good the Parent of each key is a key that lists it, so that it is
        right everywhere exactly if no key is listed by two. */
    lemma OneParentEach(strict: bool)
      requires Valid() && Accepted(strict)
      ensures ParentsRecorded() <==> NoneShared(KeyTree(), RootCell)
    {
      var f, graph := Found(strict), KeyTree();
      SettledCells(strict);
      hide Sound, Flat, ListOk, KidsOf, KeyTree, Adopted, Walked, SoundKeys;
      if NoneShared(graph, RootCell) {
        forall a, k | Adopted(graph, RootCell, a, k) ensures k in Keys && Keys[k].parent == a {
          ParentAdopts(strict, a, k);
          assert Adopted(graph, RootCell, Keys[k].parent, k);
        }
      }
    }

    lemma ParentAdopts(strict: bool, a: HCell, k: HCell)
      requires Valid() && Accepted(strict) && Adopted(KeyTree(), RootCell, a, k)
      ensures k in Keys && Adopted(KeyTree(), RootCell, Keys[k].parent, k)
    {
      var f := Found(strict);
      SettledCells(strict);
      ReachesNext(f.graph, RootCell, a, k);
      ReachedIsSettled(f, RootCell, 511, k);
      RootIsNotListed(f, RootCell, 511, a);
      if strict { EdgeToParent(f, RootCell, 511, a, k); }
    }
  }

  // ----- entries

  ghost predicate RemovedAt(indexes: map<HCell, Index>, indexes': map<HCell, Index>, target: HCell, c: HCell, i: nat)
  {
    && c in indexes && indexes[c].signature != IndexRoot && i < |indexes[c].list| && indexes[c].list[i].cell == target
    && indexes' == indexes[c := indexes[c].(list := indexes[c].list[..i] + indexes[c].list[i + 1..])]
  }

  /** One entry that names the target is gone. */
  ghost predicate EntryRemoved(indexes: map<HCell, Index>, indexes': map<HCell, Index>, target: HCell)
  {
    exists c, i :: RemovedAt(indexes, indexes', target, c, i)
  }

  /** Taking an entry out of a leaf shortens every list with that leaf. */
  lemma FlatTaken(indexes: map<HCell, Index>, indexes': map<HCell, Index>, cells: set<HCell>, list: HCell, target: HCell, good: set<HCell>)
    requires EntryRemoved(indexes, indexes', target) && target !in good && target != Nil
    ensures ListOk(indexes', cells, list) <==> ListOk(indexes, cells, list)
    ensures ListOk(indexes, cells, list) ==> Shrunk(Flat(indexes, list), Flat(indexes', list), good)
  {
    var c, i :| RemovedAt(indexes, indexes', target, c, i);
    assert forall d {:trigger LeafAt(indexes', cells, d)} :: LeafAt(indexes', cells, d) <==> LeafAt(indexes, cells, d);
    if list in indexes && indexes[list].signature == IndexRoot { assert indexes'[list] == indexes[list]; }
    if ListOk(indexes, cells, list) {
      var t, t' := Tree(indexes, list), Tree(indexes', list);
      forall j | 0 <= j < |t| ensures Shrunk(t[j], t'[j], good) {
        var leaf := if indexes[list].signature == IndexRoot then indexes[list].list[j].cell else list;
        LeafTaken(indexes, indexes', target, c, i, leaf, good);
      }
      ShrunkAll(t, t', good);
    }
  }

  lemma LeafTaken(indexes: map<HCell, Index>, indexes': map<HCell, Index>, target: HCell, c: HCell, i: nat, leaf: HCell, good: set<HCell>)
    requires RemovedAt(indexes, indexes', target, c, i) && target !in good && target != Nil
    ensures Shrunk(LeafCells(indexes, leaf), LeafCells(indexes', leaf), good)
  {
    if leaf == c {
      var cells := Cells(indexes[c].list);
      EntryGone(cells, i, good);
      assert Cells(indexes'[c].list) == cells[..i] + cells[i + 1..];
    }
  }

  /** Taking a key out of the list that names it, and lowering its parent's count, takes nothing else out of the tree. */
  lemma GraphTaken(keys: map<HCell, KeyNode>, indexes: map<HCell, Index>, keys': map<HCell, KeyNode>, indexes': map<HCell, Index>,
                   cells: set<HCell>, parent: HCell, target: HCell, good: set<HCell>)
    requires EntryRemoved(indexes, indexes', target) && target !in good && target != Nil
    requires parent in keys && keys[parent].subKeyCount == |KidsOf(keys[parent], parent, indexes, cells)| > 0
    requires target in KidsOf(keys[parent], parent, indexes, cells)
    requires keys' == keys[parent := keys[parent].(subKeyCount := keys[parent].subKeyCount - 1)]
    ensures Thinned(GraphOf(keys, indexes, cells), GraphOf(keys', indexes', cells), good)
  {
    hide ListOk, Flat, Shrunk;
    forall k | k in keys ensures Shrunk(KidsOf(keys[k], k, indexes, cells), KidsOf(keys'[k], k, indexes', cells), good) {
      var kids := KidsOf(keys[k], k, indexes, cells);
      FlatTaken(indexes, indexes', cells, keys[k].subKeyList, target, good);
      NothingGone(kids, good);
      if k == parent && keys[k].subKeyCount == 1 { OnlyOneGone(kids, target, good); }
    }
  }

  lemma NothingGone(kids: seq<HCell>, good: set<HCell>)
    ensures Shrunk(kids, kids, good)
  {
  }

  lemma OnlyOneGone(kids: seq<HCell>, target: HCell, good: set<HCell>)
    requires |kids| == 1 && target in kids && target !in good && target != Nil
    ensures Shrunk(kids, [], good)
  {
    EntryGone(kids, 0, good);
    assert kids[..0] + kids[1..] == [];
  }

  /** A key that lists fewer subkeys can be mended still: one that has any is not volatile. */
  lemma SameMending(keys: map<HCell, KeyNode>, keys': map<HCell, KeyNode>, cells: set<HCell>, parent: HCell, indexes: map<HCell, Index>)
    requires parent in keys && KidsOf(keys[parent], parent, indexes, cells) != []
    requires keys[parent].subKeyCount > 0 && keys' == keys[parent := keys[parent].(subKeyCount := keys[parent].subKeyCount - 1)]
    ensures Mendable(keys', cells) == Mendable(keys, cells)
  {
  }

  ghost predicate SomeEntryRemoved(indexes: map<HCell, Index>, indexes': map<HCell, Index>)
  {
    exists target :: EntryRemoved(indexes, indexes', target)
  }

  ghost predicate Distinct(cells: seq<HCell>)
  {
    forall i, j :: 0 <= i < j < |cells| ==> cells[i] != cells[j]
  }

  /** The entries of all index cells together. */
  ghost function Entries(indexes: map<HCell, Index>, cells: seq<HCell>): nat
  {
    if cells == [] then 0
    else Entries(indexes, cells[1..]) + if cells[0] in indexes then |indexes[cells[0]].list| else 0
  }

  lemma {:induction false} Enumerated(s: set<HCell>) returns (cells: seq<HCell>)
    ensures Distinct(cells) && forall c {:trigger c in s} :: c in s <==> c in cells
  {
    if s == {} {
      cells := [];
    } else {
      var c :| c in s;
      var rest := Enumerated(s - {c});
      cells := [c] + rest;
      forall d ensures d in s <==> d in cells {
        assert d in s - {c} <==> d in rest;
      }
      forall i, j | 0 <= i < j < |cells| ensures cells[i] != cells[j] {
        assert cells[j] == rest[j - 1] && rest[j - 1] in rest;
        assert rest[j - 1] in s - {c};
      }
    }
  }

  lemma {:induction false} SameEntries(indexes: map<HCell, Index>, indexes': map<HCell, Index>, cells: seq<HCell>, c: HCell)
    requires c !in cells && c in indexes && c in indexes' && indexes' == indexes[c := indexes'[c]]
    ensures Entries(indexes', cells) == Entries(indexes, cells)
  {
    if cells != [] { SameEntries(indexes, indexes', cells[1..], c); }
  }

  lemma {:induction false} OneEntryLess(indexes: map<HCell, Index>, indexes': map<HCell, Index>, cells: seq<HCell>, c: HCell)
    requires Distinct(cells) && c in cells && c in indexes && c in indexes' && indexes' == indexes[c := indexes'[c]]
    requires |indexes'[c].list| == |indexes[c].list| - 1
    ensures Entries(indexes', cells) == Entries(indexes, cells) - 1
  {
    if cells[0] == c {
      SameEntries(indexes, indexes', cells[1..], c);
    } else {
      OneEntryLess(indexes, indexes', cells[1..], c);
    }
  }

  lemma FewerEntries(indexes: map<HCell, Index>, indexes': map<HCell, Index>, cells: seq<HCell>, target: HCell)
    requires EntryRemoved(indexes, indexes', target) && Distinct(cells) && forall c {:trigger c in indexes} :: c in indexes ==> c in cells
    ensures Entries(indexes', cells) == Entries(indexes, cells) - 1 && indexes'.Keys == indexes.Keys
  {
    var c, i :| RemovedAt(indexes, indexes', target, c, i);
    OneEntryLess(indexes, indexes', cells, c);
  }

  lemma SomeEntryLess(indexes: map<HCell, Index>, indexes': map<HCell, Index>, cells: seq<HCell>)
    requires SomeEntryRemoved(indexes, indexes') && Distinct(cells) && forall c {:trigger c in indexes} :: c in indexes ==> c in cells
    ensures Entries(indexes', cells) < Entries(indexes, cells) && indexes'.Keys == indexes.Keys
  {
    var target :| EntryRemoved(indexes, indexes', target);
    FewerEntries(indexes, indexes', cells, target);
  }

  lemma KeysKept(keys: map<HCell, KeyNode>, indexes: map<HCell, Index>, cells: set<HCell>)
    ensures LinksKept(keys, keys)
  {
  }

  lemma TopIsSettled(f: Findings, stack: seq<Frame>)
    requires StackOk(f, stack, true)
    ensures 0 < |stack| <= 511 && stack[|stack| - 1].current in f.settled
    ensures stack[|stack| - 1].childCellIndex <= |Kids(f.graph, stack[|stack| - 1].current)|
  {
  }

  lemma PushedIs(stack: seq<Frame>, child: HCell)
    requires |stack| > 0
    ensures var n := |stack| - 1;
      Pushed(stack, child) == stack[n := stack[n].(childCellIndex := stack[n].childCellIndex + 1)] + [Frame(0, child, stack[n].current, Nil)]
  {
  }

  /** The frame below remembers the key on top, which was found good, for the next one to be compared with. */
  method Remember(ghost f: Findings, ghost f': Findings, ghost g: Findings, stack: seq<Frame>, ghost sibling: HCell) returns (stack': seq<Frame>)
    requires StackOk(f, stack, false) && f' == f.(settled := f'.settled, parents := f'.parents)
    requires f.settled + {stack[|stack| - 1].current} <= f'.settled && (f.strict ==> f' == f || f'.parents == f.parents)
    requires var top := stack[|stack| - 1]; top.parent != Nil ==> top.current in f'.parents && f'.parents[top.current] == top.parent
    requires sibling == if |stack| > 1 then stack[|stack| - 2].sibling else Nil
    requires sibling != Nil ==> f.order(stack[|stack| - 1].current, sibling)
    ensures stack' == Remembered(stack) && |stack'| == |stack|
    ensures StackOk(f', stack', true) && StackWork(f'.graph, stack') == StackWork(f.graph, stack)
    ensures g.graph == f.graph && g.order == f.order && Promised(g, stack) ==> Promised(g, stack')
  {
    var depth := |stack| - 1;
    TopRemembered(stack);
    stack' := if depth > 0 then stack[depth - 1 := stack[depth - 1].(sibling := stack[depth].current)] else stack;
    if Promised(g, stack) && g.graph == f.graph && g.order == f.order { TopPromised(f, g, stack); }
    hide StackOk, StackWork, Promised, Walked, Remembered;
    TopValidated(f, stack, f'.settled, f'.parents);
  }

  lemma TopRemembered(stack: seq<Frame>)
    requires |stack| > 0
    ensures var n := |stack| - 1;
      Remembered(stack) == if n > 0 then stack[n - 1 := stack[n - 1].(sibling := stack[n].current)] else stack
    ensures |Remembered(stack)| == |stack|
  {
  }

  lemma TopIsListed(f: Findings, stack: seq<Frame>)
    requires StackOk(f, stack, false) && f.root != Nil
    ensures |stack| > 0 && stack[|stack| - 1].current != Nil && (|stack| == 1 ==> stack[0].current == f.root)
    ensures var top := stack[|stack| - 1];
      if top.parent == Nil then top.current == f.root else Adopted(f.graph, f.root, top.parent, top.current)
  {
    StackReaches(f, stack);
    assert Linked(f, stack, |stack| - 1);
  }

  /** The key remembered below the one on top has been found good. */
  lemma SiblingSettled(f: Findings, stack: seq<Frame>)
    requires StackOk(f, stack, false) && |stack| > 1 && stack[|stack| - 2].sibling != Nil
    ensures stack[|stack| - 2].sibling in f.settled
  {
    assert Waiting(f, stack, |stack| - 2, false);
  }

  /** The key on top, unless it is the root's frame, is listed by its parent. */
  lemma TopIsSubkey(f: Findings, stack: seq<Frame>)
    requires StackOk(f, stack, false) && (|stack| > 1 || stack[|stack| - 1].current != f.root)
    ensures |stack| > 1 && stack[|stack| - 1].current in Kids(f.graph, stack[|stack| - 1].parent) && stack[|stack| - 1].current != Nil
  {
    assert Linked(f, stack, |stack| - 1);
  }

  lemma ListedBy(keys: map<HCell, KeyNode>, indexes: map<HCell, Index>, cells: set<HCell>, parent: HCell, k: HCell)
    requires k in Kids(GraphOf(keys, indexes, cells), parent)
    ensures parent in keys && keys[parent].subKeyCount > 0 && ListOk(indexes, cells, keys[parent].subKeyList)
    ensures k in Flat(indexes, keys[parent].subKeyList)
  {
  }

  lemma SameKids(keys: map<HCell, KeyNode>, keys': map<HCell, KeyNode>, indexes: map<HCell, Index>, cells: set<HCell>, k: HCell)
    requires k in keys && k in keys' && keys' == keys[k := keys'[k]]
    requires keys'[k].subKeyCount == keys[k].subKeyCount && keys'[k].subKeyList == keys[k].subKeyList
    requires keys'[k].cellSize == keys[k].cellSize && keys'[k].nameLength == keys[k].nameLength
    ensures KeyMended(keys, keys', indexes, cells, k)
  {
  }

  lemma NotMended(keys: map<HCell, KeyNode>, indexes: map<HCell, Index>, cells: set<HCell>, k: HCell)
    requires k in keys
    ensures KeyMended(keys, keys, indexes, cells, k) && LinksKept(keys, keys)
  {
    assert keys[k := keys[k]] == keys;
  }

  // ----- a key listed twice

  function At(n: nat): HCell { Cell(0, n) }

  function NodeAt(parent: HCell, subKeyCount: nat, subKeyList: HCell): KeyNode
  {
    KeyNode(80, 1, true, parent, Nil, 0, Nil, 0, subKeyCount, subKeyList, 0, Nil)
  }

  function LeafOf(cells: seq<HCell>): Index
  {
    Index(HashLeaf, 64, seq(|cells|, i requires 0 <= i < |cells| => Entry(cells[i], [], 0)))
  }

  lemma KidsAre(keys: map<HCell, KeyNode>, indexes: map<HCell, Index>, cells: set<HCell>, k: HCell, list: HCell, kids: seq<HCell>)
    requires k in keys && k.Cell? && k.kind == 0 && keys[k].subKeyCount > 0 && keys[k].subKeyList == list
    requires list in cells && list in indexes && indexes[list] == LeafOf(kids)
    ensures Kids(GraphOf(keys, indexes, cells), k) == kids
  {
    OneLeaf(indexes, list);
    assert Cells(LeafOf(kids).list) == kids;
  }

  /** Two keys below the root that both list a third, which names the first of them as its parent. */
  ghost predicate Diamond(graph: Graph, root: HCell, a: HCell, b: HCell, k: HCell)
  {
    Kids(graph, root) == [a, b] && Kids(graph, a) == [k] && Kids(graph, b) == [k] && Kids(graph, k) == []
  }

  lemma DiamondWalked(f: Findings, a: HCell, b: HCell, k: HCell)
    requires Diamond(f.graph, f.root, a, b, k) && {f.root, a, b, k} <= f.settled && !f.strict && f.order(b, a) && Nil !in {a, b, k}
    ensures Walked(f, Nil, f.root, 511)
  {
    assert Walked(f, a, k, 509) && Walked(f, b, k, 509);
    assert Walked(f, f.root, a, 510) && Walked(f, f.root, b, 510);
    forall j | 0 < j < 2 ensures Ordered(f, [a, b], j) {
    }
  }

  lemma DiamondShares(graph: Graph, root: HCell, a: HCell, b: HCell, k: HCell)
    requires Diamond(graph, root, a, b, k)
    ensures Adopted(graph, root, a, k) && Adopted(graph, root, b, k)
  {
    assert Step(graph, [root, a], 0) && Step(graph, [root, b], 0);
    assert Path(graph, [root, a]) && Path(graph, [root, b]);
    assert [root, a][1] == a && [root, b][1] == b;
  }

  function DiamondCells(): set<HCell> { {At(1), At(2), At(3), At(4), At(5), At(6), At(7)} }

  function DiamondKey(c: HCell): KeyNode
  {
    if c == At(1) then NodeAt(Nil, 2, At(5)) else if c == At(2) then NodeAt(At(1), 1, At(6))
    else if c == At(3) then NodeAt(At(1), 1, At(7)) else NodeAt(At(2), 0, Nil)
  }

  function DiamondIndexes(): map<HCell, Index>
  {
    map[At(5) := LeafOf([At(2), At(3)]), At(6) := LeafOf([At(4)]), At(7) := LeafOf([At(4)])]
  }

  function DiamondKeys(): map<HCell, KeyNode>
  {
    map c | c in DiamondCells() :: DiamondKey(c)
  }

  lemma DiamondIs()
    ensures Diamond(GraphOf(DiamondKeys(), DiamondIndexes(), DiamondCells()), At(1), At(2), At(3), At(4))
  {
    var keys, indexes, cells := DiamondKeys(), DiamondIndexes(), DiamondCells();
    hide KidsOf, GraphOf;
    KidsAre(keys, indexes, cells, At(1), At(5), [At(2), At(3)]);
    KidsAre(keys, indexes, cells, At(2), At(6), [At(4)]);
    KidsAre(keys, indexes, cells, At(3), At(7), [At(4)]);
    NoKids(keys, indexes, cells, At(4));
  }

  lemma DiamondMends()
    ensures {At(1), At(2), At(3), At(4)} <= Mendable(DiamondKeys(), DiamondCells())
  {
    forall c | c in {At(1), At(2), At(3), At(4)} ensures c in Mendable(DiamondKeys(), DiamondCells()) {
      assert c in DiamondCells() && DiamondKeys()[c] == DiamondKey(c);
    }
  }

  lemma DiamondValid(r: Registry)
    requires r.Allocated == r.ValueLists.Keys == r.Values.Keys == DiamondCells()
    requires r.Keys == DiamondKeys() && r.Indexes == DiamondIndexes()
    ensures r.Valid()
  {
    hide DiamondKey, LeafOf;
    assert r.Keys.Keys == DiamondCells();
  }

  lemma DiamondAcceptable(r: Registry)
    requires r.RootCell == At(1) && r.Allocated == DiamondCells() && r.Keys == DiamondKeys() && r.Indexes == DiamondIndexes()
    requires forall x, y :: r.LexicalOrder(x, y)
    ensures r.Acceptable(false) && Adopted(r.KeyTree(), r.RootCell, At(2), At(4)) && Adopted(r.KeyTree(), r.RootCell, At(3), At(4))
  {
    DiamondIs();
    DiamondMends();
    hide GraphOf, Walked, Diamond, Mendable, Adopted, DiamondKeys, DiamondIndexes, DiamondCells;
    DiamondWalked(r.Awaited(false), At(2), At(3), At(4));
    DiamondShares(r.KeyTree(), At(1), At(2), At(3), At(4));
  }

  /** A registry like that. */
  method DiamondRegistry() returns (r: Registry)
    ensures fresh(r) && r.Valid() && r.RootCell == At(1) && r.Acceptable(false)
    ensures Adopted(r.KeyTree(), r.RootCell, At(2), At(4)) && Adopted(r.KeyTree(), r.RootCell, At(3), At(4))
  {
    hide *;
    var cells := DiamondCells();
    var lists: map<HCell, seq<HCell>> := map c | c in cells :: [];
    var values := map c | c in cells :: KeyValue(32, 0, true, 0, Nil);
    assert lists.Keys == values.Keys == cells;
    r := new Registry(At(1), cells, (x, y) => true, 5, false, false, values, DiamondKeys(), DiamondIndexes(), lists);
    DiamondValid(r);
    DiamondAcceptable(r);
  }

  /** With healing it is not so that in a registry found good each key has one parent: here is one that the check,
      healing, finds good, and in which two keys list the same key before and after. */
  method SharedKeyStays() returns (r: Registry, status: Status)
    ensures fresh(r) && r.Valid() && status == Good
    ensures Adopted(r.KeyTree(), r.RootCell, At(2), At(4)) && Adopted(r.KeyTree(), r.RootCell, At(3), At(4)) && !r.ParentsRecorded()
  {
    r := DiamondRegistry();
    ghost var tree := r.KeyTree();
    NotRecorded(tree, r.RootCell, At(2), At(3), At(4));
    hide *;
    status := r.ValidateRegistryInternal(true);
  }

  lemma NotRecorded(graph: Graph, root: HCell, a: HCell, b: HCell, k: HCell)
    requires Adopted(graph, root, a, k) && Adopted(graph, root, b, k) && a != b
    ensures !NoneShared(graph, root)
  {
  }

  lemma NoKids(keys: map<HCell, KeyNode>, indexes: map<HCell, Index>, cells: set<HCell>, k: HCell)
    requires k in keys && keys[k].subKeyCount == 0
    ensures Kids(GraphOf(keys, indexes, cells), k) == []
  {
  }
}
