/** The 24 free lists of a storage, threaded through the free cells: the first word behind a free cell's
    header names the next free cell of its size class. */
module FreeLists {
  import opened Cells

  // ----- size classes

  /** The position of the highest set bit: the source's table, by ranges. */
  function FindFirstSet(i: nat): (r: nat)
    requires i < 128
  {
    if i < 2 then 0 else if i < 4 then 1 else if i < 8 then 2 else if i < 16 then 3 else if i < 32 then 4
    else if i < 64 then 5 else 6
  }

  /** HvpComputeFreeListIndex: 16 classes of eight bytes each, then one for each power of two, then one
      for all the rest. */
  function FreeListIndex(size: nat): (k: nat)
    requires size >= 8
    ensures k < 24
  {
    var index := size / 8 - 1;
    if index >= 16 then
      if index > 127 then 23 else FindFirstSet(index) + 16
    else index
  }

  lemma ClassesAreOrdered(small: nat, large: nat)
    requires 8 <= small <= large
    ensures FreeListIndex(small) <= FreeListIndex(large)
  {
  }

  /** The sizes of each class.  Four classes stay empty: the one for the next power of two is the fifth. */
  lemma SizesOfClasses(size: nat)
    requires size >= 8
    ensures FreeListIndex(size) < 16 <==> size < 136
    ensures size < 136 ==> 8 * (FreeListIndex(size) + 1) <= size < 8 * (FreeListIndex(size) + 2)
    ensures FreeListIndex(size) == 20 <==> 136 <= size < 264
    ensures FreeListIndex(size) == 21 <==> 264 <= size < 520
    ensures FreeListIndex(size) == 22 <==> 520 <= size < 1032
    ensures FreeListIndex(size) == 23 <==> 1032 <= size
  {
  }

  // ----- cell indices

  /** HCELL_INDEX: the storage type in the top bit, the offset below. */
  function Index(kind: nat, c: nat): nat { kind * 0x8000_0000 + c }

  /** The offset of an index, without its type bit: HvGetCellBlock and HCELL_OFFSET_MASK together. */
  function OffsetOf(index: int): nat { index % 0x8000_0000 }

  // ----- lists in memory

  /** What names entry i of a list: its index, or nil past the end. */
  function Link(kind: nat, list: seq<nat>, i: nat): nat
    requires i <= |list|
  {
    if i < |list| then Index(kind, list[i]) else HCELL_NIL
  }

  /** A free cell in memory, of a size class. */
  ghost predicate FreeIn(mem: Mem, c: nat, k: nat)
  {
    c in mem && c + 4 in mem && mem[c] >= 8 && FreeListIndex(mem[c]) == k
  }

  ghost predicate EntryOk(kind: nat, mem: Mem, frees: set<nat>, k: nat, list: seq<nat>, i: nat)
    requires i < |list|
  {
    list[i] in frees && FreeIn(mem, list[i], k) && mem[list[i] + 4] == Link(kind, list, i + 1)
  }

  ghost predicate Distinct(list: seq<nat>)
  {
    forall i, j :: 0 <= i < j < |list| ==> list[i] != list[j]
  }

  /** The list of class k: reached from its head, and holding each free cell of the class once. */
  ghost predicate ListOk(kind: nat, head: int, mem: Mem, frees: set<nat>, k: nat, list: seq<nat>)
  {
    && head == Link(kind, list, 0)
    && (forall i {:trigger EntryOk(kind, mem, frees, k, list, i)} :: 0 <= i < |list| ==> EntryOk(kind, mem, frees, k, list, i))
    && Distinct(list)
    && (forall c {:trigger FreeIn(mem, c, k)} :: c in frees && FreeIn(mem, c, k) ==> c in list)
  }

  ghost predicate Listed(kind: nat, display: seq<int>, mem: Mem, frees: set<nat>, lists: seq<seq<nat>>)
  {
    && |display| == |lists| == 24
    && (forall k {:trigger lists[k]} :: 0 <= k < 24 ==> ListOk(kind, display[k], mem, frees, k, lists[k]))
    && (forall c {:trigger c in frees} :: c in frees ==> Sized(mem, c))
  }

  /** Room for a header and a link, on a 16-byte boundary. */
  ghost predicate Sized(mem: Mem, c: nat)
  {
    Aligned16(c) && c in mem && c + 4 in mem && mem[c] >= 16
  }

  predicate Aligned16(c: nat) { c % 16 == 0 }

  /** The link of one cell is not the header of another. */
  lemma SizedApart(d: nat, c: nat)
    requires Aligned16(d) && Aligned16(c)
    ensures d + 4 != c
  {
  }

  /** The header and the link of a cell are the same in both memories. */
  ghost predicate Same(mem: Mem, mem': Mem, c: nat)
  {
    c in mem && c + 4 in mem && c in mem' && c + 4 in mem' && mem'[c] == mem[c] && mem'[c + 4] == mem[c + 4]
  }

  /** Memory may change anywhere but in the headers and links of the listed cells. */
  lemma ListsKept(kind: nat, display: seq<int>, mem: Mem, mem': Mem, frees: set<nat>, lists: seq<seq<nat>>)
    requires Listed(kind, display, mem, frees, lists)
    requires forall c {:trigger c in frees} :: c in frees ==> Same(mem, mem', c)
    ensures Listed(kind, display, mem', frees, lists)
  {
    hide FreeListIndex, Aligned16;
    forall k | 0 <= k < 24 ensures ListOk(kind, display[k], mem', frees, k, lists[k]) {
      assert ListOk(kind, display[k], mem, frees, k, lists[k]);
      ListKept(kind, display[k], mem, mem', frees, k, lists[k]);
    }
  }

  lemma ListKept(kind: nat, head: int, mem: Mem, mem': Mem, frees: set<nat>, k: nat, list: seq<nat>)
    requires ListOk(kind, head, mem, frees, k, list)
    requires forall c {:trigger c in frees} :: c in frees ==> Same(mem, mem', c)
    ensures ListOk(kind, head, mem', frees, k, list)
  {
    hide FreeListIndex, Aligned16;
    forall i | 0 <= i < |list| ensures EntryOk(kind, mem', frees, k, list, i) {
      assert EntryOk(kind, mem, frees, k, list, i);
    }
    forall c | c in frees && FreeIn(mem', c, k) ensures c in list {
      assert FreeIn(mem, c, k);
    }
  }

  /** HvpAddFree: the cell in front of the list of its class. */
  lemma Pushed(kind: nat, display: seq<int>, mem: Mem, frees: set<nat>, lists: seq<seq<nat>>, c: nat)
    requires Listed(kind, display, mem, frees, lists) && c !in frees && Sized(mem, c)
    ensures var k := FreeListIndex(mem[c]);
      Listed(kind, display[k := Index(kind, c)], mem[c + 4 := display[k]], frees + {c}, lists[k := [c] + lists[k]])
  {
    var k := FreeListIndex(mem[c]);
    var mem', frees', lists' := mem[c + 4 := display[k]], frees + {c}, lists[k := [c] + lists[k]];
    var display' := display[k := Index(kind, c)];
    forall d | d in frees ensures Same(mem, mem', d) {
      assert Sized(mem, d);
      SizedApart(c, d);
    }
    forall d | d in frees' ensures Sized(mem', d) {
      if d in frees { assert Same(mem, mem', d); }
    }
    hide FreeListIndex, Aligned16;
    forall j | 0 <= j < 24 ensures ListOk(kind, display'[j], mem', frees', j, lists'[j]) {
      assert ListOk(kind, display[j], mem, frees, j, lists[j]);
      PushedOne(kind, display[j], mem, mem', frees, j, lists[j], c);
    }
  }

  lemma PushedOne(kind: nat, head: int, mem: Mem, mem': Mem, frees: set<nat>, j: nat, list: seq<nat>, c: nat)
    requires ListOk(kind, head, mem, frees, j, list) && c !in frees && Sized(mem, c)
    requires forall d {:trigger d in frees} :: d in frees ==> Same(mem, mem', d)
    requires c in mem' && c + 4 in mem' && mem'[c] == mem[c]
    requires FreeListIndex(mem[c]) == j ==> mem'[c + 4] == head
    ensures if FreeListIndex(mem[c]) == j then ListOk(kind, Index(kind, c), mem', frees + {c}, j, [c] + list)
            else ListOk(kind, head, mem', frees + {c}, j, list)
  {
    hide FreeListIndex, Aligned16;
    var list' := if FreeListIndex(mem[c]) == j then [c] + list else list;
    assert forall i :: 0 <= i < |list| ==> EntryOk(kind, mem, frees, j, list, i);
    forall i | 0 <= i < |list'| ensures EntryOk(kind, mem', frees + {c}, j, list', i) {
      if |list'| == |list| {
        assert EntryOk(kind, mem, frees, j, list, i);
      } else if i > 0 {
        assert EntryOk(kind, mem, frees, j, list, i - 1);
      }
    }
    forall d | d in frees + {c} && FreeIn(mem', d, j) ensures d in list' {
      assert FreeIn(mem, d, j) ==> d == c || d in list;
    }
    assert Distinct(list') by {
      forall i | 0 <= i < |list| ensures list[i] != c { assert EntryOk(kind, mem, frees, j, list, i); }
    }
  }

  /** What being on a list says about a cell. */
  lemma ListEntry(kind: nat, display: seq<int>, mem: Mem, frees: set<nat>, lists: seq<seq<nat>>, k: nat, i: nat)
    requires Listed(kind, display, mem, frees, lists) && k < 24 && i < |lists[k]|
    ensures lists[k][i] in frees && Sized(mem, lists[k][i]) && FreeIn(mem, lists[k][i], k)
    ensures mem[lists[k][i] + 4] == Link(kind, lists[k], i + 1) && display[k] == Link(kind, lists[k], 0)
  {
    hide FreeListIndex, Aligned16;
    assert ListOk(kind, display[k], mem, frees, k, lists[k]);
    assert EntryOk(kind, mem, frees, k, lists[k], i);
  }

  /** A cell unlinked from its list: the link word that named it, or the head, names its successor. */
  lemma Unlinked(kind: nat, display: seq<int>, mem: Mem, frees: set<nat>, lists: seq<seq<nat>>, k: nat, i: nat,
                 display': seq<int>, mem': Mem)
    requires Listed(kind, display, mem, frees, lists) && k < 24 && i < |lists[k]|
    requires lists[k][i] + 4 in mem
    requires if i == 0 then display' == display[k := mem[lists[k][i] + 4]] && mem' == mem
             else display' == display && mem' == mem[lists[k][i - 1] + 4 := mem[lists[k][i] + 4]]
    ensures Listed(kind, display', mem', frees - {lists[k][i]}, lists[k := lists[k][..i] + lists[k][i + 1..]])
  {
    hide FreeListIndex, Aligned16, EntryOk, Distinct, FreeIn;
    var l := lists[k];
    ListEntry(kind, display, mem, frees, lists, k, i);
    if i > 0 { ListEntry(kind, display, mem, frees, lists, k, i - 1); }
    forall d | d in frees - {l[i]} ensures Sized(mem', d) {
      assert Sized(mem, d);
      if i > 0 { SizedApart(l[i - 1], d); }
    }
    forall j | 0 <= j < 24 ensures ListOk(kind, display'[j], mem', frees - {l[i]}, j, if j == k then l[..i] + l[i + 1..] else lists[j]) {
      assert ListOk(kind, display[j], mem, frees, j, lists[j]);
      if j == k {
        UnlinkedOne(kind, display[k], mem, mem', frees, k, l, i);
      } else {
        UnlinkedOther(kind, display[j], mem, mem', frees, j, lists[j], k, l, i);
      }
    }
  }

  lemma UnlinkedOne(kind: nat, head: int, mem: Mem, mem': Mem, frees: set<nat>, k: nat, l: seq<nat>, i: nat)
    requires ListOk(kind, head, mem, frees, k, l) && i < |l| && l[i] + 4 in mem
    requires forall c {:trigger c in frees} :: c in frees ==> Sized(mem, c)
    requires mem' == if i == 0 then mem else mem[l[i - 1] + 4 := mem[l[i] + 4]]
    ensures ListOk(kind, if i == 0 then mem[l[i] + 4] else head, mem', frees - {l[i]}, k, l[..i] + l[i + 1..])
  {
    hide FreeListIndex, Aligned16;
    var l' := l[..i] + l[i + 1..];
    assert EntryOk(kind, mem, frees, k, l, i);
    if i > 0 { assert EntryOk(kind, mem, frees, k, l, i - 1) && Sized(mem, l[i - 1]); }
    forall j | 0 <= j < |l'| ensures EntryOk(kind, mem', frees - {l[i]}, k, l', j) {
      var j' := if j < i then j else j + 1;
      assert EntryOk(kind, mem, frees, k, l, j') && l'[j] == l[j'];
      assert Sized(mem, l[j']);
      if i > 0 { SizedApart(l[i - 1], l[j']); }
      assert j + 1 < |l'| ==> l'[j + 1] == if j + 1 < i then l[j + 1] else l[j + 2];
    }
    hide EntryOk;
    forall d | d in frees - {l[i]} && FreeIn(mem', d, k) ensures d in l' { StillListed(kind, head, mem, mem', frees, k, l, i, d); }
  }

  /** The other cells of the list are still on it. */
  lemma StillListed(kind: nat, head: int, mem: Mem, mem': Mem, frees: set<nat>, k: nat, l: seq<nat>, i: nat, d: nat)
    requires ListOk(kind, head, mem, frees, k, l) && i < |l| && l[i] + 4 in mem && (i > 0 ==> Sized(mem, l[i - 1]))
    requires mem' == if i == 0 then mem else mem[l[i - 1] + 4 := mem[l[i] + 4]]
    requires d in frees - {l[i]} && Sized(mem, d) && FreeIn(mem', d, k)
    ensures d in l[..i] + l[i + 1..]
  {
    hide FreeListIndex, Aligned16, EntryOk;
    if i > 0 { SizedApart(l[i - 1], d); }
    assert FreeIn(mem, d, k);
    var j :| 0 <= j < |l| && l[j] == d;
    assert (l[..i] + l[i + 1..])[if j < i then j else j - 1] == d;
  }

  lemma UnlinkedOther(kind: nat, head: int, mem: Mem, mem': Mem, frees: set<nat>, j: nat, list: seq<nat>, k: nat,
                      l: seq<nat>, i: nat)
    requires ListOk(kind, head, mem, frees, j, list) && j != k && i < |l| && l[i] + 4 in mem
    requires forall c {:trigger c in frees} :: c in frees ==> Sized(mem, c)
    requires FreeIn(mem, l[i], k) && (i > 0 ==> FreeIn(mem, l[i - 1], k) && l[i - 1] in frees)
    requires mem' == if i == 0 then mem else mem[l[i - 1] + 4 := mem[l[i] + 4]]
    ensures ListOk(kind, head, mem', frees - {l[i]}, j, list)
  {
    hide FreeListIndex, Aligned16;
    forall x | 0 <= x < |list| ensures EntryOk(kind, mem', frees - {l[i]}, j, list, x) {
      assert EntryOk(kind, mem, frees, j, list, x);
      assert Sized(mem, list[x]);
      if i > 0 { SizedApart(l[i - 1], list[x]); }
    }
    forall d | d in frees - {l[i]} && FreeIn(mem', d, j) ensures d in list {
      assert Sized(mem, d);
      if i > 0 { SizedApart(l[i - 1], d); }
      assert FreeIn(mem, d, j);
    }
  }

  /** A listed cell may grow within its class. */
  lemma Grown(kind: nat, display: seq<int>, mem: Mem, frees: set<nat>, lists: seq<seq<nat>>, c: nat, size: int)
    requires Listed(kind, display, mem, frees, lists) && c in frees && size >= 16
    requires FreeListIndex(size) == FreeListIndex(mem[c])
    ensures Listed(kind, display, mem[c := size], frees, lists)
  {
    hide FreeListIndex, Aligned16;
    var mem' := mem[c := size];
    forall d | d in frees ensures Sized(mem', d) { assert Sized(mem, d); }
    forall k | 0 <= k < 24 ensures ListOk(kind, display[k], mem', frees, k, lists[k]) {
      assert ListOk(kind, display[k], mem, frees, k, lists[k]);
      GrownOne(kind, display[k], mem, frees, k, lists[k], c, size);
    }
  }

  lemma GrownOne(kind: nat, head: int, mem: Mem, frees: set<nat>, k: nat, list: seq<nat>, c: nat, size: int)
    requires ListOk(kind, head, mem, frees, k, list) && c in frees && c in mem && size >= 16 && mem[c] >= 16
    requires FreeListIndex(size) == FreeListIndex(mem[c])
    requires forall d {:trigger d in frees} :: d in frees ==> Sized(mem, d)
    ensures ListOk(kind, head, mem[c := size], frees, k, list)
  {
    hide FreeListIndex, Aligned16, Distinct;
    var mem' := mem[c := size];
    forall i | 0 <= i < |list| ensures EntryOk(kind, mem', frees, k, list, i) {
      assert EntryOk(kind, mem, frees, k, list, i);
      SizedApart(list[i], c);
    }
    forall d | d in frees && FreeIn(mem', d, k) ensures d in list {
      assert Sized(mem, d);
      SizedApart(d, c);
      assert FreeIn(mem, d, k);
    }
  }
}
