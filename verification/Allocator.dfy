/** The cell allocator of one storage of a hive: allocating, freeing and reallocating cells in bins, with
    the free lists kept in the free cells themselves. */
module Allocator {
  import opened AllocatorSteps
  import opened BinChecks
  import opened Cells
  import opened FreeLists
  import opened Payload
  import opened Storage

  /** Where a cell index is stored: the head of a list, or the link word of a free cell. */
  datatype Slot = Head(k: nat) | LinkOf(c: nat)

  class Dual {
    const Kind: nat                    // 0 stable, 1 volatile
    const Limit: nat                   // blocks the host's memory allows
    var BlockList: seq<MapEntry>
    var FreeDisplay: seq<int>
    var Mem: Mem
    ghost var L: Layout
    ghost var Lists: seq<seq<nat>>

    ghost predicate Consistent()
      reads this
    {
      Kind < 2 && |BlockList| <= Limit <= 0x7FFFF && Sound(BlockList, Mem, L)
    }

    ghost predicate ListsHold(frees: set<nat>)
      reads this
    {
      frees <= Frees(Mem, L) && Listed(Kind, FreeDisplay, Mem, frees, Lists)
    }

    ghost predicate Valid()
      reads this
    {
      Consistent() && ListsHold(Frees(Mem, L)) && Coalesced(Mem, L)
    }

    /** An empty storage. */
    constructor (kind: nat, limit: nat)
      requires kind < 2 && limit <= 0x7FFFF
      ensures Valid() && Kind == kind && Limit == limit && BlockList == [] && Mem == map[] && L == Layout(map[], map[])
    {
      Kind, Limit := kind, limit;
      BlockList, Mem, L := [], map[], Layout(map[], map[]);
      FreeDisplay := seq(24, k => HCELL_NIL);
      Lists := seq(24, k => []);
    }

    /** A storage made of bins that are there already, before its lists are built. */
    constructor FromBins(kind: nat, limit: nat, blocks: seq<MapEntry>, mem: Mem, ghost l: Layout)
      requires kind < 2 && |blocks| <= limit <= 0x7FFFF && Sound(blocks, mem, l)
      ensures Consistent() && Kind == kind && Limit == limit && BlockList == blocks && Mem == mem && L == l
      ensures FreeDisplay == seq(24, k => HCELL_NIL) && Lists == seq(24, k => [])
    {
      Kind, Limit := kind, limit;
      BlockList, Mem, L := blocks, mem, l;
      FreeDisplay := seq(24, k => HCELL_NIL);
      Lists := seq(24, k => []);
    }

    function ReadSlot(slot: Slot): int
      reads this
      requires match slot case Head(k) => k < |FreeDisplay| case LinkOf(c) => c + 4 in Mem
    {
      match slot case Head(k) => FreeDisplay[k] case LinkOf(c) => Mem[c + 4]
    }

    method WriteSlot(slot: Slot, v: int)
      requires match slot case Head(k) => k < |FreeDisplay| case LinkOf(c) => c + 4 in Mem
      modifies this`FreeDisplay, this`Mem
      ensures match slot
        case Head(k) => FreeDisplay == old(FreeDisplay)[k := v] && Mem == old(Mem)
        case LinkOf(c) => FreeDisplay == old(FreeDisplay) && Mem == old(Mem)[c + 4 := v]
    {
      match slot {
        case Head(k) => FreeDisplay := FreeDisplay[k := v];
        case LinkOf(c) => Mem := Mem[c + 4 := v];
      }
    }

    /** HvpAddFree: a free cell goes to the front of the list of its class. */
    method AddFree(c: nat, ghost frees: set<nat>)
      requires Consistent() && ListsHold(frees) && c in Frees(Mem, L) && c !in frees
      modifies this`Mem, this`FreeDisplay, this`Lists
      ensures Consistent() && ListsHold(frees + {c}) && LinksChanged(old(Mem), Mem, L, frees + {c})
      ensures InFront(old(Mem), old(Lists), Lists, c)
    {
      FreeFacts(Kind, BlockList, Mem, L, {c}, c);
      hide Sound, Listed, Frees, Index, OffsetOf;
      var index := FreeListIndex(Mem[c]);
      Pushed(Kind, FreeDisplay, Mem, frees, Lists, c);
      ListedShape(Kind, FreeDisplay, Mem, frees, Lists);
      LinkWritten(BlockList, Mem, L, frees + {c}, c, FreeDisplay[index]);
      Lists := Lists[index := [c] + Lists[index]];
      Mem := Mem[c + 4 := FreeDisplay[index]];
      FreeDisplay := FreeDisplay[index := Index(Kind, c)];
    }

    /** The slot that names entry i of list k. */
    ghost function SlotOf(k: nat, i: nat): Slot
      reads this
      requires k < |Lists| && i <= |Lists[k]|
    {
      if i == 0 then Head(k) else LinkOf(Lists[k][i - 1])
    }

    lemma SlotReads(frees: set<nat>, k: nat, i: nat)
      requires Consistent() && ListsHold(frees) && k < |Lists| && i <= |Lists[k]|
      ensures k < 24 && |FreeDisplay| == 24
      ensures match SlotOf(k, i) case Head(x) => x < |FreeDisplay| case LinkOf(c) => c + 4 in Mem
      ensures ReadSlot(SlotOf(k, i)) == Link(Kind, Lists[k], i)
      ensures i < |Lists[k]| ==>
        && Lists[k][i] in frees && FreeIn(Mem, Lists[k][i], k) && Link(Kind, Lists[k], i) != HCELL_NIL
        && Link(Kind, Lists[k], i) == Index(Kind, Lists[k][i]) && OffsetOf(Link(Kind, Lists[k], i)) == Lists[k][i]
    {
      if i > 0 { ListEntry(Kind, FreeDisplay, Mem, frees, Lists, k, i - 1); }
      if i < |Lists[k]| {
        ListEntry(Kind, FreeDisplay, Mem, frees, Lists, k, i);
        FreeFacts(Kind, BlockList, Mem, L, frees, Lists[k][i]);
      }
      assert ListOk(Kind, FreeDisplay[k], Mem, frees, k, Lists[k]);
    }

    /** The word that names a cell takes over the cell's own link. */
    method Unlink(slot: Slot, c: nat, ghost frees: set<nat>, ghost k: nat, ghost i: nat)
      requires Consistent() && ListsHold(frees) && k < |Lists| && i < |Lists[k]|
      requires Lists[k][i] == c && slot == SlotOf(k, i)
      modifies this`Mem, this`FreeDisplay, this`Lists
      ensures Consistent() && ListsHold(frees - {c}) && LinksChanged(old(Mem), Mem, L, frees) && Off(old(Lists), Lists, c, k, i)
    {
      hide Sound, Listed, Frees, FreeListIndex, FreeIn, Index, OffsetOf;
      SlotReads(frees, k, i);
      FreeFacts(Kind, BlockList, Mem, L, frees, c);
      if i > 0 {
        SlotReads(frees, k, i - 1);
        FreeFacts(Kind, BlockList, Mem, L, frees, Lists[k][i - 1]);
        LinkWritten(BlockList, Mem, L, frees, Lists[k][i - 1], Mem[c + 4]);
      } else {
        LinksSame(BlockList, Mem, L, frees);
      }
      ghost var mem, display := Mem, FreeDisplay;
      WriteSlot(slot, Mem[c + 4]);
      Unlinked(Kind, display, mem, frees, Lists, k, i, FreeDisplay, Mem);
      Lists := Lists[k := Lists[k][..i] + Lists[k][i + 1..]];
    }

    /** HvpRemoveFree: the list of the cell's class is walked until the cell is met. */
    method RemoveFree(c: nat, ghost frees: set<nat>)
      requires Consistent() && ListsHold(frees) && c in frees
      modifies this`Mem, this`FreeDisplay, this`Lists
      ensures Consistent() && ListsHold(frees - {c}) && LinksChanged(old(Mem), Mem, L, frees)
      ensures exists k, i :: Off(old(Lists), Lists, c, k, i)
    {
      FreeFacts(Kind, BlockList, Mem, L, frees, c);
      OnItsList(Kind, FreeDisplay, Mem, frees, Lists, c);
      hide Sound, Listed, Frees, FreeListIndex, FreeIn, Index, OffsetOf;
      var index := FreeListIndex(Mem[c]);
      var slot := Head(index);
      ghost var i := 0;
      SlotReads(frees, index, 0);
      while ReadSlot(slot) != HCELL_NIL
        invariant Mem == old(Mem) && FreeDisplay == old(FreeDisplay) && Lists == old(Lists)
        invariant i <= |Lists[index]| && slot == SlotOf(index, i)
        invariant match slot case Head(x) => x < |FreeDisplay| case LinkOf(d) => d + 4 in Mem
        invariant ReadSlot(slot) == Link(Kind, Lists[index], i)
        invariant c !in Lists[index][..i]
        decreases |Lists[index]| - i
      {
        SlotReads(frees, index, i);
        var freeCell := OffsetOf(ReadSlot(slot));
        if ReadSlot(slot) == Index(Kind, c) {
          Unlink(slot, c, frees, index, i);
          return;
        }
        slot := LinkOf(freeCell);
        i := i + 1;
        SlotReads(frees, index, i);
      }
      // the cell is on the list, so the walk does not end without meeting it
      SlotReads(frees, index, i);
      assert false;
    }

    /** The source's check of a cell against the end of its bin: it never fails. */
    method WithinBin(c: nat) returns (inside: bool)
      requires Consistent() && c in Frees(Mem, L)
      ensures inside && c in Mem
    {
      FreeFacts(Kind, BlockList, Mem, L, {c}, c);
      hide Sound;
      BinOfCell(BlockList, Mem, L, c);
      BinHeader(BlockList, Mem, L, c);
      var bin := BlockList[c / 4096].BinAddress;
      inside := c + Mem[c] <= bin + Mem[bin + 8];
    }

    /** The first cell of list index that is large enough, taken off the list. */
    method FindInList(index: nat, size: nat, ghost frees: set<nat>) returns (found: bool, c: nat)
      requires Consistent() && ListsHold(frees) && size >= 16 && index < |Lists|
      modifies this`Mem, this`FreeDisplay, this`Lists
      ensures Consistent() && LinksChanged(old(Mem), Mem, L, frees)
      ensures found ==> c in frees && c in Mem && c in old(Mem) && Mem[c] == old(Mem)[c] >= size && ListsHold(frees - {c})
      ensures !found ==> Mem == old(Mem) && FreeDisplay == old(FreeDisplay) && Lists == old(Lists)
      ensures !found ==> AllSmall(Mem, Lists[index], size)
      ensures found ==> exists i: nat {:trigger Off(old(Lists), Lists, c, index, i)} ::
        Off(old(Lists), Lists, c, index, i) && AllSmall(old(Mem), old(Lists)[index][..i], size)
    {
      hide Sound, Listed, Frees, FreeListIndex, FreeIn, Index, OffsetOf, AllSmall;
      LinksSame(BlockList, Mem, L, frees);
      hide LinksChanged;
      NoneSmall(Mem, Lists[index], size);
      var slot := Head(index);
      ghost var i := 0;
      SlotReads(frees, index, 0);
      while ReadSlot(slot) != HCELL_NIL
        invariant Mem == old(Mem) && FreeDisplay == old(FreeDisplay) && Lists == old(Lists)
        invariant i <= |Lists[index]| && slot == SlotOf(index, i)
        invariant match slot case Head(x) => x < |FreeDisplay| case LinkOf(d) => d + 4 in Mem
        invariant ReadSlot(slot) == Link(Kind, Lists[index], i)
        invariant AllSmall(Mem, Lists[index][..i], size)
        decreases |Lists[index]| - i
      {
        SlotReads(frees, index, i);
        c := OffsetOf(ReadSlot(slot));
        FreeFacts(Kind, BlockList, Mem, L, frees, c);
        if c / 4096 >= |BlockList| {
          assert false;   // no corrupt link
        }
        if Mem[c] >= size && Mem[c] > 0 {
          var inside := WithinBin(c);
          assert inside;   // no cell reaches past its bin
          Unlink(slot, c, frees, index, i);
          LinksKeep(old(Mem), Mem, L, frees, c);
          return true, c;
        }
        NextSmall(Mem, Lists[index], i, size);
        slot := LinkOf(c);
        i := i + 1;
        SlotReads(frees, index, i);
      }
      SlotReads(frees, index, i);
      assert Lists[index][..i] == Lists[index];
      return false, 0;
    }

    /** HvpFindFree: the first cell large enough in the lists from the size's class upwards, taken off its
        list.  The source's checks for corrupt lists find nothing here. */
    method FindFree(size: nat, ghost frees: set<nat>) returns (found: bool, c: nat)
      requires Consistent() && ListsHold(frees) && size >= 16
      modifies this`Mem, this`FreeDisplay, this`Lists
      ensures Consistent() && LinksChanged(old(Mem), Mem, L, frees)
      ensures found <==> HasRoom(old(Mem), frees, size)
      ensures found ==> c in frees && c in Mem && Mem[c] >= size && ListsHold(frees - {c})
      ensures found ==> FirstFit(old(Mem), old(Lists), size, c) && exists k, i :: Off(old(Lists), Lists, c, k, i)
      ensures !found ==> ListsHold(frees) && Mem == old(Mem) && FreeDisplay == old(FreeDisplay) && Lists == old(Lists)
    {
      hide Sound, Listed, Frees, FreeListIndex, FreeIn, Index, OffsetOf;
      LinksSame(BlockList, Mem, L, frees);
      hide LinksChanged;
      ListedShape(Kind, FreeDisplay, Mem, frees, Lists);
      SmallerClasses(Kind, BlockList, Mem, L, frees, size);
      var first := FreeListIndex(size);
      for index := first to 24
        invariant Mem == old(Mem) && FreeDisplay == old(FreeDisplay) && Lists == old(Lists)
        invariant TooSmall(Mem, frees, size, index)
        invariant forall j {:trigger Lists[j]} :: first <= j < index ==> AllSmall(Mem, Lists[j], size)
      {
        found, c := FindInList(index, size, frees);
        if found {
          ghost var i: nat :| Off(old(Lists), Lists, c, index, i) && AllSmall(old(Mem), old(Lists)[index][..i], size);
          assert FirstAt(old(Mem), old(Lists), size, c, index, i);
          return;
        }
        ListScanned(Kind, FreeDisplay, Mem, frees, Lists, index, size);
      }
      AllScanned(Kind, FreeDisplay, Mem, frees, Lists, size);
      return false, 0;
    }

    // ----- allocating

    /** HvpAddBin: a new bin behind the last, large enough for a cell of this size; nothing if the host has
        no memory for it.  Its one cell is not on a list yet. */
    method AddBin(size: nat) returns (ok: bool, c: nat)
      requires Consistent() && ListsHold(Frees(Mem, L)) && Coalesced(Mem, L)
      modifies this`Mem, this`BlockList, this`L
      ensures ok <==> |old(BlockList)| + BinBlocks(size) <= Limit
      ensures !ok ==> Mem == old(Mem) && BlockList == old(BlockList) && L == old(L)
      ensures ok ==> Consistent() && Coalesced(Mem, L) && |BlockList| == |old(BlockList)| + BinBlocks(size)
      ensures ok ==> c in Frees(Mem, L) && c !in Frees(old(Mem), old(L)) && ListsHold(Frees(Mem, L) - {c}) && Mem[c] >= size
      ensures ok ==> Live(Mem, L) == Live(old(Mem), old(L)) && AllKept(old(Mem), Mem, Live(Mem, L))
      ensures ok ==> c == 4096 * |old(BlockList)| + 32 && Mem[c] == 4096 * BinBlocks(size) - 32
    {
      hide Sound, Listed, Coalesced, Frees, Live, AllKept, Zeroes;
      var binSize := RoundUp4096(size + 32);
      var blockCount := binSize / 4096;
      RoundedUp4096(size + 32);
      if |BlockList| + blockCount > Limit {
        return false, 0;
      }
      var start := |BlockList| * 4096;
      var mem := Mem + Zeroes(start, binSize);
      mem := mem[start := HV_HBIN_SIGNATURE][start + 4 := start][start + 8 := binSize];
      var blocks := GrownBlockList(BlockList, blockCount);
      mem := mem[start + 32 := binSize - 32];
      BinAdded(Kind, BlockList, FreeDisplay, Mem, L, Lists, blocks, mem, binSize);
      L := L.Extend(start, binSize);
      BlockList, Mem := blocks, mem;
      ok, c := true, start + 32;
    }

    /** What is left of a free cell behind its first size bytes becomes a free cell of its own, unless it is
        16 bytes or less. */
    method SplitCell(c: nat, size: nat)
      requires Consistent() && Coalesced(Mem, L) && c in Frees(Mem, L) && ListsHold(Frees(Mem, L) - {c})
      requires 16 <= size <= Mem[c] && size % 16 == 0
      modifies this`Mem, this`FreeDisplay, this`Lists, this`L
      ensures Consistent() && c in Frees(Mem, L) && ListsHold(Frees(Mem, L) - {c})
      ensures Coalesced(Mem[c := -Mem[c]], L) && Mem[c] in {size, size + 16} && Mem[c] == SplitSize(old(Mem)[c], size)
      ensures Live(Mem, L) == Live(old(Mem), old(L)) && AllKept(old(Mem), Mem, Live(Mem, L))
    {
      CellBacked(BlockList, Mem, L, c);
      FreeFacts(Kind, BlockList, Mem, L, Frees(Mem, L), c);
      hide Sound, Listed, Coalesced, Frees, Live, AllKept, LinksChanged, Index, OffsetOf;
      if Mem[c] > size + 16 {
        BinOfCell(BlockList, Mem, L, c);
        BinHeader(BlockList, Mem, L, c);
        var bin := BlockList[c / 4096].BinAddress;
        if c + size + 4 > bin + Mem[bin + 8] {
          assert false;   // the split point lies in the bin
        }
        var newCell := c + size;
        SplitStep(Kind, BlockList, FreeDisplay, Mem, L, Lists, c, size);
        Mem := Mem[newCell := Mem[c] - size];
        Mem := Mem[c := size];
        L := L.Split(c, size);
        label SPLIT:
        assert Frees(Mem, L) - {c} - {newCell} + {newCell} == Frees(Mem, L) - {c};
        AddFree(newCell, Frees(Mem, L) - {c} - {newCell});
        SplitDone(BlockList, old(Mem), old(L), c, size, old@SPLIT(Mem), Mem);
      } else {
        NotSplit(BlockList, Mem, L, c);
      }
    }

    /** RtlZeroMemory, of n bytes. */
    method ZeroMemory(from: nat, n: nat)
      requires from % 4 == 0 && n % 4 == 0
      requires forall a {:trigger a in Mem} :: from <= a < from + n && a % 4 == 0 ==> a in Mem
      modifies this`Mem
      ensures Mem.Keys == old(Mem).Keys
      ensures forall a {:trigger Mem[a]} :: a in Mem ==> Mem[a] == if from <= a < from + n && a % 4 == 0 then 0 else old(Mem)[a]
    {
      var a := from;
      while a < from + n
        invariant from <= a <= from + n && a % 4 == 0 && Mem.Keys == old(Mem).Keys
        invariant forall b {:trigger Mem[b]} :: b in Mem ==> Mem[b] == if from <= b < a && b % 4 == 0 then 0 else old(Mem)[b]
      {
        NextWord(a);
        Mem := Mem[a := 0];
        a := a + 4;
      }
    }

    /** HvAllocateCell: room for size bytes, in the first listed cell large enough or, when no free cell is,
        in a new bin.  The cell is 16 bytes larger than needed when a split would leave no more than that. */
    method AllocateCell(size: nat) returns (index: nat)
      requires Valid()
      modifies this`Mem, this`BlockList, this`FreeDisplay, this`Lists, this`L
      ensures Valid()
      ensures index == HCELL_NIL <==> !Available(old(Mem), old(L), |old(BlockList)|, Limit, size)
      ensures index == HCELL_NIL ==> Mem == old(Mem) && FreeDisplay == old(FreeDisplay) && L == old(L)
      ensures index != HCELL_NIL ==> index == Index(Kind, OffsetOf(index)) && Allocated(old(Mem), old(L), Mem, L, OffsetOf(index), size)
      ensures CellSize(size) >= 8
      ensures index != HCELL_NIL ==> Chosen(old(Mem), old(L), old(Lists), |old(BlockList)|, Mem, OffsetOf(index), CellSize(size))
      ensures AllKept(old(Mem), Mem, Live(old(Mem), old(L)))
      ensures |BlockList| == |old(BlockList)| + Growth(old(Mem), old(L), |old(BlockList)|, Limit, size)
    {
      ghost var mem, l, live := Mem, L, Live(Mem, L);
      hide Sound, Listed, Coalesced, Frees, Live, AllKept, HasRoom, BinBlocks, Allocated, CellSize, Index, OffsetOf, FirstFit, FirstAt;
      RoundedCell(size);
      var need := CellSize(size);
      var ok, c := TakeFree(need);
      if !ok {
        NothingChanged(BlockList, Mem, L);
        return HCELL_NIL;
      }
      ghost var mem1 := Mem;
      SplitCell(c, need);
      AllKeptTwice(mem, mem1, Mem, live);
      ghost var mem2 := Mem;
      FreeFacts(Kind, BlockList, Mem, L, Frees(Mem, L), c);
      Claim(c, need);
      AllKeptTwice(mem, mem2, Mem, live);
      NowAllocated(mem, l, Mem, L, c, size);
      index := Index(Kind, c);
    }

    /** A free cell that is large enough, off its list; a new bin's if there is none. */
    method TakeFree(need: nat) returns (ok: bool, c: nat)
      requires Valid() && need >= 16
      modifies this`Mem, this`BlockList, this`FreeDisplay, this`Lists, this`L
      ensures Consistent() && Coalesced(Mem, L)
      ensures !ok <==> !HasRoom(old(Mem), Frees(old(Mem), old(L)), need) && |old(BlockList)| + BinBlocks(need) > Limit
      ensures !ok ==> Valid() && Mem == old(Mem) && FreeDisplay == old(FreeDisplay) && L == old(L) && BlockList == old(BlockList)
      ensures ok ==> c in Frees(Mem, L) && Mem[c] >= need && ListsHold(Frees(Mem, L) - {c})
      ensures ok ==> Live(Mem, L) == Live(old(Mem), old(L)) && AllKept(old(Mem), Mem, Live(Mem, L))
      ensures ok ==> if HasRoom(old(Mem), Frees(old(Mem), old(L)), need)
        then FirstFit(old(Mem), old(Lists), need, c) && c in old(Mem) && Mem[c] == old(Mem)[c]
        else c == 4096 * |old(BlockList)| + 32 && Mem[c] == 4096 * BinBlocks(need) - 32
      ensures |BlockList| == |old(BlockList)| +
        if !ok || HasRoom(old(Mem), Frees(old(Mem), old(L)), need) then 0 else BinBlocks(need)
    {
      ghost var mem, frees := Mem, Frees(Mem, L);
      hide Sound, Listed, Coalesced, Frees, Live, AllKept, LinksChanged, HasRoom, BinBlocks;
      ok, c := FindFree(need, frees);
      if ok {
        FoundFree(mem, Mem, L, frees, c);
      } else {
        ok, c := AddBin(need);
      }
    }

    /** The sign of a cell taken off the lists says that it is in use; its first n bytes become zero. */
    method Claim(c: nat, n: nat)
      requires Consistent() && c in Frees(Mem, L) && ListsHold(Frees(Mem, L) - {c}) && Coalesced(Mem[c := -Mem[c]], L)
      requires 16 <= n <= Mem[c] && n % 16 == 0
      modifies this`Mem
      ensures Valid() && c in Mem && Mem[c] == -old(Mem)[c] && c !in Live(old(Mem), L)
      ensures Live(Mem, L) == Live(old(Mem), L) + {c} && AllKept(old(Mem), Mem, Live(old(Mem), L))
      ensures forall a {:trigger Mem[a]} :: a in Mem && c + 4 <= a < c + n && a % 4 == 0 ==> Mem[a] == 0
    {
      ghost var mem := Mem;
      hide Sound, Listed, Coalesced, Frees, Live, AllKept, Index, OffsetOf;
      Claimed(Kind, BlockList, FreeDisplay, Mem, L, Lists, c);
      Mem := Mem[c := -Mem[c]];
      ghost var mem1 := Mem;
      BodyWords(BlockList, Mem, L, c, n);
      ZeroMemory(c + 4, n - 4);
      PayloadChanged(Kind, BlockList, FreeDisplay, mem1, L, Lists, c, Mem);
      AllKeptBut(mem, mem1, Mem, L, Live(mem, L), c);
    }

    // ----- freeing

    /** HvFreeCell: the cell is free, and one with the free cells before and behind it. */
    method FreeCell(index: nat)
      requires Valid() && index == Index(Kind, OffsetOf(index)) && OffsetOf(index) in Live(Mem, L)
      modifies this`Mem, this`FreeDisplay, this`Lists, this`L
      ensures Valid()
      ensures Live(Mem, L) == Live(old(Mem), old(L)) - {OffsetOf(index)} && AllKept(old(Mem), Mem, Live(Mem, L))
    {
      ghost var mem, live := Mem, Live(Mem, L) - {OffsetOf(index)};
      hide Sound, Listed, Coalesced, CoalescedBut, NotBoth, Frees, Live, AllKept, LinksChanged, Index, OffsetOf;
      var c := OffsetOf(index);
      Freed(Kind, BlockList, FreeDisplay, Mem, L, Lists, c);
      Mem := Mem[c := -Mem[c]];
      ghost var mem1 := Mem;
      MergeForward(c);
      AllKeptTwice(mem, mem1, Mem, live);
      ghost var mem2 := Mem;
      var found, p := PrecedingFree(c);
      if found {
        MergeBackward(p, c);
      } else {
        NothingToMerge(Mem, L, c);
        assert Frees(Mem, L) - {c} + {c} == Frees(Mem, L);
        AddFree(c, Frees(Mem, L) - {c});
        LinksKeepAll(mem2, Mem, L);
        FewerFreesCoalesced(mem2, Mem, L);
      }
      AllKeptTwice(mem, mem2, Mem, live);
    }

    /** The cell behind a freed one, if it is free, becomes part of it. */
    method MergeForward(c: nat)
      requires Consistent() && c in Frees(Mem, L) && ListsHold(Frees(Mem, L) - {c}) && CoalescedBut(Mem, L, c)
      modifies this`Mem, this`FreeDisplay, this`Lists, this`L
      ensures Consistent() && c in Frees(Mem, L) && ListsHold(Frees(Mem, L) - {c})
      ensures c in L.cells && CoalescedBut(Mem, L, c) && NotBoth(Mem, L, c)
      ensures Live(Mem, L) == Live(old(Mem), old(L)) && AllKept(old(Mem), Mem, Live(Mem, L))
    {
      ghost var mem := Mem;
      NothingChanged(BlockList, Mem, L);
      FreeFacts(Kind, BlockList, Mem, L, Frees(Mem, L), c);
      BinOfCell(BlockList, Mem, L, c);
      BinHeader(BlockList, Mem, L, c);
      Behind(BlockList, Mem, L, c);
      hide Sound, Listed, CoalescedBut, NotBoth, Frees, Live, AllKept, LinksChanged, Index, OffsetOf;
      var bin := BlockList[c / 4096].BinAddress;
      var freeEnd := c + Mem[c];
      if freeEnd < bin + Mem[bin + 8] && Mem[freeEnd] > 0 {
        var neighbor := freeEnd;
        RemoveFree(neighbor, Frees(Mem, L) - {c});
        LinksKeepAll(mem, Mem, L);
        SameFrees(mem, Mem, L, c);
        ghost var mem1 := Mem;
        ForwardMerged(Kind, BlockList, FreeDisplay, Mem, L, Lists, c);
        Mem := Mem[c := Mem[c] + Mem[neighbor]];
        L := L.Merge(c);
        AllKeptTwice(mem, mem1, Mem, Live(Mem, L));
      }
    }

    /** The bin's cells are walked from its first up to c; the free one that ends where c starts is found. */
    method PrecedingFree(c: nat) returns (found: bool, p: nat)
      requires Consistent() && c in Frees(Mem, L)
      ensures found ==> p in Frees(Mem, L) && p in L.cells && L.After(p) == c
      ensures !found ==> forall q {:trigger L.After(q)} :: q in L.cells && q in Frees(Mem, L) ==> L.After(q) != c
    {
      FreeFacts(Kind, BlockList, Mem, L, {c}, c);
      BinOfCell(BlockList, Mem, L, c);
      FirstOfBin(Mem, L, c);
      hide Sound, Frees, NoneBefore;
      p := BlockList[c / 4096].BinAddress + 32;
      while p < c
        invariant p in L.cells && L.cells[p].bin == L.cells[c].bin && p <= c && NoneBefore(Mem, L, c, p)
        decreases c - p
      {
        WalkStep(BlockList, Mem, L, p, c);
        if Mem[p] > 0 {
          if p + Mem[p] == c {
            return true, p;
          }
          p := p + Mem[p];
        } else {
          p := p - Mem[p];
        }
      }
      WalkEnd(BlockList, Mem, L, c);
      found := false;
    }

    /** A freed cell becomes part of the free cell before it, which changes lists if its class does. */
    method MergeBackward(p: nat, c: nat)
      requires Consistent() && p in Frees(Mem, L) && c in Frees(Mem, L) && ListsHold(Frees(Mem, L) - {c})
      requires L.After(p) == c && CoalescedBut(Mem, L, c) && NotBoth(Mem, L, c)
      modifies this`Mem, this`FreeDisplay, this`Lists, this`L
      ensures Valid()
      ensures Live(Mem, L) == Live(old(Mem), old(L)) && AllKept(old(Mem), Mem, Live(Mem, L))
      ensures p in old(Mem) && c in old(Mem) && old(Mem)[p] >= 16 && old(Mem)[c] >= 16
      ensures FreeListIndex(old(Mem)[p]) == FreeListIndex(old(Mem)[p] + old(Mem)[c]) ==>
        Lists == old(Lists) && FreeDisplay == old(FreeDisplay)
    {
      FreeFacts(Kind, BlockList, Mem, L, Frees(Mem, L), p);
      FreeFacts(Kind, BlockList, Mem, L, Frees(Mem, L), c);
      hide Sound, Listed, Coalesced, CoalescedBut, NotBoth, Frees, Live, AllKept, LinksChanged, Index, OffsetOf, FreeListIndex;
      BackwardMerged(Kind, BlockList, FreeDisplay, Mem, L, Lists, p, c);
      if FreeListIndex(Mem[p]) != FreeListIndex(Mem[p] + Mem[c]) {
        MergeAndMove(p, c);
      } else {
        Mem := Mem[p := Mem[p] + Mem[c]];
        L := L.Merge(p);
      }
    }

    /** The merged cell is taken off its list and put on the one of its new class. */
    method MergeAndMove(p: nat, c: nat)
      requires Consistent() && p in Frees(Mem, L) && c in Frees(Mem, L) && p != c && ListsHold(Frees(Mem, L) - {c})
      requires p in Mem && c in Mem && Mem[p] >= 16 && Mem[c] >= 16
      requires p in L.cells && c in L.cells && L.After(p) == c && CoalescedBut(Mem, L, c) && NotBoth(Mem, L, c)
      modifies this`Mem, this`FreeDisplay, this`Lists, this`L
      ensures Valid()
      ensures Live(Mem, L) == Live(old(Mem), old(L)) && AllKept(old(Mem), Mem, Live(Mem, L))
    {
      ghost var mem := Mem;
      hide Sound, Listed, Coalesced, CoalescedBut, NotBoth, Frees, Live, AllKept, LinksChanged, Index, OffsetOf, FreeListIndex;
      RemoveFree(p, Frees(Mem, L) - {c});
      LinksKeepAll(mem, Mem, L);
      SameFrees(mem, Mem, L, c);
      ghost var mem1 := Mem;
      BackwardMerged(Kind, BlockList, FreeDisplay, Mem, L, Lists, p, c);
      Mem := Mem[p := Mem[p] + Mem[c]];
      L := L.Merge(p);
      AllKeptTwice(mem, mem1, Mem, Live(Mem, L));
      ghost var mem2 := Mem;
      assert Frees(Mem, L) - {p} + {p} == Frees(Mem, L);
      AddFree(p, Frees(Mem, L) - {p});
      LinksKeepAll(mem2, Mem, L);
      FewerFreesCoalesced(mem2, Mem, L);
      AllKeptTwice(mem, mem2, Mem, Live(Mem, L));
    }

    // ----- reallocating

    /** RtlCopyMemory, of n bytes at from to memory it does not overlap. */
    method CopyMemory(to: nat, from: nat, n: nat)
      requires HasWords(Mem, to, (n + 3) / 4) && HasWords(Mem, from, (n + 3) / 4)
      requires to + n <= from || from + n <= to
      requires to % 4 == from % 4 == 0
      modifies this`Mem
      ensures Mem.Keys == old(Mem).Keys
      ensures forall a {:trigger Mem[a]} :: a in Mem && !(to <= a < to + n) ==> Mem[a] == old(Mem)[a]
      ensures SameBytes(old(Mem), from, Mem, to, n)
    {
      hide SameWords, HasWords, Overwritten, SameBytes;
      var words := n / 4;
      var k := 0;
      NoneCopied(Mem, from, to);
      while k < words
        invariant k <= words && Mem.Keys == old(Mem).Keys
        invariant forall a {:trigger Mem[a]} :: a in Mem && !(to <= a < to + 4 * k) ==> Mem[a] == old(Mem)[a]
        invariant SameWords(old(Mem), from, Mem, to, k)
      {
        CopiedWord(old(Mem), from, Mem, to, k, n, Word(Mem, from, k));
        Mem := Mem[to + 4 * k := Mem[from + 4 * k]];
        k := k + 1;
      }
      if n % 4 != 0 {
        CopiedWord(old(Mem), from, Mem, to, k, n, Overwritten(Word(Mem, to, k), Word(Mem, from, k), n % 4));
        Mem := Mem[to + 4 * k := Overwritten(Mem[to + 4 * k], Mem[from + 4 * k], n % 4)];
      }
      CopiedBytes(old(Mem), from, Mem, to, n);
    }

    /** HvReallocateCell: a cell that is too small, or more than twice too large, gives way to a new one; its
        first bytes move along. */
    method ReallocateCell(index: nat, size: nat) returns (newIndex: nat)
      requires Valid() && index == Index(Kind, OffsetOf(index)) && OffsetOf(index) in Live(Mem, L)
      modifies this`Mem, this`BlockList, this`FreeDisplay, this`Lists, this`L
      ensures Valid()
      ensures newIndex == HCELL_NIL ==> Mem == old(Mem) && L == old(L)
      ensures newIndex == HCELL_NIL <==>
        size > Capacity(old(Mem), OffsetOf(index)) && !Available(old(Mem), old(L), |old(BlockList)|, Limit, size)
      ensures newIndex != HCELL_NIL ==> newIndex == Index(Kind, OffsetOf(newIndex))
      ensures newIndex != HCELL_NIL ==>
        Moved(old(Mem), Live(old(Mem), old(L)), Mem, Live(Mem, L), OffsetOf(index), OffsetOf(newIndex), size)
      ensures Capacity(old(Mem), OffsetOf(index)) / 2 <= size <= Capacity(old(Mem), OffsetOf(index)) ==>
        newIndex == index && Mem == old(Mem) && L == old(L) && BlockList == old(BlockList)
      ensures !(Capacity(old(Mem), OffsetOf(index)) / 2 <= size <= Capacity(old(Mem), OffsetOf(index))) ==>
        |BlockList| == |old(BlockList)| + Growth(old(Mem), old(L), |old(BlockList)|, Limit, size)
    {
      var cell := OffsetOf(index);
      LiveCell(Kind, BlockList, Mem, L, cell);
      hide Sound, Listed, Coalesced, Frees, Live, AllKept, Index, OffsetOf, Moved, Capacity, Available, Growth;
      NothingMoved(Mem, Live(Mem, L), cell, size);
      var oldSize := Capacity(Mem, cell);
      if size > oldSize {
        newIndex := Relocate(index, size, oldSize);
        return;
      }
      ghost var mem, live := Mem, Live(Mem, L);
      if size < oldSize / 2 {
        newIndex := Relocate(index, size, size);
        if newIndex != HCELL_NIL {
          return;
        }
      }
      NothingMoved(mem, live, cell, size);
      newIndex := index;
    }

    /** A new cell of the given size, with the first n bytes of the old one, which is freed. */
    method Relocate(index: nat, size: nat, n: nat) returns (newIndex: nat)
      requires Valid() && index == Index(Kind, OffsetOf(index)) && OffsetOf(index) in Live(Mem, L)
      requires n <= size && n <= Capacity(Mem, OffsetOf(index)) && (n == size || n == Capacity(Mem, OffsetOf(index)))
      modifies this`Mem, this`BlockList, this`FreeDisplay, this`Lists, this`L
      ensures Valid()
      ensures newIndex == HCELL_NIL <==> !Available(old(Mem), old(L), |old(BlockList)|, Limit, size)
      ensures newIndex == HCELL_NIL ==> Mem == old(Mem) && L == old(L)
      ensures |BlockList| == |old(BlockList)| + Growth(old(Mem), old(L), |old(BlockList)|, Limit, size)
      ensures newIndex != HCELL_NIL ==> newIndex == Index(Kind, OffsetOf(newIndex))
      ensures newIndex != HCELL_NIL ==>
        Moved(old(Mem), Live(old(Mem), old(L)), Mem, Live(Mem, L), OffsetOf(index), OffsetOf(newIndex), size)
    {
      ghost var mem, l := Mem, L;
      OwnWords(BlockList, Mem, L, OffsetOf(index), n);
      hide Sound, Listed, Coalesced, Frees, Live, AllKept, Index, OffsetOf, Moved, Capacity, HasWords, SameBytes, Allocated, Available, Growth, CellSize;
      newIndex := AllocateCell(size);
      if newIndex == HCELL_NIL {
        return;
      }
      var cell, newCell := OffsetOf(index), OffsetOf(newIndex);
      ghost var mem1 := Mem;
      AllocatedNew(mem, l, mem1, L, newCell, cell, size);
      CopyPayload(newCell, cell, n);
      ghost var mem2 := Mem;
      FreeCell(index);
      assert Live(Mem, L) == Live(mem, l) - {cell} + {newCell};
      MovedBytes(mem, mem1, mem2, Mem, Live(mem, l), cell, newCell, n, size);
    }

    /** The first n bytes of one cell become those of another. */
    method CopyPayload(to: nat, from: nat, n: nat)
      requires Valid() && to in Live(Mem, L) && from in Live(Mem, L) && to != from
      requires n <= Capacity(Mem, to) && n <= Capacity(Mem, from)
      modifies this`Mem
      ensures Valid() && Live(Mem, L) == Live(old(Mem), L) && AllKept(old(Mem), Mem, Live(Mem, L) - {to})
      ensures Capacity(Mem, to) == Capacity(old(Mem), to) && HasWords(Mem, to + 4, (n + 3) / 4)
      ensures SameBytes(old(Mem), from + 4, Mem, to + 4, n)
    {
      ghost var mem := Mem;
      hide Sound, Listed, Coalesced, Frees, Live, AllKept, HasWords, SameBytes;
      Separate(BlockList, Mem, L, from, to, n);
      CopyMemory(to + 4, from + 4, n);
      PayloadChanged(Kind, BlockList, FreeDisplay, mem, L, Lists, to, Mem);
      OwnWords(BlockList, Mem, L, to, n);
    }

    /** What the owner of a cell does with it: a word of its payload is written. */
    method Store(index: nat, k: nat, v: int)
      requires Valid() && index == Index(Kind, OffsetOf(index)) && OffsetOf(index) in Live(Mem, L)
      requires 4 * k + 4 <= Capacity(Mem, OffsetOf(index))
      modifies this`Mem
      ensures Valid() && Live(Mem, L) == Live(old(Mem), L) && AllKept(old(Mem), Mem, Live(Mem, L) - {OffsetOf(index)})
      ensures Mem == old(Mem)[OffsetOf(index) + 4 + 4 * k := v]
    {
      var c := OffsetOf(index);
      ghost var mem := Mem;
      WordInBody(BlockList, Mem, L, c, k);
      hide Sound, Listed, Coalesced, Frees, Live, AllKept, OffsetOf, Index;
      Mem := Mem[c + 4 + 4 * k := v];
      PayloadChanged(Kind, BlockList, FreeDisplay, mem, L, Lists, c, Mem);
    }

    // ----- rebuilding the lists, and validating

    /** HvpCreateHiveFreeCellList: the bins are walked cell by cell, and every free cell is put on its list. */
    method CreateFreeCellList()
      requires Consistent()
      modifies this`Mem, this`FreeDisplay, this`Lists
      ensures Consistent() && ListsHold(Frees(Mem, L)) && LinksChanged(old(Mem), Mem, L, Frees(Mem, L))
    {
      ghost var mem, frees := Mem, Frees(Mem, L);
      LinksSame(BlockList, Mem, L, frees);
      EmptyLists(Kind, Mem);
      NothingBelow(BlockList, Mem, L);
      hide Sound, Listed, Frees, FreesBelow, Boundary, LinksChanged;
      FreeDisplay := seq(24, k => HCELL_NIL);
      Lists := seq(24, k => []);
      var blockIndex := 0;
      while blockIndex < |BlockList|
        invariant blockIndex <= |BlockList| && Boundary(L, 4096 * blockIndex)
        invariant Consistent() && LinksChanged(mem, Mem, L, frees)
        invariant ListsHold(FreesBelow(Mem, L, 4096 * blockIndex))
        decreases |BlockList| - blockIndex
      {
        BinAtBoundary(BlockList, Mem, L, blockIndex);
        var bin := BlockList[blockIndex].BinAddress;
        ListBin(bin, mem, frees);
        BinDone(BlockList, Mem, L, bin);
        blockIndex := blockIndex + Mem[bin + 8] / 4096;
      }
      AllBelow(BlockList, Mem, L);
    }

    /** The free cells of one bin are put on their lists. */
    method ListBin(bin: nat, ghost mem: Mem, ghost frees: set<nat>)
      requires Consistent() && bin in L.bins && ListsHold(FreesBelow(Mem, L, bin))
      requires frees == Frees(mem, L) && LinksChanged(mem, Mem, L, frees)
      modifies this`Mem, this`FreeDisplay, this`Lists
      ensures Consistent() && LinksChanged(mem, Mem, L, frees) && bin in L.bins
      ensures ListsHold(FreesBelow(Mem, L, L.bins[bin]))
    {
      HeaderFacts(BlockList, Mem, L, bin);
      hide Sound, Listed, Frees, FreesBelow, LinksChanged, InBin;
      var freeOffset := 32;
      while freeOffset < Mem[bin + 8]
        invariant 32 <= freeOffset && InBin(L, bin, bin + freeOffset)
        invariant Consistent() && LinksChanged(mem, Mem, L, frees) && ListsHold(FreesBelow(Mem, L, bin + freeOffset))
        invariant bin + 8 in Mem && Mem[bin + 8] == L.bins[bin] - bin
        decreases L.bins[bin] - (bin + freeOffset)
      {
        var c := bin + freeOffset;
        CellInBin(BlockList, Mem, L, bin, c);
        ghost var below, mem1 := FreesBelow(Mem, L, c), Mem;
        if Mem[c] > 0 {
          AddFree(c, below);
          LinksChangedTwice(mem, mem1, Mem, L, frees, below + {c});
          SameBelow(mem1, Mem, L, L.After(c));
          HeaderFacts(BlockList, Mem, L, bin);
          freeOffset := freeOffset + Mem[c];
        } else {
          freeOffset := freeOffset - Mem[c];
        }
      }
      EndOfBin(BlockList, Mem, L, bin, bin + freeOffset);
    }

    /** HvValidateBin, on any memory: the bin's signature, and the sizes of its cells. */
    method ValidateBin(bin: nat) returns (status: Status)
      requires Readable(Mem, bin)
      ensures BinVerdict(Mem, bin, status)
    {
      if Mem[bin] != HV_HBIN_SIGNATURE {
        return BinSignatureHeaderCorrupt;
      }
      var cell := bin + 32;
      ghost var cells: seq<nat> := [cell];
      WalkStarts(Mem, bin);
      hide CellWalk;
      while cell < bin + Mem[bin + 8]
        invariant |cells| > 0 && cells[|cells| - 1] == cell && CellWalk(Mem, bin, cells)
        decreases bin + Mem[bin + 8] - cell
      {
        if Mem[cell] >= 0 {
          if Mem[cell] > Mem[bin + 8] || Mem[cell] == 0 {
            return BadFreeCell;
          }
        } else if Abs(Mem[cell]) > Mem[bin + 8] {
          return BadAllocCell;
        }
        WalkGoesOn(Mem, bin, cells);
        cell := cell + Abs(Mem[cell]);
        cells := cells + [cell];
      }
      status := Good;
    }

    /** HvValidateHive, of one storage, on any memory: bin by bin. */
    method ValidateHive() returns (status: Status)
      requires AllReadable(BlockList, Mem)
      ensures StorageVerdict(BlockList, Mem, status)
    {
      var blockIndex := 0;
      ghost var ks: seq<nat> := [0];
      BinsStart(BlockList, Mem);
      hide BinWalk, BinVerdict, Readable;
      while blockIndex < |BlockList|
        invariant |ks| > 0 && ks[|ks| - 1] == blockIndex && BinWalk(BlockList, Mem, ks)
        decreases |BlockList| - blockIndex
      {
        assert BlockReadable(BlockList, Mem, blockIndex);
        var bin := BlockList[blockIndex].BinAddress;
        if Mem[bin + 8] > |BlockList| * 4096 || Mem[bin + 4] / 4096 != blockIndex {
          return BinSizeOrOffsetCorrupt;
        }
        status := ValidateBin(bin);
        if status != Good {
          return;
        }
        BinsGoOn(BlockList, Mem, ks, blockIndex + Mem[bin + 8] / 4096);
        blockIndex := blockIndex + Mem[bin + 8] / 4096;
        ks := ks + [blockIndex];
      }
      status := Good;
    }
  }
}
