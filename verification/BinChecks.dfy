/** What the check of a hive's bins looks for: cell by cell in a bin, and bin by bin in a storage.  The memory
    may hold anything. */
module BinChecks {
  import opened Cells

  datatype Status = Good | BinSignatureHeaderCorrupt | BadFreeCell | BadAllocCell | BinSizeOrOffsetCorrupt

  // ----- the cells of a bin

  function Size(mem: Mem, bin: nat): int { if bin + 8 in mem then mem[bin + 8] else 0 }

  /** A cell is not empty, and not larger than its bin. */
  predicate Fits(mem: Mem, bin: nat, c: nat)
  {
    c in mem && mem[c] != 0 && Abs(mem[c]) <= Size(mem, bin)
  }

  /** From cell i the walk goes on to cell i + 1. */
  ghost predicate NextCell(mem: Mem, bin: nat, cells: seq<nat>, i: nat)
    requires i + 1 < |cells|
  {
    cells[i] < bin + Size(mem, bin) && Fits(mem, bin, cells[i]) && cells[i + 1] == cells[i] + Abs(mem[cells[i]])
  }

  /** The cells that follow one another from the first cell of a bin on. */
  ghost predicate CellWalk(mem: Mem, bin: nat, cells: seq<nat>)
  {
    && |cells| > 0 && cells[0] == bin + 32
    && forall i: nat {:trigger NextCell(mem, bin, cells, i)} :: i + 1 < |cells| ==> NextCell(mem, bin, cells, i)
  }

  /** A walk that ends at c ends with this verdict. */
  ghost predicate CellVerdict(mem: Mem, bin: nat, c: nat, status: Status)
  {
    if c >= bin + Size(mem, bin) then status == Good
    else !Fits(mem, bin, c) && c in mem && status == if mem[c] >= 0 then BadFreeCell else BadAllocCell
  }

  /** The verdict on a bin. */
  ghost predicate BinVerdict(mem: Mem, bin: nat, status: Status)
    requires bin in mem
  {
    if mem[bin] != HV_HBIN_SIGNATURE then status == BinSignatureHeaderCorrupt
    else exists cells :: CellWalk(mem, bin, cells) && CellVerdict(mem, bin, cells[|cells| - 1], status)
  }

  /** What the walk over a bin reads is there: memory is modelled by whole words. */
  ghost predicate Readable(mem: Mem, bin: nat)
  {
    && bin in mem && bin + 8 in mem
    && forall cells {:trigger CellWalk(mem, bin, cells)} :: CellWalk(mem, bin, cells) ==>
         cells[|cells| - 1] < bin + Size(mem, bin) ==> cells[|cells| - 1] in mem
  }

  /** Two walks over a bin are the same as far as both go. */
  lemma {:induction false} CellWalksAgree(mem: Mem, bin: nat, a: seq<nat>, b: seq<nat>, i: nat)
    requires CellWalk(mem, bin, a) && CellWalk(mem, bin, b) && i < |a| && i < |b|
    ensures a[i] == b[i]
  {
    if i > 0 {
      CellWalksAgree(mem, bin, a, b, i - 1);
      assert NextCell(mem, bin, a, i - 1) && NextCell(mem, bin, b, i - 1);
    }
  }

  /** A bin has one verdict. */
  lemma OneBinVerdict(mem: Mem, bin: nat, s: Status, t: Status)
    requires bin in mem && BinVerdict(mem, bin, s) && BinVerdict(mem, bin, t)
    ensures s == t
  {
    if mem[bin] == HV_HBIN_SIGNATURE {
      var a :| CellWalk(mem, bin, a) && CellVerdict(mem, bin, a[|a| - 1], s);
      var b :| CellWalk(mem, bin, b) && CellVerdict(mem, bin, b[|b| - 1], t);
      var n := if |a| < |b| then |a| else |b|;
      CellWalksAgree(mem, bin, a, b, n - 1);
      if n < |a| { assert NextCell(mem, bin, a, n - 1); }
      if n < |b| { assert NextCell(mem, bin, b, n - 1); }
    }
  }

  lemma WalkStarts(mem: Mem, bin: nat)
    ensures CellWalk(mem, bin, [bin + 32])
  {
  }

  lemma WalkGoesOn(mem: Mem, bin: nat, cells: seq<nat>)
    requires CellWalk(mem, bin, cells) && cells[|cells| - 1] < bin + Size(mem, bin) && Fits(mem, bin, cells[|cells| - 1])
    ensures CellWalk(mem, bin, cells + [cells[|cells| - 1] + Abs(mem[cells[|cells| - 1]])])
  {
    var more := cells + [cells[|cells| - 1] + Abs(mem[cells[|cells| - 1]])];
    forall i: nat | i + 1 < |more| ensures NextCell(mem, bin, more, i) {
      if i + 1 < |cells| { assert NextCell(mem, bin, cells, i); }
    }
  }

  // ----- the bins of a storage

  /** The bin of a block is larger than the storage, or says that it belongs elsewhere. */
  predicate Misplaced(blocks: seq<MapEntry>, mem: Mem, k: nat)
    requires k < |blocks|
  {
    var bin := blocks[k].BinAddress;
    Size(mem, bin) > 4096 * |blocks| || (bin + 4 in mem && mem[bin + 4] / 4096 != k)
  }

  ghost predicate NextBin(blocks: seq<MapEntry>, mem: Mem, ks: seq<nat>, i: nat)
    requires i + 1 < |ks|
  {
    && ks[i] < |blocks| && !Misplaced(blocks, mem, ks[i]) && blocks[ks[i]].BinAddress in mem
    && BinVerdict(mem, blocks[ks[i]].BinAddress, Good)
    && ks[i + 1] == ks[i] + Size(mem, blocks[ks[i]].BinAddress) / 4096
  }

  /** The blocks at which bins that follow one another start, all of them good but perhaps the last. */
  ghost predicate BinWalk(blocks: seq<MapEntry>, mem: Mem, ks: seq<nat>)
  {
    && |ks| > 0 && ks[0] == 0
    && forall i: nat {:trigger NextBin(blocks, mem, ks, i)} :: i + 1 < |ks| ==> NextBin(blocks, mem, ks, i)
  }

  ghost predicate BlockVerdict(blocks: seq<MapEntry>, mem: Mem, k: nat, status: Status)
  {
    if k >= |blocks| then status == Good
    else if Misplaced(blocks, mem, k) then status == BinSizeOrOffsetCorrupt
    else status != Good && blocks[k].BinAddress in mem && BinVerdict(mem, blocks[k].BinAddress, status)
  }

  /** The verdict on a storage. */
  ghost predicate StorageVerdict(blocks: seq<MapEntry>, mem: Mem, status: Status)
  {
    exists ks :: BinWalk(blocks, mem, ks) && BlockVerdict(blocks, mem, ks[|ks| - 1], status)
  }

  /** What the walk over a storage reads is there.  A bin that passes for one covers a block at least: over a
      smaller one the source's loop does not end. */
  ghost predicate BlockReadable(blocks: seq<MapEntry>, mem: Mem, k: nat)
    requires k < |blocks|
  {
    var bin := blocks[k].BinAddress;
    && bin + 8 in mem && bin + 4 in mem && mem[bin + 4] >= 0
    && (!Misplaced(blocks, mem, k) ==> Readable(mem, bin) && mem[bin + 8] >= 4096)
  }

  ghost predicate AllReadable(blocks: seq<MapEntry>, mem: Mem)
  {
    forall k {:trigger BlockReadable(blocks, mem, k)} :: 0 <= k < |blocks| ==> BlockReadable(blocks, mem, k)
  }

  lemma {:induction false} BinWalksAgree(blocks: seq<MapEntry>, mem: Mem, a: seq<nat>, b: seq<nat>, i: nat)
    requires BinWalk(blocks, mem, a) && BinWalk(blocks, mem, b) && i < |a| && i < |b|
    ensures a[i] == b[i]
  {
    if i > 0 {
      BinWalksAgree(blocks, mem, a, b, i - 1);
      assert NextBin(blocks, mem, a, i - 1) && NextBin(blocks, mem, b, i - 1);
    }
  }

  /** A storage has one verdict. */
  lemma OneStorageVerdict(blocks: seq<MapEntry>, mem: Mem, s: Status, t: Status)
    requires StorageVerdict(blocks, mem, s) && StorageVerdict(blocks, mem, t)
    ensures s == t
  {
    var a :| BinWalk(blocks, mem, a) && BlockVerdict(blocks, mem, a[|a| - 1], s);
    var b :| BinWalk(blocks, mem, b) && BlockVerdict(blocks, mem, b[|b| - 1], t);
    var n := if |a| < |b| then |a| else |b|;
    BinWalksAgree(blocks, mem, a, b, n - 1);
    var k := a[n - 1];
    if n < |a| {
      assert NextBin(blocks, mem, a, n - 1);
      OneBinVerdict(mem, blocks[k].BinAddress, Good, t);
    } else if n < |b| {
      assert NextBin(blocks, mem, b, n - 1);
      OneBinVerdict(mem, blocks[k].BinAddress, Good, s);
    } else if k < |blocks| && !Misplaced(blocks, mem, k) {
      OneBinVerdict(mem, blocks[k].BinAddress, s, t);
    }
  }

  lemma BinsStart(blocks: seq<MapEntry>, mem: Mem)
    ensures BinWalk(blocks, mem, [0])
  {
  }

  lemma BinsGoOn(blocks: seq<MapEntry>, mem: Mem, ks: seq<nat>, k: nat)
    requires BinWalk(blocks, mem, ks) && ks[|ks| - 1] < |blocks| && !Misplaced(blocks, mem, ks[|ks| - 1])
    requires blocks[ks[|ks| - 1]].BinAddress in mem && BinVerdict(mem, blocks[ks[|ks| - 1]].BinAddress, Good)
    requires k == ks[|ks| - 1] + Size(mem, blocks[ks[|ks| - 1]].BinAddress) / 4096
    ensures BinWalk(blocks, mem, ks + [k])
  {
    var more := ks + [k];
    forall i: nat | i + 1 < |more| ensures NextBin(blocks, mem, more, i) {
      if i + 1 < |ks| { assert NextBin(blocks, mem, ks, i); }
    }
  }
}
