/** What each step of the allocator does to the layout, the lists and the cells in use. */
module AllocatorSteps {
  import opened BinChecks
  import opened Cells
  import opened FreeLists
  import opened Payload
  import opened Storage

  // ROUND_UP, to the granularity of cells and to that of bins.

  function RoundUp16(a: nat): nat { (a + 15) / 16 * 16 }

  function RoundUp4096(a: nat): nat { (a + 4095) / 4096 * 4096 }

  /** Cells in frees are free, and their words and links exist. */
  lemma FreeFacts(kind: nat, blocks: seq<MapEntry>, mem: Mem, l: Layout, frees: set<nat>, c: nat)
    requires Sound(blocks, mem, l) && |blocks| <= 0x7FFFF && kind < 2 && frees <= Frees(mem, l) && c in frees
    ensures c in l.cells && Sized(mem, c) && mem[c] == l.cells[c].size && Index(kind, c) != HCELL_NIL && OffsetOf(Index(kind, c)) == c && c < 0x8000_0000
    ensures c / 4096 < |blocks| && l.cells[c].bin in l.bins && c + mem[c] <= l.bins[l.cells[c].bin]
  {
    CellBacked(blocks, mem, l, c);
    BinOfCell(blocks, mem, l, c);
    assert l.CellOk(c);
  }

  /** The free cells that start below a. */
  ghost function FreesBelow(mem: Mem, l: Layout, a: nat): set<nat>
  {
    set c | c in Frees(mem, l) && c < a
  }

  /** The start of the storage, or the end of a bin. */
  ghost predicate Boundary(l: Layout, a: nat)
  {
    a == 0 || exists b :: b in l.bins && l.bins[b] == a
  }

  /** A cell of the bin, or its end. */
  ghost predicate InBin(l: Layout, bin: nat, a: nat)
    requires bin in l.bins
  {
    (a in l.cells && l.cells[a].bin == bin) || a == l.bins[bin]
  }

  lemma EmptyLists(kind: nat, mem: Mem)
    ensures Listed(kind, seq(24, k => HCELL_NIL), mem, {}, seq(24, k => []))
  {
  }

  lemma NothingBelow(blocks: seq<MapEntry>, mem: Mem, l: Layout)
    ensures FreesBelow(mem, l, 0) == {} && Boundary(l, 0)
  {
  }

  lemma AllBelow(blocks: seq<MapEntry>, mem: Mem, l: Layout)
    requires Sound(blocks, mem, l)
    ensures FreesBelow(mem, l, 4096 * |blocks|) == Frees(mem, l)
  {
    forall c | c in Frees(mem, l) ensures c < 4096 * |blocks| { assert l.CellOk(c) && HeaderAt(blocks, mem, l, l.cells[c].bin); }
  }

  /** Where a bin ends, the next one starts. */
  lemma BinAtBoundary(blocks: seq<MapEntry>, mem: Mem, l: Layout, k: nat)
    requires Sound(blocks, mem, l) && k < |blocks| && Boundary(l, 4096 * k)
    ensures blocks[k].BinAddress == 4096 * k && 4096 * k in l.bins
    ensures 4096 * k + 4 in mem && mem[4096 * k + 4] == 4096 * k
    ensures 4096 * k + 8 in mem && 0 < mem[4096 * k + 8] <= 4096 * |blocks|
  {
    assert EntryAt(blocks, l, k);
    var b := blocks[k].BinAddress;
    assert HeaderAt(blocks, mem, l, b) && l.BinOk(b);
    if k > 0 {
      var p :| p in l.bins && l.bins[p] == 4096 * k;
      assert l.BinsApart(p, b) && l.BinsApart(b, p) && l.BinOk(p);
    }
  }

  lemma HeaderFacts(blocks: seq<MapEntry>, mem: Mem, l: Layout, bin: nat)
    requires Sound(blocks, mem, l) && bin in l.bins
    ensures bin in mem && mem[bin] == HV_HBIN_SIGNATURE && bin + 8 in mem && mem[bin + 8] == l.bins[bin] - bin
    ensures InBin(l, bin, bin + 32) && FreesBelow(mem, l, bin + 32) == FreesBelow(mem, l, bin)
  {
    assert HeaderAt(blocks, mem, l, bin) && l.BinOk(bin);
    forall c | c in Frees(mem, l) && c < bin + 32 ensures c < bin {
      assert l.CellOk(c);
      if bin <= c { BinOutside(l, bin, c, c); }
    }
  }

  lemma BinDone(blocks: seq<MapEntry>, mem: Mem, l: Layout, bin: nat)
    requires Sound(blocks, mem, l) && bin in l.bins
    ensures bin + 8 in mem && mem[bin + 8] / 4096 > 0 && bin % 4096 == 0 && l.bins[bin] <= 4096 * |blocks|
    ensures Boundary(l, l.bins[bin]) && 4096 * (bin / 4096 + mem[bin + 8] / 4096) == l.bins[bin]
  {
    assert HeaderAt(blocks, mem, l, bin) && l.BinOk(bin);
  }

  /** The next word to look at in a bin is the header of one of its cells, and the one behind it is too. */
  lemma CellInBin(blocks: seq<MapEntry>, mem: Mem, l: Layout, bin: nat, c: nat)
    requires Sound(blocks, mem, l) && bin in l.bins && InBin(l, bin, c) && c < l.bins[bin]
    ensures c in l.cells && c in mem && 0 < Abs(mem[c]) <= l.bins[bin] - bin && c + Abs(mem[c]) == l.After(c)
    ensures InBin(l, bin, l.After(c)) && c !in FreesBelow(mem, l, c) && l.After(c) <= l.bins[bin]
    ensures FreesBelow(mem, l, c) <= Frees(mem, l)
    ensures if mem[c] > 0 then c in Frees(mem, l) && FreesBelow(mem, l, l.After(c)) == FreesBelow(mem, l, c) + {c}
            else FreesBelow(mem, l, l.After(c)) == FreesBelow(mem, l, c)
  {
    assert SizeAt(mem, l, c) && l.CellOk(c) && l.Followed(c);
    forall d | d in Frees(mem, l) && c < d ensures l.After(c) <= d { assert l.Apart(c, d); }
  }

  lemma EndOfBin(blocks: seq<MapEntry>, mem: Mem, l: Layout, bin: nat, a: nat)
    requires Sound(blocks, mem, l) && bin in l.bins && InBin(l, bin, a) && a >= l.bins[bin]
    ensures a == l.bins[bin]
  {
    if a in l.cells { assert l.CellOk(a); }
  }

  lemma SameBelow(mem: Mem, mem': Mem, l: Layout, a: nat)
    requires exists frees :: LinksChanged(mem, mem', l, frees)
    ensures FreesBelow(mem', l, a) == FreesBelow(mem, l, a)
  {
  }

  lemma LinksChangedTwice(mem: Mem, mem1: Mem, mem2: Mem, l: Layout, frees: set<nat>, frees1: set<nat>)
    requires LinksChanged(mem, mem1, l, frees) && LinksChanged(mem1, mem2, l, frees1) && frees1 <= frees
    ensures LinksChanged(mem, mem2, l, frees)
  {
    forall c | c in l.cells && c !in frees ensures Kept(mem, mem2, c) { assert Kept(mem, mem1, c) && Kept(mem1, mem2, c); }
  }

  /** The bytes a cell in use has room for: HvGetCellSize. */
  function Capacity(mem: Mem, c: nat): nat
  {
    if c in mem && mem[c] <= -4 then -mem[c] - 4 else 0
  }

  function Min(a: nat, b: nat): nat { if a < b then a else b }

  /** Cell c has become cell c', with room for size bytes and c's first bytes, as many as fit; every other
      cell in use is untouched. */
  ghost predicate Moved(mem: Mem, live: set<nat>, mem': Mem, live': set<nat>, c: nat, c': nat, size: nat)
  {
    && c in live && live' == live - {c} + {c'} && (c' == c || c' !in live)
    && Capacity(mem', c') >= size && AllKept(mem, mem', live - {c})
    && SameBytes(mem, c + 4, mem', c' + 4, Min(size, Capacity(mem, c)))
  }

  lemma NothingMoved(mem: Mem, live: set<nat>, c: nat, size: nat)
    requires c in live && AllKept(mem, mem, live)
    ensures size <= Capacity(mem, c) ==> Moved(mem, live, mem, live, c, c, size)
  {
    assert live - {c} + {c} == live;
  }

  lemma LiveCell(kind: nat, blocks: seq<MapEntry>, mem: Mem, l: Layout, c: nat)
    requires Sound(blocks, mem, l) && c in Live(mem, l) && kind < 2 && |blocks| <= 0x7FFFF
    ensures AllKept(mem, mem, Live(mem, l)) && Index(kind, c) != HCELL_NIL
  {
    CellBacked(blocks, mem, l, c);
    BinOfCell(blocks, mem, l, c);
  }

  lemma AllocatedNew(mem: Mem, l: Layout, mem': Mem, l': Layout, c': nat, c: nat, size: nat)
    requires Allocated(mem, l, mem', l', c', size) && c in Live(mem, l) && AllKept(mem, mem', Live(mem, l))
    ensures Capacity(mem', c) == Capacity(mem, c) && Live(mem', l') - {c'} == Live(mem, l)
    ensures c' != c && c' !in Live(mem, l) && Live(mem', l') == Live(mem, l) + {c'}
    ensures c' in Live(mem', l') && c in Live(mem', l') && Capacity(mem', c') >= size && c' in mem'
  {
    RoundedCell(size);
    assert Kept(mem, mem', c);
  }

  lemma OwnWords(blocks: seq<MapEntry>, mem: Mem, l: Layout, c: nat, n: nat)
    requires Sound(blocks, mem, l) && c in Live(mem, l) && n <= Capacity(mem, c)
    ensures HasWords(mem, c + 4, (n + 3) / 4) && (c + 4) % 4 == 0
  {
    CellBacked(blocks, mem, l, c);
  }

  lemma WordInBody(blocks: seq<MapEntry>, mem: Mem, l: Layout, c: nat, k: nat)
    requires Sound(blocks, mem, l) && c in Live(mem, l) && 4 * k + 4 <= Capacity(mem, c)
    ensures c + 4 + 4 * k in mem && c + 4 + 4 * k < c + Abs(mem[c])
  {
    CellBacked(blocks, mem, l, c);
  }

  /** Two cells in use do not overlap, and have their words. */
  lemma Separate(blocks: seq<MapEntry>, mem: Mem, l: Layout, c: nat, c': nat, n: nat)
    requires Sound(blocks, mem, l) && c in Live(mem, l) && c' in Live(mem, l) && c != c'
    requires n <= Capacity(mem, c) && n <= Capacity(mem, c')
    ensures HasWords(mem, c + 4, (n + 3) / 4) && HasWords(mem, c' + 4, (n + 3) / 4)
    ensures c + 4 + n <= c' + 4 || c' + 4 + n <= c + 4
    ensures (c + 4) % 4 == (c' + 4) % 4 == 0 && c' + 4 + n <= c' + Abs(mem[c'])
  {
    OwnWords(blocks, mem, l, c, n);
    OwnWords(blocks, mem, l, c', n);
    hide HasWords;
    CellBacked(blocks, mem, l, c);
    CellBacked(blocks, mem, l, c');
    assert l.Apart(c, c') && l.Apart(c', c);
  }

  lemma KeptBytes(mem: Mem, mem': Mem, c: nat, n: nat)
    requires Kept(mem, mem', c) && n <= Capacity(mem, c) && HasWords(mem, c + 4, (n + 3) / 4)
    ensures SameBytes(mem, c + 4, mem', c + 4, n)
  {
    forall k {:trigger Word(mem', c + 4, k)} | 0 <= k < (n + 3) / 4 ensures Word(mem', c + 4, k) == Word(mem, c + 4, k) {
      assert Word(mem, c + 4, k) == if c + 4 + 4 * k in mem then mem[c + 4 + 4 * k] else 0;
    }
    hide Kept;
    BytesOfWords(mem, c + 4, mem', c + 4, n);
  }

  lemma SameBytesTwice(mem: Mem, a: nat, mem': Mem, a': nat, mem'': Mem, a'': nat, n: nat)
    requires SameBytes(mem, a, mem', a', n) && SameBytes(mem', a', mem'', a'', n)
    ensures SameBytes(mem, a, mem'', a'', n)
  {
    hide ByteAt;
    forall i | 0 <= i < n ensures ByteAt(mem'', a'', i) == ByteAt(mem, a, i) { assert ByteAt(mem', a', i) == ByteAt(mem, a, i); }
  }

  /** Allocated, copied and freed: moved. */
  lemma MovedBytes(mem: Mem, mem1: Mem, mem2: Mem, mem3: Mem, live: set<nat>, c: nat, c': nat, n: nat, size: nat)
    requires c in live && c' !in live && AllKept(mem, mem1, live) && AllKept(mem1, mem2, live) && AllKept(mem2, mem3, live - {c} + {c'})
    requires HasWords(mem, c + 4, (n + 3) / 4) && HasWords(mem2, c' + 4, (n + 3) / 4)
    requires SameBytes(mem1, c + 4, mem2, c' + 4, n)
    requires c' in mem2 && Capacity(mem2, c') >= size >= n == Min(size, Capacity(mem, c))
    ensures Moved(mem, live, mem3, live - {c} + {c'}, c, c', size)
  {
    hide SameBytes, HasWords;
    forall d | d in live - {c} ensures Kept(mem, mem3, d) {
      assert Kept(mem, mem1, d) && Kept(mem1, mem2, d) && Kept(mem2, mem3, d);
    }
    assert Kept(mem, mem1, c) && Kept(mem2, mem3, c');
    KeptBytes(mem, mem1, c, n);
    KeptBytes(mem2, mem3, c', n);
    SameBytesTwice(mem, c + 4, mem1, c + 4, mem2, c' + 4, n);
    SameBytesTwice(mem, c + 4, mem2, c' + 4, mem3, c' + 4, n);
  }

  /** A freed cell: every other cell is as before, and the lists hold the cells that were free. */
  lemma Freed(kind: nat, blocks: seq<MapEntry>, display: seq<int>, mem: Mem, l: Layout, lists: seq<seq<nat>>, c: nat)
    requires Sound(blocks, mem, l) && Coalesced(mem, l) && Listed(kind, display, mem, Frees(mem, l), lists) && c in Live(mem, l)
    ensures c in mem
    ensures var mem' := mem[c := -mem[c]];
      && Sound(blocks, mem', l) && c in Frees(mem', l) && Listed(kind, display, mem', Frees(mem', l) - {c}, lists)
      && CoalescedBut(mem', l, c) && Live(mem', l) == Live(mem, l) - {c} && AllKept(mem, mem', Live(mem, l) - {c})
  {
    var mem' := mem[c := -mem[c]];
    SignChanged(blocks, mem, l, c);
    hide Sound, Listed, Coalesced;
    assert Frees(mem', l) - {c} == Frees(mem, l);
    KeptLists(kind, display, mem, mem', l, Frees(mem, l), lists);
    FreedBut(mem, mem', l, c);
  }

  lemma LinksKeepAll(mem: Mem, mem': Mem, l: Layout)
    requires exists frees :: frees <= Frees(mem, l) && LinksChanged(mem, mem', l, frees)
    ensures Frees(mem', l) == Frees(mem, l) && Live(mem', l) == Live(mem, l) && AllKept(mem, mem', Live(mem, l))
    ensures forall c {:trigger mem'[c]} :: c in Frees(mem, l) ==> c in mem' && mem'[c] == mem[c]
  {
  }

  lemma SameFrees(mem: Mem, mem': Mem, l: Layout, c: nat)
    requires Frees(mem', l) == Frees(mem, l) && CoalescedBut(mem, l, c) && c in l.cells
    ensures CoalescedBut(mem', l, c) && (NotBoth(mem, l, c) ==> NotBoth(mem', l, c))
  {
    forall d | d in l.cells && d != c && l.After(d) != c ensures NotBoth(mem', l, d) { assert NotBoth(mem, l, d); }
  }

  /** The word behind a cell that is not its bin's last is the header of the next. */
  lemma Behind(blocks: seq<MapEntry>, mem: Mem, l: Layout, c: nat)
    requires Sound(blocks, mem, l) && c in Frees(mem, l)
    ensures l.cells[c].bin in l.bins
    ensures if c + mem[c] < l.bins[l.cells[c].bin] && c + mem[c] in mem && mem[c + mem[c]] > 0
            then l.After(c) in Frees(mem, l) else NotBoth(mem, l, c)
    ensures c + mem[c] == l.After(c) && (c + mem[c] < l.bins[l.cells[c].bin] ==> c + mem[c] in mem)
  {
    assert SizeAt(mem, l, c) && l.CellOk(c) && l.Followed(c);
    if l.After(c) in l.cells { assert SizeAt(mem, l, l.After(c)) && l.CellOk(l.After(c)); }
  }

  lemma ForwardMerged(kind: nat, blocks: seq<MapEntry>, display: seq<int>, mem: Mem, l: Layout, lists: seq<seq<nat>>, c: nat)
    requires Sound(blocks, mem, l) && c in Frees(mem, l) && l.After(c) in Frees(mem, l) && CoalescedBut(mem, l, c)
    requires Listed(kind, display, mem, Frees(mem, l) - {c} - {l.After(c)}, lists)
    ensures var mem', l' := mem[c := mem[c] + mem[l.After(c)]], l.Merge(c);
      && Sound(blocks, mem', l') && c in Frees(mem', l') && Listed(kind, display, mem', Frees(mem', l') - {c}, lists)
      && CoalescedBut(mem', l', c) && NotBoth(mem', l', c)
      && Live(mem', l') == Live(mem, l) && AllKept(mem, mem', Live(mem, l))
  {
    var mem', l' := mem[c := mem[c] + mem[l.After(c)]], l.Merge(c);
    MergeSound(blocks, mem, l, c);
    hide Sound, Listed;
    MergedForward(blocks, mem, l, c, mem');
    assert Frees(mem', l') - {c} == Frees(mem, l) - {c} - {l.After(c)};
    hide CoalescedBut, NotBoth;
    KeptLists(kind, display, mem, mem', l, Frees(mem', l') - {c}, lists);
  }

  lemma BackwardMerged(kind: nat, blocks: seq<MapEntry>, display: seq<int>, mem: Mem, l: Layout, lists: seq<seq<nat>>, p: nat, c: nat)
    requires Sound(blocks, mem, l) && p in Frees(mem, l) && c in Frees(mem, l) && l.After(p) == c
    requires CoalescedBut(mem, l, c) && NotBoth(mem, l, c) && mem[p] >= 16 && mem[c] >= 16
    ensures var mem', l' := mem[p := mem[p] + mem[c]], l.Merge(p);
      && Sound(blocks, mem', l') && p in Frees(mem', l') && Coalesced(mem', l')
      && Live(mem', l') == Live(mem, l) && AllKept(mem, mem', Live(mem, l))
      && (Listed(kind, display, mem, Frees(mem, l) - {c} - {p}, lists) ==> Listed(kind, display, mem', Frees(mem', l') - {p}, lists))
      && (Listed(kind, display, mem, Frees(mem, l) - {c}, lists) && FreeListIndex(mem[p]) == FreeListIndex(mem[p] + mem[c]) ==>
          Listed(kind, display, mem', Frees(mem', l'), lists))
  {
    var mem', l' := mem[p := mem[p] + mem[c]], l.Merge(p);
    MergeSound(blocks, mem, l, p);
    hide Sound, Listed, FreeListIndex;
    MergedBackward(blocks, mem, l, p, c, mem');
    hide Coalesced, CoalescedBut, NotBoth;
    assert Frees(mem', l') - {p} == Frees(mem, l) - {c} - {p};
    if Listed(kind, display, mem, Frees(mem, l) - {c} - {p}, lists) {
      KeptLists(kind, display, mem, mem', l, Frees(mem', l') - {p}, lists);
    }
    if Listed(kind, display, mem, Frees(mem, l) - {c}, lists) && FreeListIndex(mem[p]) == FreeListIndex(mem[p] + mem[c]) {
      Grown(kind, display, mem, Frees(mem, l) - {c}, lists, p, mem[p] + mem[c]);
    }
  }

  /** No free cell below n ends where c starts. */
  ghost predicate NoneBefore(mem: Mem, l: Layout, c: nat, n: nat)
  {
    forall q {:trigger l.After(q)} :: q in l.cells && q in Frees(mem, l) && l.After(q) == c ==> q >= n
  }

  lemma FirstOfBin(mem: Mem, l: Layout, c: nat)
    requires l.Tiled() && c in l.cells
    ensures var n := l.cells[c].bin + 32; n in l.cells && l.cells[n].bin == l.cells[c].bin && n <= c && NoneBefore(mem, l, c, n)
  {
    assert l.CellOk(c) && l.BinOk(l.cells[c].bin);
    forall q | q in l.cells && q in Frees(mem, l) && l.After(q) == c ensures q >= l.cells[c].bin + 32 {
      assert l.CellOk(q) && l.Followed(q);
    }
  }

  lemma WalkStep(blocks: seq<MapEntry>, mem: Mem, l: Layout, n: nat, c: nat)
    requires Sound(blocks, mem, l) && n in l.cells && c in l.cells && l.cells[n].bin == l.cells[c].bin && n < c && NoneBefore(mem, l, c, n)
    ensures n in mem && mem[n] != 0 && (n in Frees(mem, l) <==> mem[n] > 0)
    ensures var m := n + Abs(mem[n]); m == l.After(n) && n < m <= c && m in l.cells && l.cells[m].bin == l.cells[c].bin
    ensures !(mem[n] > 0 && n + mem[n] == c) ==> NoneBefore(mem, l, c, n + Abs(mem[n]))
  {
    assert SizeAt(mem, l, n) && l.CellOk(n) && l.Followed(n) && l.CellOk(c) && l.Apart(n, c);
    forall q | q in l.cells && q in Frees(mem, l) && l.After(q) == c && !(mem[n] > 0 && n + mem[n] == c) ensures q >= n + Abs(mem[n]) {
      assert l.Apart(n, q);
    }
  }

  lemma WalkEnd(blocks: seq<MapEntry>, mem: Mem, l: Layout, c: nat)
    requires Sound(blocks, mem, l) && c in l.cells && NoneBefore(mem, l, c, c)
    ensures forall q {:trigger l.After(q)} :: q in l.cells && q in Frees(mem, l) ==> l.After(q) != c
  {
    forall q | q in l.cells && q in Frees(mem, l) ensures l.After(q) != c { assert l.CellOk(q); }
  }

  /** A word still to be copied is not overwritten yet, and copying it changes none of those copied. */
  lemma CopiedWord(mem: Mem, from: nat, mem': Mem, to: nat, k: nat, n: nat, v: int)
    requires HasWords(mem, to, (n + 3) / 4) && HasWords(mem, from, (n + 3) / 4) && k < (n + 3) / 4
    requires (to + n <= from || from + n <= to) && to % 4 == from % 4 == 0
    requires mem'.Keys == mem.Keys && SameWords(mem, from, mem', to, k)
    requires forall a {:trigger mem'[a]} :: a in mem' && !(to <= a < to + 4 * k) ==> mem'[a] == mem[a]
    ensures to + 4 * k in mem' && from + 4 * k in mem' && mem'[from + 4 * k] == mem[from + 4 * k] && mem'[to + 4 * k] == mem[to + 4 * k]
    ensures SameWords(mem, from, mem'[to + 4 * k := v], to, k)
    ensures v == mem[from + 4 * k] ==> SameWords(mem, from, mem'[to + 4 * k := v], to, k + 1)
  {
    assert Word(mem, to, k) == if to + 4 * k in mem then mem[to + 4 * k] else 0;
    assert Word(mem, from, k) == if from + 4 * k in mem then mem[from + 4 * k] else 0;
    forall j | 0 <= j < k ensures Word(mem'[to + 4 * k := v], to, j) == Word(mem, from, j) {
      assert Word(mem', to, j) == Word(mem, from, j);
    }
  }

  lemma NoneCopied(mem: Mem, from: nat, to: nat)
    ensures SameWords(mem, from, mem, to, 0)
  {
  }

  lemma CopiedBytes(mem: Mem, from: nat, mem': Mem, to: nat, n: nat)
    requires SameWords(mem, from, mem', to, n / 4) && mem'.Keys == mem.Keys
    requires n % 4 != 0 ==> to + n / 4 * 4 in mem && from + n / 4 * 4 in mem
    requires n % 4 != 0 ==> mem'[to + n / 4 * 4] == Overwritten(mem[to + n / 4 * 4], mem[from + n / 4 * 4], n % 4)
    ensures SameBytes(mem, from, mem', to, n)
  {
    hide Byte, Overwritten;
    forall j | 0 <= j < n % 4 ensures Byte(Word(mem', to, n / 4), j) == Byte(Word(mem, from, n / 4), j) {
      OverwrittenBytes(mem[to + n / 4 * 4], mem[from + n / 4 * 4], n % 4, j);
    }
    BytesOfWords(mem, from, mem', to, n);
  }

  lemma NextWord(a: nat)
    requires a % 4 == 0
    ensures (a + 4) % 4 == 0
    ensures forall b: nat {:trigger b % 4} :: b % 4 == 0 ==> (b < a + 4 <==> b <= a)
    ensures forall n: nat {:trigger n % 4} :: n % 4 == 0 ==> (a < n <==> a + 4 <= n)
  {
  }

  lemma RoundedCell(size: nat)
    ensures CellSize(size) % 16 == 0 && CellSize(size) >= 16 && size + 4 <= CellSize(size) < size + 20
  {
    RoundedUp16(size + 4);
  }

  /** The source's rounding: room for the header, in units of 16 bytes. */
  function CellSize(size: nat): nat { RoundUp16(size + 4) }

  /** A cell now in use that was not before: nothing else came into use, its words are zero, and it is as
      large as needed, or 16 bytes larger. */
  ghost predicate Allocated(mem: Mem, l: Layout, mem': Mem, l': Layout, c: nat, size: nat)
  {
    && c !in Live(mem, l) && c in mem' && Live(mem', l') == Live(mem, l) + {c}
    && -mem'[c] in {CellSize(size), CellSize(size) + 16}
    && forall a {:trigger mem'[a]} :: a in mem' && c + 4 <= a < c + CellSize(size) && a % 4 == 0 ==> mem'[a] == 0
  }

  lemma NothingChanged(blocks: seq<MapEntry>, mem: Mem, l: Layout)
    requires Sound(blocks, mem, l)
    ensures AllKept(mem, mem, Live(mem, l))
  {
  }

  lemma AllKeptTwice(mem: Mem, mem1: Mem, mem2: Mem, cells: set<nat>)
    requires AllKept(mem, mem1, cells) && AllKept(mem1, mem2, cells)
    ensures AllKept(mem, mem2, cells)
  {
    forall d | d in cells ensures Kept(mem, mem2, d) { assert Kept(mem, mem1, d) && Kept(mem1, mem2, d); }
  }

  lemma FoundFree(mem: Mem, mem': Mem, l: Layout, frees: set<nat>, c: nat)
    requires frees == Frees(mem, l) && LinksChanged(mem, mem', l, frees) && c in frees && Coalesced(mem, l)
    ensures c in Frees(mem', l) && Frees(mem', l) == frees && Live(mem', l) == Live(mem, l) && Coalesced(mem', l)
    ensures AllKept(mem, mem', Live(mem, l)) && c !in Live(mem, l) && c in mem && c in mem' && mem'[c] == mem[c]
  {
    FewerFreesCoalesced(mem, mem', l);
  }

  /** The sign of a free cell that is on no list. */
  lemma Claimed(kind: nat, blocks: seq<MapEntry>, display: seq<int>, mem: Mem, l: Layout, lists: seq<seq<nat>>, c: nat)
    requires Sound(blocks, mem, l) && c in Frees(mem, l) && Listed(kind, display, mem, Frees(mem, l) - {c}, lists)
    ensures var mem' := mem[c := -mem[c]];
      && Sound(blocks, mem', l) && Listed(kind, display, mem', Frees(mem', l), lists) && mem'.Keys == mem.Keys
      && c in Live(mem', l) && c !in Live(mem, l) && Live(mem', l) == Live(mem, l) + {c} && AllKept(mem, mem', Live(mem, l))
  {
    var mem' := mem[c := -mem[c]];
    SignChanged(blocks, mem, l, c);
    KeptLists(kind, display, mem, mem', l, Frees(mem, l) - {c}, lists);
  }

  /** The payload of a cell in use belongs to its owner: the storage is as sound whatever is written there. */
  lemma PayloadChanged(kind: nat, blocks: seq<MapEntry>, display: seq<int>, mem: Mem, l: Layout, lists: seq<seq<nat>>, c: nat, mem': Mem)
    requires Sound(blocks, mem, l) && Coalesced(mem, l) && Listed(kind, display, mem, Frees(mem, l), lists)
    requires c in Live(mem, l) && mem'.Keys == mem.Keys
    requires forall a {:trigger mem'[a]} :: a in mem && !(c < a < c + Abs(mem[c])) ==> mem'[a] == mem[a]
    ensures Sound(blocks, mem', l) && Coalesced(mem', l) && Listed(kind, display, mem', Frees(mem', l), lists)
    ensures c in mem' && mem'[c] == mem[c] && Live(mem', l) == Live(mem, l) && AllKept(mem, mem', Live(mem, l) - {c})
  {
    CellBacked(blocks, mem, l, c);
    forall a {:trigger mem'[a]} | a in mem && !InBody(l, {c}, a) ensures mem'[a] == mem[a] {
    }
    BodiesChanged(blocks, mem, mem', l, {c});
    hide Sound, Coalesced, Listed, InBody;
    KeptLists(kind, display, mem, mem', l, Frees(mem, l), lists);
    assert Frees(mem', l) == Frees(mem, l);
    FewerFreesCoalesced(mem, mem', l);
  }

  lemma BodyWords(blocks: seq<MapEntry>, mem: Mem, l: Layout, c: nat, n: nat)
    requires Sound(blocks, mem, l) && c in Live(mem, l) && 4 <= n <= -mem[c] && n % 16 == 0
    ensures (c + 4) % 4 == 0 && (n - 4) % 4 == 0
    ensures forall a {:trigger a in mem} :: c + 4 <= a < c + 4 + (n - 4) && a % 4 == 0 ==> a in mem
  {
    CellBacked(blocks, mem, l, c);
  }

  lemma AllKeptBut(mem: Mem, mem1: Mem, mem2: Mem, l: Layout, live: set<nat>, c: nat)
    requires AllKept(mem, mem1, live) && c !in live && live <= Live(mem1, l) && AllKept(mem1, mem2, Live(mem1, l) - {c})
    ensures AllKept(mem, mem2, live)
  {
    forall d | d in live ensures Kept(mem, mem2, d) { assert Kept(mem, mem1, d) && Kept(mem1, mem2, d); }
  }

  lemma NowAllocated(mem: Mem, l: Layout, mem': Mem, l': Layout, c: nat, size: nat)
    requires c !in Live(mem, l) && c in mem' && Live(mem', l') == Live(mem, l) + {c}
    requires -mem'[c] in {CellSize(size), CellSize(size) + 16}
    requires forall a {:trigger mem'[a]} :: a in mem' && c + 4 <= a < c + CellSize(size) && a % 4 == 0 ==> mem'[a] == 0
    ensures Allocated(mem, l, mem', l', c, size)
  {
  }

  /** The block map with the blocks of a new bin at its end. */
  method GrownBlockList(before: seq<MapEntry>, blockCount: nat) returns (blocks: seq<MapEntry>)
    ensures |blocks| == |before| + blockCount
    ensures forall k {:trigger blocks[k]} :: 0 <= k < |blocks| ==>
              blocks[k] == if k < |before| then before[k] else MapEntry(4096 * k, 4096 * |before|)
  {
    blocks := before;
    var i := 0;
    while i < blockCount
      invariant i <= blockCount && |blocks| == |before| + i
      invariant forall k {:trigger blocks[k]} :: 0 <= k < |blocks| ==>
                  blocks[k] == if k < |before| then before[k] else MapEntry(4096 * k, 4096 * |before|)
    {
      blocks := blocks + [MapEntry(|before| * 4096 + i * 4096, |before| * 4096)];
      i := i + 1;
    }
  }

  /** Everything about a storage with a new bin: its one cell is free, and on no list. */
  lemma BinAdded(kind: nat, blocks: seq<MapEntry>, display: seq<int>, mem: Mem, l: Layout, lists: seq<seq<nat>>,
                 blocks': seq<MapEntry>, mem': Mem, size: nat)
    requires Sound(blocks, mem, l) && Coalesced(mem, l) && Listed(kind, display, mem, Frees(mem, l), lists)
    requires size % 4096 == 0 && size > 0 && |blocks'| == |blocks| + size / 4096
    requires forall k {:trigger blocks'[k]} :: 0 <= k < |blocks'| ==>
               blocks'[k] == if k < |blocks| then blocks[k] else MapEntry(4096 * k, 4096 * |blocks|)
    requires var start := |blocks| * 4096;
      mem' == (mem + Zeroes(start, size))[start := HV_HBIN_SIGNATURE][start + 4 := start][start + 8 := size][start + 32 := size - 32]
    ensures var start := |blocks| * 4096; var l' := l.Extend(start, size);
      && Sound(blocks', mem', l') && Coalesced(mem', l')
      && start + 32 in Frees(mem', l') && start + 32 !in Frees(mem, l)
      && Frees(mem', l') - {start + 32} == Frees(mem, l) && Live(mem', l') == Live(mem, l)
      && Listed(kind, display, mem', Frees(mem, l), lists) && AllKept(mem, mem', Live(mem, l))
  {
    hide Sound, Listed, Coalesced;
    var start := |blocks| * 4096;
    SoundBacked(blocks, mem, l);
    ExtendedMemory(blocks, mem, blocks', start, size, mem');
    hide Zeroes;
    ExtendSound(blocks, mem, l, blocks', mem', size);
    ExtendCoalesced(blocks, mem, l, start, size, mem');
    KeptLists(kind, display, mem, mem', l, Frees(mem, l), lists);
  }

  lemma SplitStep(kind: nat, blocks: seq<MapEntry>, display: seq<int>, mem: Mem, l: Layout, lists: seq<seq<nat>>, c: nat, size: nat)
    requires Sound(blocks, mem, l) && c in Frees(mem, l) && Listed(kind, display, mem, Frees(mem, l) - {c}, lists)
    requires 0 < size < mem[c] && size % 16 == 0
    ensures size <= l.cells[c].size
    ensures var mem', l' := mem[c + size := mem[c] - size][c := size], l.Split(c, size);
      && Sound(blocks, mem', l') && c in Frees(mem', l') && c + size in Frees(mem', l')
      && Listed(kind, display, mem', Frees(mem', l') - {c} - {c + size}, lists)
      && Live(mem', l') == Live(mem, l) && AllKept(mem, mem', Live(mem, l))
  {
    CellBacked(blocks, mem, l, c);
    hide Sound, Listed;
    var mem', l' := mem[c + size := mem[c] - size][c := size], l.Split(c, size);
    SplitSound(blocks, mem, l, c, size);
    KeptLists(kind, display, mem, mem', l, Frees(mem, l) - {c}, lists);
    assert Frees(mem', l') - {c} - {c + size} == Frees(mem, l) - {c};
  }

  lemma SplitDone(blocks: seq<MapEntry>, mem: Mem, l: Layout, c: nat, size: nat, mem1: Mem, mem2: Mem)
    requires Sound(blocks, mem, l) && Coalesced(mem, l) && c in Frees(mem, l)
    requires 0 < size < mem[c] && size % 16 == 0 && size <= l.cells[c].size
    requires mem1 == mem[c + size := mem[c] - size][c := size] && AllKept(mem, mem1, Live(mem, l))
    requires var l' := l.Split(c, size); Sound(blocks, mem2, l') && LinksChanged(mem1, mem2, l', Frees(mem1, l') - {c})
    ensures var l' := l.Split(c, size);
      && c in Frees(mem2, l') && mem2[c] == size && Coalesced(mem2[c := -mem2[c]], l')
      && Frees(mem2, l') == Frees(mem1, l') && Live(mem2, l') == Live(mem, l) && AllKept(mem, mem2, Live(mem, l))
  {
    var l' := l.Split(c, size);
    SplitSound(blocks, mem, l, c, size);
    hide Sound, Coalesced;
    SignChanged(blocks, mem2, l', c);
    AllocatedCoalesced(blocks, mem, l, c, size, mem2[c := -mem2[c]]);
    forall d | d in Live(mem, l) ensures Kept(mem, mem2, d) {
      assert d in Live(mem1, l');
      assert Kept(mem1, mem2, d);
      KeptTwice(mem, mem1, mem2, d);
    }
  }

  lemma NotSplit(blocks: seq<MapEntry>, mem: Mem, l: Layout, c: nat)
    requires Sound(blocks, mem, l) && Coalesced(mem, l) && c in Frees(mem, l)
    ensures Coalesced(mem[c := -mem[c]], l) && AllKept(mem, mem, Live(mem, l)) && mem[c] % 16 == 0
  {
    CellBacked(blocks, mem, l, c);
    assert l.CellOk(c);
    hide Sound, Coalesced;
    SignChanged(blocks, mem, l, c);
    FewerFreesCoalesced(mem, mem[c := -mem[c]], l);
  }

  lemma SoundBacked(blocks: seq<MapEntry>, mem: Mem, l: Layout)
    requires Sound(blocks, mem, l)
    ensures Backed(blocks, mem)
  {
  }

  function BinBlocks(size: nat): nat { RoundUp4096(size + 32) / 4096 }

  /** A bin has room for its header and the cell, and no block more than that takes. */
  lemma BinBlocksFit(size: nat)
    ensures BinBlocks(size) > 0 && 4096 * (BinBlocks(size) - 1) < size + 32 <= 4096 * BinBlocks(size)
  {
    RoundedUp4096(size + 32);
  }

  function Zeroes(start: nat, size: nat): Mem
  {
    map a | start <= a < start + size && a % 4 == 0 :: 0
  }

  lemma RoundedUp16(a: nat)
    ensures RoundUp16(a) % 16 == 0 && a <= RoundUp16(a) < a + 16
  {
  }

  lemma RoundedUp4096(a: nat)
    ensures RoundUp4096(a) % 4096 == 0 && a <= RoundUp4096(a) < a + 4096
  {
  }

  ghost predicate AllKept(mem: Mem, mem': Mem, cells: set<nat>)
  {
    forall c {:trigger Kept(mem, mem', c)} :: c in cells ==> Kept(mem, mem', c)
  }

  lemma ExtendedMemory(blocks: seq<MapEntry>, mem: Mem, blocks': seq<MapEntry>, start: nat, size: nat, mem': Mem)
    requires Backed(blocks, mem) && start == |blocks| * 4096 && size % 4096 == 0 && size > 0
    requires |blocks'| == |blocks| + size / 4096
    requires mem' == (mem + Zeroes(start, size))[start := HV_HBIN_SIGNATURE][start + 4 := start][start + 8 := size][start + 32 := size - 32]
    ensures Backed(blocks', mem') && forall a {:trigger mem'[a]} :: a in mem && a in mem' ==> mem'[a] == mem[a]
    ensures start in mem' && start + 4 in mem' && start + 8 in mem' && start + 32 in mem'
  {
    BinWords(start, size, |blocks|, size / 4096);
    assert 4096 * |blocks'| == start + size;
    hide Zeroes;
    ZeroesKeys(start, size);
    assert start in Zeroes(start, size) && start + 4 in Zeroes(start, size) && start + 8 in Zeroes(start, size) && start + 32 in Zeroes(start, size);
    forall a {:trigger a in mem'} ensures a in mem' <==> a in mem || a in Zeroes(start, size) || a in {start, start + 4, start + 8, start + 32} {
    }
  }

  lemma BinWords(start: nat, size: nat, blocks: nat, count: nat)
    requires start == blocks * 4096 && size == count * 4096 && count > 0
    ensures start % 4 == (start + 4) % 4 == (start + 8) % 4 == (start + 32) % 4 == 0 && size >= 4096
  {
    assert start == 4 * (1024 * blocks);
  }

  lemma ZeroesKeys(start: nat, size: nat)
    ensures forall a {:trigger a in Zeroes(start, size)} :: a in Zeroes(start, size) <==> start <= a < start + size && a % 4 == 0
  {
  }

  /** The one free cell of a new bin has no neighbours. */
  lemma ExtendCoalesced(blocks: seq<MapEntry>, mem: Mem, l: Layout, start: nat, size: nat, mem': Mem)
    requires Sound(blocks, mem, l) && Coalesced(mem, l) && start == 4096 * |blocks| && size >= 4096
    requires Frees(mem', l.Extend(start, size)) == Frees(mem, l) + {start + 32}
    ensures Coalesced(mem', l.Extend(start, size))
  {
    var l' := l.Extend(start, size);
    forall c | c in l.cells ensures l.After(c) <= start {
      assert l.CellOk(c) && HeaderAt(blocks, mem, l, l.cells[c].bin);
    }
    forall c | c in l'.cells ensures NotBoth(mem', l', c) {
      if c in l.cells { assert NotBoth(mem, l, c); }
    }
  }

  /** The lists hold as long as the listed cells are untouched. */
  lemma KeptLists(kind: nat, display: seq<int>, mem: Mem, mem': Mem, l: Layout, frees: set<nat>, lists: seq<seq<nat>>)
    requires Listed(kind, display, mem, frees, lists) && AllKept(mem, mem', frees)
    ensures Listed(kind, display, mem', frees, lists)
  {
    forall c | c in frees ensures Same(mem, mem', c) { assert Sized(mem, c) && Kept(mem, mem', c); }
    ListsKept(kind, display, mem, mem', frees, lists);
  }

  /** Only links of free cells changed: every header is as before, and every other cell is untouched. */
  ghost predicate LinksChanged(mem: Mem, mem': Mem, l: Layout, frees: set<nat>)
  {
    && mem'.Keys == mem.Keys
    && (forall c {:trigger c in l.cells} :: c in l.cells ==> c in mem && c in mem' && mem'[c] == mem[c])
    && (forall c {:trigger Kept(mem, mem', c)} :: c in l.cells && c !in frees ==> Kept(mem, mem', c))
    && Frees(mem', l) == Frees(mem, l) && Live(mem', l) == Live(mem, l)
  }

  lemma LinkWritten(blocks: seq<MapEntry>, mem: Mem, l: Layout, frees: set<nat>, c: nat, v: int)
    requires Sound(blocks, mem, l) && c in frees && frees <= Frees(mem, l)
    ensures Sound(blocks, mem[c + 4 := v], l) && LinksChanged(mem, mem[c + 4 := v], l, frees)
  {
    CellBacked(blocks, mem, l, c);
    BodyWritten(blocks, mem, l, c, c + 4, v);
  }

  lemma ListedShape(kind: nat, display: seq<int>, mem: Mem, frees: set<nat>, lists: seq<seq<nat>>)
    requires Listed(kind, display, mem, frees, lists)
    ensures |display| == |lists| == 24
  {
  }

  lemma LinksSame(blocks: seq<MapEntry>, mem: Mem, l: Layout, frees: set<nat>)
    requires Sound(blocks, mem, l)
    ensures LinksChanged(mem, mem, l, frees)
  {
    forall c | c in l.cells ensures c in mem && Kept(mem, mem, c) { CellBacked(blocks, mem, l, c); }
  }

  lemma OnItsList(kind: nat, display: seq<int>, mem: Mem, frees: set<nat>, lists: seq<seq<nat>>, c: nat)
    requires Listed(kind, display, mem, frees, lists) && c in frees && Sized(mem, c)
    ensures |lists| == |display| == 24 && c in lists[FreeListIndex(mem[c])]
  {
    var k := FreeListIndex(mem[c]);
    assert ListOk(kind, display[k], mem, frees, k, lists[k]) && FreeIn(mem, c, k);
  }

  lemma BinHeader(blocks: seq<MapEntry>, mem: Mem, l: Layout, c: nat)
    requires Sound(blocks, mem, l) && c in l.cells
    ensures l.cells[c].bin in l.bins && l.cells[c].bin + 8 in mem
    ensures l.cells[c].bin + mem[l.cells[c].bin + 8] == l.bins[l.cells[c].bin]
    ensures l.cells[c].bin + 4 in mem && mem[l.cells[c].bin + 4] == l.cells[c].bin
  {
    assert l.CellOk(c) && HeaderAt(blocks, mem, l, l.cells[c].bin);
  }

  ghost predicate AllSmall(mem: Mem, list: seq<nat>, size: nat)
  {
    forall d {:trigger d in list} :: d in list ==> d in mem && mem[d] < size
  }

  lemma NoneSmall(mem: Mem, list: seq<nat>, size: nat)
    ensures AllSmall(mem, list[..0], size)
  {
  }

  lemma NextSmall(mem: Mem, list: seq<nat>, i: nat, size: nat)
    requires i < |list| && AllSmall(mem, list[..i], size) && list[i] in mem && mem[list[i]] < size
    ensures AllSmall(mem, list[..i + 1], size)
  {
    assert list[..i + 1] == list[..i] + [list[i]];
  }

  // ----- first fit

  /** The first cell of the lists, from the size's class upwards, that is large enough: entry i of list k. */
  ghost predicate FirstAt(mem: Mem, lists: seq<seq<nat>>, size: nat, c: nat, k: nat, i: nat)
    requires size >= 8
  {
    && FreeListIndex(size) <= k < |lists| && i < |lists[k]| && lists[k][i] == c && c in mem && mem[c] >= size
    && AllSmall(mem, lists[k][..i], size)
    && forall j {:trigger lists[j]} :: FreeListIndex(size) <= j < k ==> AllSmall(mem, lists[j], size)
  }

  ghost predicate FirstFit(mem: Mem, lists: seq<seq<nat>>, size: nat, c: nat)
    requires size >= 8
  {
    exists k, i :: FirstAt(mem, lists, size, c, k, i)
  }

  /** The lists without entry i of list k, which is c. */
  ghost predicate Off(lists: seq<seq<nat>>, lists': seq<seq<nat>>, c: nat, k: nat, i: nat)
  {
    && k < |lists| && i < |lists[k]| && lists[k][i] == c
    && lists' == lists[k := lists[k][..i] + lists[k][i + 1..]]
  }

  /** The lists with c in front of the list of its class. */
  ghost predicate InFront(mem: Mem, lists: seq<seq<nat>>, lists': seq<seq<nat>>, c: nat)
  {
    && c in mem && mem[c] >= 8 && |lists| == 24
    && lists' == lists[FreeListIndex(mem[c]) := [c] + lists[FreeListIndex(mem[c])]]
  }

  /** What is kept of a free cell for a cell of a size: all of it, unless more than 16 bytes would be left. */
  function SplitSize(have: int, need: nat): int { if have > need + 16 then need else have }

  /** The cell that makes room: the first listed one that is large enough, or the one of a new bin. */
  ghost predicate Chosen(mem: Mem, l: Layout, lists: seq<seq<nat>>, blocks: nat, mem': Mem, c: nat, need: nat)
    requires need >= 8
  {
    && c in mem'
    && if HasRoom(mem, Frees(mem, l), need)
       then FirstFit(mem, lists, need, c) && c in mem && mem'[c] == -SplitSize(mem[c], need)
       else c == 4096 * blocks + 32 && mem'[c] == -SplitSize(4096 * BinBlocks(need) - 32, need)
  }

  /** Some free cell is large enough. */
  ghost predicate HasRoom(mem: Mem, frees: set<nat>, size: nat)
  {
    exists d :: d in frees && d in mem && mem[d] >= size
  }

  /** There is room for size bytes: in a free cell, or in a new bin that is within the limit. */
  ghost predicate Available(mem: Mem, l: Layout, blocks: nat, limit: nat, size: nat)
  {
    HasRoom(mem, Frees(mem, l), CellSize(size)) || blocks + BinBlocks(CellSize(size)) <= limit
  }

  /** The blocks that making room for size bytes adds: none, unless it takes a new bin and there is room for that. */
  ghost function Growth(mem: Mem, l: Layout, blocks: nat, limit: nat, size: nat): nat
  {
    if HasRoom(mem, Frees(mem, l), CellSize(size)) || blocks + BinBlocks(CellSize(size)) > limit then 0 else BinBlocks(CellSize(size))
  }

  lemma LinksKeep(mem: Mem, mem': Mem, l: Layout, frees: set<nat>, c: nat)
    requires LinksChanged(mem, mem', l, frees) && c in l.cells
    ensures c in mem && c in mem' && mem'[c] == mem[c]
  {
  }

  /** No listed cell of a class below index is large enough. */
  ghost predicate TooSmall(mem: Mem, frees: set<nat>, size: nat, index: nat)
  {
    forall d {:trigger d in frees} :: d in frees && d in mem && mem[d] >= 8 && FreeListIndex(mem[d]) < index ==> mem[d] < size
  }

  lemma SmallerClasses(kind: nat, blocks: seq<MapEntry>, mem: Mem, l: Layout, frees: set<nat>, size: nat)
    requires size >= 8
    ensures TooSmall(mem, frees, size, FreeListIndex(size))
  {
    forall d | d in frees && d in mem && mem[d] >= 8 && FreeListIndex(mem[d]) < FreeListIndex(size) ensures mem[d] < size {
      if mem[d] >= size { ClassesAreOrdered(size, mem[d]); }
    }
  }

  lemma ListScanned(kind: nat, display: seq<int>, mem: Mem, frees: set<nat>, lists: seq<seq<nat>>, index: nat, size: nat)
    requires Listed(kind, display, mem, frees, lists) && index < 24 && TooSmall(mem, frees, size, index)
    requires AllSmall(mem, lists[index], size)
    ensures TooSmall(mem, frees, size, index + 1)
  {
    forall d | d in frees && d in mem && mem[d] >= 8 && FreeListIndex(mem[d]) < index + 1 ensures mem[d] < size {
      assert Sized(mem, d);
      if FreeListIndex(mem[d]) == index {
        OnItsList(kind, display, mem, frees, lists, d);
      }
    }
  }

  lemma AllScanned(kind: nat, display: seq<int>, mem: Mem, frees: set<nat>, lists: seq<seq<nat>>, size: nat)
    requires Listed(kind, display, mem, frees, lists) && TooSmall(mem, frees, size, 24) && size >= 16
    ensures !HasRoom(mem, frees, size)
  {
    forall d | d in frees ensures d in mem && mem[d] < size { assert Sized(mem, d); }
  }

  // ----- what the checks find in a sound storage

  /** Every walk over a bin of a sound storage meets cells of the bin only. */
  lemma {:induction false} WalkInBin(blocks: seq<MapEntry>, mem: Mem, l: Layout, bin: nat, cells: seq<nat>, i: nat)
    requires Sound(blocks, mem, l) && bin in l.bins && CellWalk(mem, bin, cells) && i < |cells|
    ensures InBin(l, bin, cells[i])
  {
    HeaderFacts(blocks, mem, l, bin);
    if i > 0 {
      WalkInBin(blocks, mem, l, bin, cells, i - 1);
      assert NextCell(mem, bin, cells, i - 1);
      CellInBin(blocks, mem, l, bin, cells[i - 1]);
    }
  }

  lemma SoundBinPasses(blocks: seq<MapEntry>, mem: Mem, l: Layout, bin: nat)
    requires Sound(blocks, mem, l) && bin in l.bins
    ensures Readable(mem, bin) && forall s {:trigger BinVerdict(mem, bin, s)} :: BinVerdict(mem, bin, s) ==> s == Good
  {
    HeaderFacts(blocks, mem, l, bin);
    hide Sound, InBin;
    forall cells | CellWalk(mem, bin, cells) && cells[|cells| - 1] < bin + Size(mem, bin)
      ensures cells[|cells| - 1] in mem && Fits(mem, bin, cells[|cells| - 1])
    {
      WalkInBin(blocks, mem, l, bin, cells, |cells| - 1);
      CellInBin(blocks, mem, l, bin, cells[|cells| - 1]);
    }
  }

  /** Every walk over a sound storage goes from bin to bin. */
  lemma {:induction false} WalkAtBoundary(blocks: seq<MapEntry>, mem: Mem, l: Layout, ks: seq<nat>, i: nat)
    requires Sound(blocks, mem, l) && BinWalk(blocks, mem, ks) && i < |ks|
    ensures Boundary(l, 4096 * ks[i])
  {
    if i > 0 {
      WalkAtBoundary(blocks, mem, l, ks, i - 1);
      assert NextBin(blocks, mem, ks, i - 1);
      BinAtBoundary(blocks, mem, l, ks[i - 1]);
      BinDone(blocks, mem, l, 4096 * ks[i - 1]);
    }
  }

  /** A sound storage passes: no walk over it ends with another verdict. */
  lemma SoundStoragePasses(blocks: seq<MapEntry>, mem: Mem, l: Layout, s: Status)
    requires Sound(blocks, mem, l) && StorageVerdict(blocks, mem, s)
    ensures s == Good
  {
    hide BinVerdict;
    var ks :| BinWalk(blocks, mem, ks) && BlockVerdict(blocks, mem, ks[|ks| - 1], s);
    WalkAtBoundary(blocks, mem, l, ks, |ks| - 1);
    if ks[|ks| - 1] < |blocks| {
      BinAtBoundary(blocks, mem, l, ks[|ks| - 1]);
      SoundBinPasses(blocks, mem, l, 4096 * ks[|ks| - 1]);
    }
  }

  /** What the checks read of a sound storage is there. */
  lemma SoundReadable(blocks: seq<MapEntry>, mem: Mem, l: Layout)
    requires Sound(blocks, mem, l)
    ensures AllReadable(blocks, mem)
  {
    forall k | 0 <= k < |blocks| ensures BlockReadable(blocks, mem, k) {
      assert EntryAt(blocks, l, k);
      var bin := blocks[k].BinAddress;
      assert HeaderAt(blocks, mem, l, bin) && l.BinOk(bin);
      SoundBinPasses(blocks, mem, l, bin);
    }
  }
}
