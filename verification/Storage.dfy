/** A storage in memory: its block map, its bin headers and its cell headers describe one layout. */
module Storage {
  import opened Cells

  ghost predicate HeaderAt(blocks: seq<MapEntry>, mem: Mem, l: Layout, b: nat)
    requires b in l.bins
  {
    && b in mem && b + 4 in mem && b + 8 in mem
    && mem[b] == HV_HBIN_SIGNATURE && mem[b + 4] == b && mem[b + 8] == l.bins[b] - b
    && l.bins[b] <= 4096 * |blocks|
  }

  ghost predicate EntryAt(blocks: seq<MapEntry>, l: Layout, k: nat)
    requires k < |blocks|
  {
    && blocks[k].BlockAddress == 4096 * k
    && blocks[k].BinAddress in l.bins && blocks[k].BinAddress <= 4096 * k < l.bins[blocks[k].BinAddress]
  }

  ghost predicate SizeAt(mem: Mem, l: Layout, c: nat)
    requires c in l.cells
  {
    c in mem && Abs(mem[c]) == l.cells[c].size
  }

  ghost predicate Backed(blocks: seq<MapEntry>, mem: Mem)
  {
    forall a {:trigger a in mem} :: a in mem <==> 0 <= a < 4096 * |blocks| && a % 4 == 0
  }

  /** Everything but the free lists. */
  ghost predicate Sound(blocks: seq<MapEntry>, mem: Mem, l: Layout)
  {
    && l.Tiled() && Backed(blocks, mem)
    && (forall b {:trigger HeaderAt(blocks, mem, l, b)} :: b in l.bins ==> HeaderAt(blocks, mem, l, b))
    && (forall k {:trigger EntryAt(blocks, l, k)} :: 0 <= k < |blocks| ==> EntryAt(blocks, l, k))
    && (forall c {:trigger SizeAt(mem, l, c)} :: c in l.cells ==> SizeAt(mem, l, c))
  }

  ghost function Frees(mem: Mem, l: Layout): set<nat>
  {
    set c | c in l.cells && c in mem && mem[c] > 0
  }

  ghost function Live(mem: Mem, l: Layout): set<nat>
  {
    set c | c in l.cells && c in mem && mem[c] < 0
  }

  /** Not both c and the cell after it are free. */
  ghost predicate NotBoth(mem: Mem, l: Layout, c: nat)
    requires c in l.cells
  {
    c in Frees(mem, l) && l.After(c) in l.cells ==> l.After(c) !in Frees(mem, l)
  }

  /** No two adjacent cells are free, with c itself left out. */
  ghost predicate CoalescedBut(mem: Mem, l: Layout, c: nat)
  {
    forall d {:trigger NotBoth(mem, l, d)} :: d in l.cells && d != c && l.After(d) != c ==> NotBoth(mem, l, d)
  }

  ghost predicate Coalesced(mem: Mem, l: Layout)
  {
    forall d {:trigger NotBoth(mem, l, d)} :: d in l.cells ==> NotBoth(mem, l, d)
  }

  /** A cell in use keeps its header and every word of its payload. */
  ghost predicate Kept(mem: Mem, mem': Mem, c: nat)
  {
    && c in mem && c in mem' && mem'[c] == mem[c]
    && forall a {:trigger a in mem} {:trigger a in mem'} :: c < a < c + Abs(mem[c]) && a in mem ==> a in mem' && mem'[a] == mem[a]
  }

  // ----- finding the bin

  /** The block map leads from a cell to its bin. */
  lemma BinOfCell(blocks: seq<MapEntry>, mem: Mem, l: Layout, c: nat)
    requires Sound(blocks, mem, l) && c in l.cells
    ensures c / 4096 < |blocks| && blocks[c / 4096] == MapEntry(4096 * (c / 4096), l.cells[c].bin)
  {
    var b, k := l.cells[c].bin, c / 4096;
    assert l.CellOk(c) && HeaderAt(blocks, mem, l, b) && l.BinOk(b);
    assert EntryAt(blocks, l, k);
    var e := blocks[k].BinAddress;
    assert l.BinOk(e);
    assert l.BinsApart(b, e) && l.BinsApart(e, b);
    assert c < l.bins[e];
  }

  /** A bin's own header is in no cell's extent. */
  lemma BinOutside(l: Layout, b: nat, a: nat, c: nat)
    requires l.Tiled() && b in l.bins && c in l.cells && b <= a < b + 32
    ensures !(c <= a < l.After(c))
  {
    assert l.CellOk(c) && l.BinOk(b) && l.BinsApart(b, l.cells[c].bin) && l.BinsApart(l.cells[c].bin, b);
  }

  /** The words of a cell exist. */
  lemma CellBacked(blocks: seq<MapEntry>, mem: Mem, l: Layout, c: nat)
    requires Sound(blocks, mem, l) && c in l.cells
    ensures l.cells[c].size >= 16 && c % 16 == 0 && c in mem && Abs(mem[c]) == l.cells[c].size
    ensures forall a {:trigger a in mem} :: c <= a < l.After(c) && a % 4 == 0 ==> a in mem
  {
    assert l.CellOk(c) && HeaderAt(blocks, mem, l, l.cells[c].bin) && SizeAt(mem, l, c);
  }

  // ----- changes that leave the layout alone

  ghost predicate HeaderSame(mem: Mem, mem': Mem, b: nat)
  {
    forall i {:trigger Offset(b, i)} :: i in {0, 4, 8} ==> Offset(b, i) in mem && Offset(b, i) in mem' && mem'[Offset(b, i)] == mem[Offset(b, i)]
  }

  function Offset(b: nat, i: nat): nat { b + i }

  /** The headers of bins are the same, and those of cells up to their sign. */
  lemma SameLayout(blocks: seq<MapEntry>, mem: Mem, mem': Mem, l: Layout)
    requires Sound(blocks, mem, l) && mem'.Keys == mem.Keys
    requires forall c {:trigger c in l.cells} :: c in l.cells ==> c in mem' && c in mem && Abs(mem'[c]) == Abs(mem[c])
    requires forall b {:trigger b in l.bins} :: b in l.bins ==> HeaderSame(mem, mem', b)
    ensures Sound(blocks, mem', l)
  {
    forall b | b in l.bins ensures HeaderAt(blocks, mem', l, b) {
      assert HeaderAt(blocks, mem, l, b) && HeaderSame(mem, mem', b);
      assert Offset(b, 0) == b && Offset(b, 4) == b + 4 && Offset(b, 8) == b + 8;
    }
    forall c | c in l.cells ensures SizeAt(mem', l, c) { assert SizeAt(mem, l, c); }
  }

  /** Address a is in the body of one of these cells. */
  ghost predicate InBody(l: Layout, inside: set<nat>, a: nat)
  {
    exists c :: c in inside && c in l.cells && c < a < l.After(c)
  }

  lemma HeaderNotInBody(l: Layout, inside: set<nat>, c: nat)
    requires l.Tiled() && c in l.cells
    ensures !InBody(l, inside, c)
  {
    forall d | d in inside && d in l.cells && d < c ensures l.After(d) <= c { assert l.Apart(d, c); }
  }

  lemma BinNotInBody(l: Layout, inside: set<nat>, b: nat, i: nat)
    requires l.Tiled() && b in l.bins && i < 32
    ensures !InBody(l, inside, b + i)
  {
    forall d | d in inside && d in l.cells ensures !(d < b + i < l.After(d)) { BinOutside(l, b, b + i, d); }
  }

  lemma OthersNotInBody(l: Layout, inside: set<nat>, c: nat, a: nat)
    requires l.Tiled() && c in l.cells && c !in inside && c <= a < l.After(c)
    ensures !InBody(l, inside, a)
  {
    forall d | d in inside && d in l.cells ensures !(d < a < l.After(d)) { assert l.Apart(d, c) && l.Apart(c, d); }
  }

  /** A change inside the bodies of some cells. */
  lemma BodiesChanged(blocks: seq<MapEntry>, mem: Mem, mem': Mem, l: Layout, inside: set<nat>)
    requires Sound(blocks, mem, l) && mem'.Keys == mem.Keys
    requires forall a {:trigger mem'[a]} :: a in mem && !InBody(l, inside, a) ==> mem'[a] == mem[a]
    ensures Sound(blocks, mem', l)
    ensures forall c {:trigger c in l.cells} :: c in l.cells ==> c in mem && mem'[c] == mem[c]
    ensures forall c {:trigger Kept(mem, mem', c)} :: c in l.cells && c !in inside ==> Kept(mem, mem', c)
  {
    hide InBody;
    forall c | c in l.cells ensures c in mem && mem'[c] == mem[c] {
      assert SizeAt(mem, l, c);
      HeaderNotInBody(l, inside, c);
    }
    forall b | b in l.bins ensures HeaderSame(mem, mem', b) {
      assert HeaderAt(blocks, mem, l, b);
      forall i | i in {0, 4, 8} ensures mem'[Offset(b, i)] == mem[Offset(b, i)] { BinNotInBody(l, inside, b, i); }
    }
    SameLayout(blocks, mem, mem', l);
    forall c | c in l.cells && c !in inside ensures Kept(mem, mem', c) {
      assert SizeAt(mem, l, c);
      forall a | c < a < c + Abs(mem[c]) && a in mem ensures mem'[a] == mem[a] { OthersNotInBody(l, inside, c, a); }
    }
  }

  // ----- changes of the layout

  /** A cell's sign: allocated or free. */
  lemma SignChanged(blocks: seq<MapEntry>, mem: Mem, l: Layout, c: nat)
    requires Sound(blocks, mem, l) && c in l.cells && c in mem
    ensures Sound(blocks, mem[c := -mem[c]], l)
    ensures forall d {:trigger Kept(mem, mem[c := -mem[c]], d)} :: d in l.cells && d != c ==> Kept(mem, mem[c := -mem[c]], d)
    ensures mem[c] < 0 ==> Frees(mem[c := -mem[c]], l) == Frees(mem, l) + {c} && Live(mem[c := -mem[c]], l) == Live(mem, l) - {c}
    ensures mem[c] > 0 ==> Frees(mem[c := -mem[c]], l) == Frees(mem, l) - {c} && Live(mem[c := -mem[c]], l) == Live(mem, l) + {c}
  {
    var mem' := mem[c := -mem[c]];
    HeadersOfOneCell(blocks, mem, mem', l, c);
    SameLayout(blocks, mem, mem', l);
  }

  /** Only the header of one cell changes: bins and other cells are untouched. */
  lemma HeadersOfOneCell(blocks: seq<MapEntry>, mem: Mem, mem': Mem, l: Layout, c: nat)
    requires Sound(blocks, mem, l) && c in l.cells && c in mem && c in mem' && mem' == mem[c := mem'[c]]
    ensures forall b {:trigger b in l.bins} :: b in l.bins ==> HeaderSame(mem, mem', b)
    ensures forall d {:trigger Kept(mem, mem', d)} :: d in l.cells && d != c ==> Kept(mem, mem', d)
    ensures forall d {:trigger d in l.cells} :: d in l.cells ==> d in mem
  {
    CellBacked(blocks, mem, l, c);
    forall b | b in l.bins ensures HeaderSame(mem, mem', b) {
      assert HeaderAt(blocks, mem, l, b);
      forall i | i in {0, 4, 8} ensures Offset(b, i) != c { BinOutside(l, b, b + i, c); }
    }
    forall d | d in l.cells ensures d in mem && (d != c ==> Kept(mem, mem', d)) {
      assert SizeAt(mem, l, d) && l.Apart(d, c);
    }
  }

  /** A free cell split in two free cells. */
  lemma SplitSound(blocks: seq<MapEntry>, mem: Mem, l: Layout, c: nat, size: nat)
    requires Sound(blocks, mem, l) && c in Frees(mem, l) && 0 < size < mem[c] && size % 16 == 0 && size <= l.cells[c].size
    ensures var mem', l' := mem[c + size := mem[c] - size][c := size], l.Split(c, size);
      && Sound(blocks, mem', l') && mem'.Keys == mem.Keys
      && c + size !in l.cells && c + size < 4096 * |blocks|
      && Frees(mem', l') == Frees(mem, l) + {c + size} && Live(mem', l') == Live(mem, l)
      && forall d {:trigger Kept(mem, mem', d)} :: d in l.cells && d != c ==> Kept(mem, mem', d)
  {
    var mem1 := mem[c + size := mem[c] - size];
    var mem' := mem1[c := size];
    var l' := l.Split(c, size);
    CellBacked(blocks, mem, l, c);
    BodyWritten(blocks, mem, l, c, c + size, mem[c] - size);
    l.SplitTiled(c, size);
    HeadersOfOneCell(blocks, mem1, mem', l, c);
    SplitHeaders(blocks, mem, mem1, mem', l, l');
    SplitSizes(blocks, mem1, mem', l, c, size);
    hide Backed, HeaderSame;
    forall d | d in l.cells && d != c ensures Kept(mem, mem', d) {
      KeptTwice(mem, mem1, mem', d);
    }
  }

  lemma SplitSizes(blocks: seq<MapEntry>, mem1: Mem, mem': Mem, l: Layout, c: nat, size: nat)
    requires Sound(blocks, mem1, l) && c in l.cells && c in mem1 && 0 < size < mem1[c] == l.cells[c].size
    requires c + size in mem1 && mem1[c + size] == mem1[c] - size && mem' == mem1[c := size] && c + size !in l.cells
    ensures var l' := l.Split(c, size);
      && (forall d {:trigger SizeAt(mem', l', d)} :: d in l'.cells ==> SizeAt(mem', l', d))
      && Frees(mem', l') == Frees(mem1, l) + {c + size} && Live(mem', l') == Live(mem1, l)
  {
    var l' := l.Split(c, size);
    forall d | d in l'.cells ensures SizeAt(mem', l', d) {
      if d in l.cells { assert SizeAt(mem1, l, d); }
    }
  }

  /** One word in the body of a cell. */
  lemma BodyWritten(blocks: seq<MapEntry>, mem: Mem, l: Layout, c: nat, a: nat, v: int)
    requires Sound(blocks, mem, l) && c in l.cells && c < a < l.After(c) && a % 4 == 0
    ensures Sound(blocks, mem[a := v], l) && mem[a := v].Keys == mem.Keys && a < 4096 * |blocks|
    ensures forall d {:trigger d in l.cells} :: d in l.cells ==> d in mem && mem[a := v][d] == mem[d]
    ensures forall d {:trigger Kept(mem, mem[a := v], d)} :: d in l.cells && d != c ==> Kept(mem, mem[a := v], d)
  {
    CellBacked(blocks, mem, l, c);
    assert a in mem;
    assert InBody(l, {c}, a);
    BodiesChanged(blocks, mem, mem[a := v], l, {c});
  }

  lemma KeptTwice(mem: Mem, mem1: Mem, mem2: Mem, d: nat)
    requires Kept(mem, mem1, d) && Kept(mem1, mem2, d)
    ensures Kept(mem, mem2, d)
  {
  }

  lemma SplitHeaders(blocks: seq<MapEntry>, mem: Mem, mem1: Mem, mem': Mem, l: Layout, l': Layout)
    requires Sound(blocks, mem1, l) && l'.bins == l.bins
    requires mem'.Keys == mem1.Keys
    requires forall b {:trigger b in l.bins} :: b in l.bins ==> HeaderSame(mem1, mem', b)
    ensures forall b {:trigger HeaderAt(blocks, mem', l', b)} :: b in l'.bins ==> HeaderAt(blocks, mem', l', b)
    ensures forall k {:trigger EntryAt(blocks, l', k)} :: 0 <= k < |blocks| ==> EntryAt(blocks, l', k)
    ensures Backed(blocks, mem')
  {
    forall b | b in l.bins ensures HeaderAt(blocks, mem', l', b) {
      assert HeaderAt(blocks, mem1, l, b) && HeaderSame(mem1, mem', b);
      assert Offset(b, 0) == b && Offset(b, 4) == b + 4 && Offset(b, 8) == b + 8;
    }
    forall k | 0 <= k < |blocks| ensures EntryAt(blocks, l', k) { assert EntryAt(blocks, l, k); }
  }

  /** Two adjacent free cells merged into one. */
  lemma MergeSound(blocks: seq<MapEntry>, mem: Mem, l: Layout, c: nat)
    requires Sound(blocks, mem, l) && c in Frees(mem, l) && l.After(c) in Frees(mem, l)
    ensures var d := l.After(c);
      var mem', l' := mem[c := mem[c] + mem[d]], l.Merge(c);
      && Sound(blocks, mem', l') && mem'.Keys == mem.Keys
      && Frees(mem', l') == Frees(mem, l) - {d} && Live(mem', l') == Live(mem, l)
      && forall e {:trigger Kept(mem, mem', e)} :: e in l.cells && e != c ==> Kept(mem, mem', e)
  {
    var d := l.After(c);
    var mem', l' := mem[c := mem[c] + mem[d]], l.Merge(c);
    CellBacked(blocks, mem, l, c);
    CellBacked(blocks, mem, l, d);
    l.MergeTiled(c);
    HeadersOfOneCell(blocks, mem, mem', l, c);
    SplitHeaders(blocks, mem, mem, mem', l, l');
    forall e | e in l'.cells ensures SizeAt(mem', l', e) { assert SizeAt(mem, l, e); }
  }

  /** A new bin behind the last, holding one free cell. */
  lemma ExtendSound(blocks: seq<MapEntry>, mem: Mem, l: Layout, blocks': seq<MapEntry>, mem': Mem, size: nat)
    requires Sound(blocks, mem, l) && size % 4096 == 0 && size > 0 && |blocks'| == |blocks| + size / 4096
    requires forall k {:trigger blocks'[k]} :: 0 <= k < |blocks'| ==>
               blocks'[k] == if k < |blocks| then blocks[k] else MapEntry(4096 * k, 4096 * |blocks|)
    requires Backed(blocks', mem') && forall a {:trigger mem'[a]} :: a in mem && a in mem' ==> mem'[a] == mem[a]
    requires var start := 4096 * |blocks|;
      && start in mem' && start + 4 in mem' && start + 8 in mem' && start + 32 in mem'
      && mem'[start] == HV_HBIN_SIGNATURE && mem'[start + 4] == start && mem'[start + 8] == size
      && mem'[start + 32] == size - 32
    ensures var l' := l.Extend(4096 * |blocks|, size);
      && Sound(blocks', mem', l') && 4096 * |blocks| + 32 !in l.cells
      && Frees(mem', l') == Frees(mem, l) + {4096 * |blocks| + 32} && Live(mem', l') == Live(mem, l)
      && forall d {:trigger Kept(mem, mem', d)} :: d in l.cells ==> Kept(mem, mem', d)
  {
    var start := 4096 * |blocks|;
    var l' := l.Extend(start, size);
    forall b | b in l.bins ensures l.bins[b] <= start { assert HeaderAt(blocks, mem, l, b); }
    l.ExtendTiled(start, size);
    forall b | b in l'.bins ensures HeaderAt(blocks', mem', l', b) {
      if b in l.bins { assert HeaderAt(blocks, mem, l, b); }
    }
    forall k | 0 <= k < |blocks'| ensures EntryAt(blocks', l', k) {
      if k < |blocks| { assert EntryAt(blocks, l, k); }
    }
    forall c | c in l.cells ensures c in mem && c in mem' && mem'[c] == mem[c] && Kept(mem, mem', c) {
      assert SizeAt(mem, l, c);
    }
    forall c | c in l'.cells ensures SizeAt(mem', l', c) {
      if c in l.cells { assert SizeAt(mem, l, c); }
    }
  }

  // ----- coalescing

  /** Splitting a free cell and allocating its first part. */
  lemma AllocatedCoalesced(blocks: seq<MapEntry>, mem: Mem, l: Layout, c: nat, size: nat, mem': Mem)
    requires Sound(blocks, mem, l) && Coalesced(mem, l) && c in Frees(mem, l)
    requires 0 < size < mem[c] && size % 16 == 0 && size <= l.cells[c].size
    requires Frees(mem', l.Split(c, size)) == Frees(mem, l) + {c + size} - {c}
    ensures Coalesced(mem', l.Split(c, size))
  {
    var l', n := l.Split(c, size), c + size;
    CellBacked(blocks, mem, l, c);
    l.SplitTiled(c, size);
    forall d | d in l'.cells ensures NotBoth(mem', l', d) {
      assert NotBoth(mem, l, c);
      if d in l.cells {
        assert NotBoth(mem, l, d) && l.Apart(d, c) && l.Apart(c, d);
      }
    }
  }

  lemma FewerFreesCoalesced(mem: Mem, mem': Mem, l: Layout)
    requires Coalesced(mem, l) && Frees(mem', l) <= Frees(mem, l)
    ensures Coalesced(mem', l)
  {
    forall d | d in l.cells ensures NotBoth(mem', l, d) { assert NotBoth(mem, l, d); }
  }

  lemma FreedBut(mem: Mem, mem': Mem, l: Layout, c: nat)
    requires Coalesced(mem, l) && Frees(mem', l) == Frees(mem, l) + {c}
    ensures CoalescedBut(mem', l, c)
  {
    forall d | d in l.cells && d != c && l.After(d) != c ensures NotBoth(mem', l, d) { assert NotBoth(mem, l, d); }
  }

  /** A freed cell that has taken over the free cell behind it. */
  lemma MergedForward(blocks: seq<MapEntry>, mem: Mem, l: Layout, c: nat, mem': Mem)
    requires Sound(blocks, mem, l) && CoalescedBut(mem, l, c) && c in Frees(mem, l) && l.After(c) in Frees(mem, l)
    requires Frees(mem', l.Merge(c)) == Frees(mem, l) - {l.After(c)}
    ensures CoalescedBut(mem', l.Merge(c), c) && NotBoth(mem', l.Merge(c), c)
  {
    var d, l' := l.After(c), l.Merge(c);
    assert l.CellOk(c) && l.CellOk(d);
    assert NotBoth(mem, l, d);
    forall e | e in l'.cells && e != c && l'.After(e) != c ensures NotBoth(mem', l', e) {
      assert NotBoth(mem, l, e);
    }
  }

  /** A freed cell taken over by the free cell before it. */
  lemma MergedBackward(blocks: seq<MapEntry>, mem: Mem, l: Layout, p: nat, c: nat, mem': Mem)
    requires Sound(blocks, mem, l) && p in Frees(mem, l) && l.After(p) == c && c in Frees(mem, l)
    requires CoalescedBut(mem, l, c) && NotBoth(mem, l, c)
    requires Frees(mem', l.Merge(p)) == Frees(mem, l) - {c}
    ensures Coalesced(mem', l.Merge(p))
  {
    var l' := l.Merge(p);
    assert l.CellOk(c) && l.CellOk(p);
    forall e | e in l'.cells ensures NotBoth(mem', l', e) {
      if l.After(e) == c {
        assert l.Apart(e, p) && l.Apart(p, e) && l.CellOk(e);
      } else {
        assert NotBoth(mem, l, e);
      }
    }
  }

  /** A freed cell with no free cell before or behind it. */
  lemma NothingToMerge(mem: Mem, l: Layout, c: nat)
    requires CoalescedBut(mem, l, c) && c in l.cells && NotBoth(mem, l, c)
    requires forall p {:trigger l.After(p)} :: p in l.cells && p in Frees(mem, l) ==> l.After(p) != c
    ensures Coalesced(mem, l)
  {
    forall d | d in l.cells ensures NotBoth(mem, l, d) {
    }
  }
}
