/** Whole runs of the allocator: what its clients hold is what is in use. */
module AllocatorRuns {
  import opened Allocator
  import opened AllocatorSteps
  import opened Cells
  import opened FreeLists
  import opened Payload
  import opened Storage

  /** A client's request; cells are named by their position in the list of cells it holds. */
  datatype Request =
    | Allocate(size: nat)
    | Free(i: nat)
    | Reallocate(i: nat, size: nat)
    | Store(i: nat, k: nat, v: int)

  ghost predicate WellFormed(kind: nat, index: nat)
  {
    index == Index(kind, OffsetOf(index))
  }

  /** The cells held are those in use, each held once. */
  ghost predicate Holds(kind: nat, held: seq<nat>, live: set<nat>)
  {
    && (forall i {:trigger held[i]} :: 0 <= i < |held| ==> WellFormed(kind, held[i]) && OffsetOf(held[i]) in live)
    && (forall i, j :: 0 <= i < j < |held| ==> OffsetOf(held[i]) != OffsetOf(held[j]))
    && (forall c {:trigger c in live} :: c in live ==> exists i :: 0 <= i < |held| && OffsetOf(held[i]) == c)
  }

  lemma HoldsNew(kind: nat, held: seq<nat>, live: set<nat>, index: nat)
    requires Holds(kind, held, live) && OffsetOf(index) !in live && WellFormed(kind, index)
    ensures Holds(kind, held + [index], live + {OffsetOf(index)})
  {
    hide OffsetOf, WellFormed;
    var held', live' := held + [index], live + {OffsetOf(index)};
    forall c | c in live' ensures exists i :: 0 <= i < |held'| && OffsetOf(held'[i]) == c {
      if c in live {
        var i :| 0 <= i < |held| && OffsetOf(held[i]) == c;
        assert held'[i] == held[i];
      } else {
        assert held'[|held|] == index;
      }
    }
  }

  lemma HoldsFewer(kind: nat, held: seq<nat>, live: set<nat>, k: nat)
    requires Holds(kind, held, live) && k < |held|
    ensures Holds(kind, held[..k] + held[k + 1..], live - {OffsetOf(held[k])})
  {
    hide OffsetOf, WellFormed;
    var held', live' := held[..k] + held[k + 1..], live - {OffsetOf(held[k])};
    forall i | 0 <= i < |held'| ensures held'[i] == held[if i < k then i else i + 1] {
    }
    forall c | c in live' ensures exists i :: 0 <= i < |held'| && OffsetOf(held'[i]) == c {
      var i :| 0 <= i < |held| && OffsetOf(held[i]) == c;
      assert held'[if i < k then i else i - 1] == held[i];
    }
  }

  lemma HoldsMoved(kind: nat, held: seq<nat>, live: set<nat>, k: nat, index: nat)
    requires Holds(kind, held, live) && k < |held| && WellFormed(kind, index)
    requires OffsetOf(index) == OffsetOf(held[k]) || OffsetOf(index) !in live
    ensures Holds(kind, held[k := index], live - {OffsetOf(held[k])} + {OffsetOf(index)})
  {
    hide OffsetOf, WellFormed;
    var held', live' := held[k := index], live - {OffsetOf(held[k])} + {OffsetOf(index)};
    forall c | c in live' ensures exists i :: 0 <= i < |held'| && OffsetOf(held'[i]) == c {
      if c == OffsetOf(index) {
        assert held'[k] == index;
      } else {
        var i :| 0 <= i < |held| && OffsetOf(held[i]) == c;
        assert held'[i] == held[i];
      }
    }
  }

  // ----- what the clients know

  /** What the held cells contain, as far as the requests have said: the cells as buffers of their own.  A
      new cell is zero, reallocating keeps what fits, and storing a word changes its four bytes. */
  ghost function Served(known: seq<seq<nat>>, request: Request, ok: bool): seq<seq<nat>>
  {
    match request
    case Allocate(size) => if ok then known + [seq(size, j => 0)] else known
    case Free(i) => if i < |known| then known[..i] + known[i + 1..] else known
    case Reallocate(i, size) => if ok && i < |known| then known[i := known[i][..Min(size, |known[i]|)]] else known
    case Store(i, k, v) => if i < |known| then known[i := WordStored(known[i], k, v)] else known
  }

  ghost function WordStored(bytes: seq<nat>, k: nat, v: int): (r: seq<nat>)
    ensures |r| == |bytes|
    ensures forall j {:trigger r[j]} :: 0 <= j < |bytes| ==> r[j] == ByteStored(bytes[j], j, k, v)
  {
    seq(|bytes|, j requires 0 <= j < |bytes| => ByteStored(bytes[j], j, k, v))
  }

  /** Byte j, of value b, after word k was stored. */
  function ByteStored(b: nat, j: nat, k: nat, v: int): nat
  {
    if 4 * k <= j < 4 * k + 4 then Byte(v, j - 4 * k) else b
  }

  ghost function AllServed(requests: seq<Request>, outcomes: seq<bool>): seq<seq<nat>>
    requires |outcomes| == |requests|
  {
    var n := |requests|;
    if n == 0 then [] else Served(AllServed(requests[..n - 1], outcomes[..n - 1]), requests[n - 1], outcomes[n - 1])
  }

  /** Cell c has room for these bytes, and starts with them. */
  ghost predicate Contains(mem: Mem, c: nat, bytes: seq<nat>)
  {
    |bytes| <= Capacity(mem, c) && forall j {:trigger bytes[j]} :: 0 <= j < |bytes| ==> ByteAt(mem, c + 4, j) == bytes[j]
  }

  ghost predicate Known(mem: Mem, held: seq<nat>, known: seq<seq<nat>>)
  {
    |known| == |held| && forall i {:trigger known[i]} :: 0 <= i < |held| ==> Contains(mem, OffsetOf(held[i]), known[i])
  }

  /** A cell that was left alone contains what it did. */
  lemma StillContains(blocks: seq<MapEntry>, mem: Mem, l: Layout, mem': Mem, c: nat, bytes: seq<nat>)
    requires Sound(blocks, mem, l) && c in Live(mem, l) && Kept(mem, mem', c) && Contains(mem, c, bytes)
    ensures Contains(mem', c, bytes)
  {
    OwnWords(blocks, mem, l, c, |bytes|);
    KeptBytes(mem, mem', c, |bytes|);
    hide Sound, HasWords, ByteAt;
    forall j | 0 <= j < |bytes| ensures ByteAt(mem', c + 4, j) == bytes[j] { assert ByteAt(mem, c + 4, j) == bytes[j]; }
  }

  /** The bytes of a new cell are zero. */
  lemma NewContains(mem: Mem, l: Layout, mem': Mem, l': Layout, c: nat, size: nat)
    requires Allocated(mem, l, mem', l', c, size)
    requires c % 4 == 0
    ensures Contains(mem', c, seq(size, j => 0))
  {
    RoundedCell(size);
    forall j {:trigger ByteAt(mem', c + 4, j)} | 0 <= j < size ensures ByteAt(mem', c + 4, j) == 0 {
      ZeroWord(mem', c + 4, j / 4, c, CellSize(size));
      ZeroByte(j % 4);
    }
  }

  lemma ZeroWord(mem: Mem, base: nat, k: nat, c: nat, n: nat)
    requires base == c + 4 && c % 4 == 0 && base + 4 * k < c + n
    requires forall a {:trigger mem[a]} :: a in mem && c + 4 <= a < c + n && a % 4 == 0 ==> mem[a] == 0
    ensures Word(mem, base, k) == 0
  {
  }

  lemma {:induction false} ZeroByte(j: nat)
    ensures Byte(0, j) == 0
  {
    if j > 0 { ZeroByte(j - 1); }
  }

  lemma MovedContains(mem: Mem, live: set<nat>, mem': Mem, live': set<nat>, c: nat, c': nat, size: nat, bytes: seq<nat>)
    requires Moved(mem, live, mem', live', c, c', size) && Contains(mem, c, bytes)
    ensures Contains(mem', c', bytes[..Min(size, |bytes|)])
  {
    hide ByteAt;
    forall j | 0 <= j < Min(size, |bytes|) ensures ByteAt(mem', c' + 4, j) == bytes[j] {
      assert ByteAt(mem', c' + 4, j) == ByteAt(mem, c + 4, j);
    }
  }

  lemma StoredContains(mem: Mem, mem': Mem, c: nat, k: nat, v: int, bytes: seq<nat>)
    requires Contains(mem, c, bytes) && c in mem
    requires if 4 * k + 4 <= Capacity(mem, c) then mem' == mem[c + 4 + 4 * k := v] else mem' == mem && c % 4 == 0 && mem[c] % 4 == 0
    ensures Contains(mem', c, WordStored(bytes, k, v))
  {
    hide Byte;
    var after := WordStored(bytes, k, v);
    forall j | 0 <= j < |bytes| ensures ByteAt(mem', c + 4, j) == after[j] {
      assert ByteAt(mem, c + 4, j) == bytes[j];
      assert 4 * k <= j < 4 * k + 4 <==> j / 4 == k;
    }
  }

  // ----- which requests are served

  /** A storage between two requests, and the cells its clients hold. */
  datatype Moment = Moment(mem: Mem, l: Layout, blocks: seq<MapEntry>, held: seq<nat>)

  /** The request will be served: there is room for what it asks for, or it needs none. */
  ghost predicate Able(m: Moment, limit: nat, request: Request)
  {
    match request
    case Allocate(size) => Available(m.mem, m.l, |m.blocks|, limit, size)
    case Reallocate(i, size) =>
      i < |m.held| ==> size <= Capacity(m.mem, OffsetOf(m.held[i])) || Available(m.mem, m.l, |m.blocks|, limit, size)
    case _ => true
  }

  /** The blocks it adds to the storage. */
  ghost function Added(m: Moment, limit: nat, request: Request): nat
  {
    match request
    case Allocate(size) => Growth(m.mem, m.l, |m.blocks|, limit, size)
    case Reallocate(i, size) =>
      if i < |m.held| && !(Capacity(m.mem, OffsetOf(m.held[i])) / 2 <= size <= Capacity(m.mem, OffsetOf(m.held[i])))
      then Growth(m.mem, m.l, |m.blocks|, limit, size) else 0
    case _ => 0
  }

  /** The blocks a request takes at most. */
  function Need(request: Request): nat
  {
    if request.Allocate? || request.Reallocate? then BinBlocks(CellSize(request.size)) else 0
  }

  function Demand(requests: seq<Request>): nat
  {
    if requests == [] then 0 else Demand(requests[..|requests| - 1]) + Need(requests[|requests| - 1])
  }

  /** A request that is not served would take more than the limit leaves. */
  lemma NeedIsEnough(m: Moment, limit: nat, request: Request)
    ensures Added(m, limit, request) <= Need(request)
    ensures !Able(m, limit, request) ==> |m.blocks| + Need(request) > limit
  {
    hide HasRoom, CellSize, BinBlocks, Capacity, OffsetOf, Frees;
  }

  /** The storage is sound and within its limit; what is in use is what is held; and it contains what is known. */
  ghost predicate InOrder(kind: nat, limit: nat, m: Moment, known: seq<seq<nat>>)
  {
    && Sound(m.blocks, m.mem, m.l) && |m.blocks| <= limit
    && Holds(kind, m.held, Live(m.mem, m.l)) && Known(m.mem, m.held, known)
  }

  // ----- serving requests

  /** One request. */
  method Serve(d: Dual, request: Request, held: seq<nat>, ghost known: seq<seq<nat>>) returns (held': seq<nat>, ok: bool)
    requires d.Valid() && Holds(d.Kind, held, Live(d.Mem, d.L)) && Known(d.Mem, held, known)
    modifies d
    ensures d.Valid() && Holds(d.Kind, held', Live(d.Mem, d.L)) && Known(d.Mem, held', Served(known, request, ok))
    ensures var m := old(Moment(d.Mem, d.L, d.BlockList, held));
      (ok <==> Able(m, d.Limit, request)) && |d.BlockList| == |m.blocks| + Added(m, d.Limit, request)
  {
    hide Live, Holds, Known, Allocated, Moved, OffsetOf, Index, Sound, Coalesced, Listed, Served, AllKept, Capacity, Available, Growth;
    held', ok := held, true;
    ghost var blocks, mem, l := d.BlockList, d.Mem, d.L;
    match request {
      case Allocate(size) =>
        var index := d.AllocateCell(size);
        ok := index != HCELL_NIL;
        if ok {
          NewlyHeld(mem, l, d.Mem, d.L, index, size);
          HoldsNew(d.Kind, held, Live(mem, l), index);
          held' := held + [index];
          KnownNew(d.Kind, blocks, mem, l, d.BlockList, d.Mem, d.L, held, known, index, size);
        } else {
          ServedNot(known, request);
        }
      case Free(i) =>
        if i < |held| {
          HeldCell(d.Kind, held, Live(d.Mem, d.L), i);
          HoldsFewer(d.Kind, held, Live(d.Mem, d.L), i);
          d.FreeCell(held[i]);
          held' := held[..i] + held[i + 1..];
          KnownFewer(d.Kind, blocks, mem, l, d.Mem, held, known, i);
        } else {
          ServedOutside(d.Mem, held, known, request);
        }
      case Reallocate(i, size) =>
        if i < |held| {
          HeldCell(d.Kind, held, Live(d.Mem, d.L), i);
          var index := d.ReallocateCell(held[i], size);
          ok := index != HCELL_NIL;
          if ok {
            MovedHeld(mem, Live(mem, l), d.Mem, Live(d.Mem, d.L), OffsetOf(held[i]), OffsetOf(index), size);
            HoldsMoved(d.Kind, held, Live(mem, l), i, index);
            held' := held[i := index];
            KnownMoved(d.Kind, blocks, mem, l, d.Mem, Live(d.Mem, d.L), held, known, i, index, size);
          } else {
            ServedNot(known, request);
          }
        } else {
          ServedOutside(d.Mem, held, known, request);
        }
      case Store(i, k, v) =>
        if i < |held| {
          HeldCell(d.Kind, held, Live(d.Mem, d.L), i);
          if 4 * k + 4 <= Capacity(d.Mem, OffsetOf(held[i])) {
            d.Store(held[i], k, v);
          }
          KnownStored(d.Kind, blocks, mem, l, d.Mem, held, known, i, k, v);
        } else {
          ServedOutside(d.Mem, held, known, request);
        }
    }
  }

  lemma ServedNot(known: seq<seq<nat>>, request: Request)
    requires request.Allocate? || request.Reallocate?
    ensures Served(known, request, false) == known
  {
  }

  lemma ServedOutside(mem: Mem, held: seq<nat>, known: seq<seq<nat>>, request: Request)
    requires Known(mem, held, known) && !request.Allocate? && request.i >= |held|
    ensures Served(known, request, true) == known
  {
  }

  lemma KnownStill(kind: nat, blocks: seq<MapEntry>, mem: Mem, l: Layout, mem': Mem, held: seq<nat>, known: seq<seq<nat>>)
    requires Sound(blocks, mem, l) && Holds(kind, held, Live(mem, l)) && Known(mem, held, known)
    requires AllKept(mem, mem', Live(mem, l))
    ensures Known(mem', held, known)
  {
    hide Sound, Contains, OffsetOf;
    forall i | 0 <= i < |held| ensures Contains(mem', OffsetOf(held[i]), known[i]) {
      HeldCell(kind, held, Live(mem, l), i);
      assert Contains(mem, OffsetOf(held[i]), known[i]);
      StillContains(blocks, mem, l, mem', OffsetOf(held[i]), known[i]);
    }
  }

  lemma KnownNew(kind: nat, blocks: seq<MapEntry>, mem: Mem, l: Layout, blocks': seq<MapEntry>, mem': Mem, l': Layout,
                 held: seq<nat>, known: seq<seq<nat>>, index: nat, size: nat)
    requires Sound(blocks, mem, l) && Holds(kind, held, Live(mem, l)) && Known(mem, held, known) && Sound(blocks', mem', l')
    requires AllKept(mem, mem', Live(mem, l)) && Allocated(mem, l, mem', l', OffsetOf(index), size)
    ensures Known(mem', held + [index], Served(known, Allocate(size), true))
  {
    KnownStill(kind, blocks, mem, l, mem', held, known);
    CellBacked(blocks', mem', l', OffsetOf(index));
    hide Sound, Contains, OffsetOf;
    NewContains(mem, l, mem', l', OffsetOf(index), size);
  }

  lemma KnownFewer(kind: nat, blocks: seq<MapEntry>, mem: Mem, l: Layout, mem': Mem, held: seq<nat>, known: seq<seq<nat>>, k: nat)
    requires Sound(blocks, mem, l) && Holds(kind, held, Live(mem, l)) && Known(mem, held, known) && k < |held|
    requires AllKept(mem, mem', Live(mem, l) - {OffsetOf(held[k])})
    ensures Known(mem', held[..k] + held[k + 1..], Served(known, Free(k), true))
  {
    hide Sound, Contains, OffsetOf;
    var held', known' := held[..k] + held[k + 1..], known[..k] + known[k + 1..];
    forall i | 0 <= i < |held'| ensures Contains(mem', OffsetOf(held'[i]), known'[i]) {
      var j := if i < k then i else i + 1;
      OtherStill(kind, blocks, mem, l, mem', held, known, k, j);
    }
  }

  /** A held cell other than cell k. */
  lemma OtherStill(kind: nat, blocks: seq<MapEntry>, mem: Mem, l: Layout, mem': Mem, held: seq<nat>, known: seq<seq<nat>>, k: nat, j: nat)
    requires Sound(blocks, mem, l) && Holds(kind, held, Live(mem, l)) && Known(mem, held, known) && k < |held| && j < |held| && j != k
    requires AllKept(mem, mem', Live(mem, l) - {OffsetOf(held[k])})
    ensures Contains(mem', OffsetOf(held[j]), known[j])
  {
    hide Sound, Contains, OffsetOf;
    HeldCell(kind, held, Live(mem, l), j);
    assert Contains(mem, OffsetOf(held[j]), known[j]);
    assert OffsetOf(held[if j < k then j else k]) != OffsetOf(held[if j < k then k else j]);
    StillContains(blocks, mem, l, mem', OffsetOf(held[j]), known[j]);
  }

  lemma KnownMoved(kind: nat, blocks: seq<MapEntry>, mem: Mem, l: Layout, mem': Mem, live': set<nat>, held: seq<nat>,
                   known: seq<seq<nat>>, k: nat, index: nat, size: nat)
    requires Sound(blocks, mem, l) && Holds(kind, held, Live(mem, l)) && Known(mem, held, known) && k < |held|
    requires Moved(mem, Live(mem, l), mem', live', OffsetOf(held[k]), OffsetOf(index), size)
    ensures Known(mem', held[k := index], Served(known, Reallocate(k, size), true))
  {
    assert Contains(mem, OffsetOf(held[k]), known[k]);
    hide Sound, Contains, OffsetOf;
    MovedContains(mem, Live(mem, l), mem', live', OffsetOf(held[k]), OffsetOf(index), size, known[k]);
    forall j | 0 <= j < |held| && j != k ensures Contains(mem', OffsetOf(held[j]), known[j]) {
      OtherStill(kind, blocks, mem, l, mem', held, known, k, j);
    }
  }

  lemma LiveAligned(blocks: seq<MapEntry>, mem: Mem, l: Layout, c: nat)
    requires Sound(blocks, mem, l) && c in Live(mem, l)
    ensures c in mem && c % 4 == 0 && mem[c] % 4 == 0
  {
    CellBacked(blocks, mem, l, c);
    assert l.CellOk(c);
    hide Sound;
    Sixteenth(c);
    Sixteenth(l.cells[c].size);
  }

  lemma Sixteenth(n: int)
    requires n % 16 == 0
    ensures n % 4 == 0 && (-n) % 4 == 0
  {
    assert n == 4 * (4 * (n / 16));
  }

  lemma KnownStored(kind: nat, blocks: seq<MapEntry>, mem: Mem, l: Layout, mem': Mem, held: seq<nat>, known: seq<seq<nat>>,
                    i: nat, k: nat, v: int)
    requires Sound(blocks, mem, l) && Holds(kind, held, Live(mem, l)) && Known(mem, held, known) && i < |held|
    requires var c := OffsetOf(held[i]);
      if 4 * k + 4 <= Capacity(mem, c) then mem' == mem[c + 4 + 4 * k := v] && AllKept(mem, mem', Live(mem, l) - {c}) else mem' == mem
    ensures Known(mem', held, Served(known, Store(i, k, v), true))
  {
    hide Sound, Contains, OffsetOf, Capacity, WordStored;
    var c := OffsetOf(held[i]);
    HeldCell(kind, held, Live(mem, l), i);
    LiveAligned(blocks, mem, l, c);
    assert Contains(mem, c, known[i]);
    StoredContains(mem, mem', c, k, v, known[i]);
    forall j | 0 <= j < |held| && j != i ensures Contains(mem', OffsetOf(held[j]), known[j]) {
      if 4 * k + 4 <= Capacity(mem, c) { OtherStill(kind, blocks, mem, l, mem', held, known, i, j); }
    }
  }

  lemma NewlyHeld(mem: Mem, l: Layout, mem': Mem, l': Layout, index: nat, size: nat)
    requires Allocated(mem, l, mem', l', OffsetOf(index), size)
    ensures OffsetOf(index) !in Live(mem, l) && Live(mem', l') == Live(mem, l) + {OffsetOf(index)}
  {
  }

  lemma MovedHeld(mem: Mem, live: set<nat>, mem': Mem, live': set<nat>, c: nat, c': nat, size: nat)
    requires Moved(mem, live, mem', live', c, c', size)
    ensures (c' == c || c' !in live) && live' == live - {c} + {c'}
  {
  }

  lemma HeldCell(kind: nat, held: seq<nat>, live: set<nat>, i: nat)
    requires Holds(kind, held, live) && i < |held|
    ensures held[i] == Index(kind, OffsetOf(held[i])) && OffsetOf(held[i]) in live
  {
  }

  lemma NowInOrder(d: Dual, held: seq<nat>, known: seq<seq<nat>>)
    requires d.Valid() && Holds(d.Kind, held, Live(d.Mem, d.L)) && Known(d.Mem, held, known)
    ensures InOrder(d.Kind, d.Limit, Moment(d.Mem, d.L, d.BlockList, held), known)
  {
  }

  // ----- runs

  /** Request n is served exactly if there is room for it, which there is as long as the requests so far could
      have had a bin each; it adds the blocks that takes. */
  ghost predicate Fair(limit: nat, requests: seq<Request>, outcomes: seq<bool>, moments: seq<Moment>, n: nat)
    requires n < |requests| == |outcomes| < |moments|
  {
    && (outcomes[n] <==> Able(moments[n], limit, requests[n]))
    && |moments[n + 1].blocks| == |moments[n].blocks| + Added(moments[n], limit, requests[n])
    && (!outcomes[n] ==> Demand(requests[..n + 1]) > limit)
  }

  /** The storage before, between and after the requests, from an empty one on. */
  ghost predicate Trace(kind: nat, limit: nat, requests: seq<Request>, outcomes: seq<bool>, moments: seq<Moment>)
  {
    && |outcomes| == |requests| && |moments| == |requests| + 1 && moments[0] == Moment(map[], Layout(map[], map[]), [], [])
    && (forall n {:trigger moments[n]} :: 0 <= n <= |requests| ==> InOrder(kind, limit, moments[n], AllServed(requests[..n], outcomes[..n])))
    && (forall n {:trigger Fair(limit, requests, outcomes, moments, n)} :: 0 <= n < |requests| ==> Fair(limit, requests, outcomes, moments, n))
  }

  lemma FairStill(limit: nat, requests: seq<Request>, outcomes: seq<bool>, moments: seq<Moment>, request: Request, ok: bool, m: Moment, n: nat)
    requires n < |requests| == |outcomes| && |moments| == |requests| + 1 && Fair(limit, requests, outcomes, moments, n)
    ensures Fair(limit, requests + [request], outcomes + [ok], moments + [m], n)
  {
    hide Able, Added, Demand;
    assert (requests + [request])[..n + 1] == requests[..n + 1];
  }

  lemma OneMoreServed(kind: nat, limit: nat, requests: seq<Request>, outcomes: seq<bool>, moments: seq<Moment>, request: Request, ok: bool, m: Moment)
    requires Trace(kind, limit, requests, outcomes, moments)
    requires var last := moments[|requests|];
      (ok <==> Able(last, limit, request)) && |m.blocks| == |last.blocks| + Added(last, limit, request)
    requires |moments[|requests|].blocks| <= Demand(requests)
    requires InOrder(kind, limit, m, Served(AllServed(requests, outcomes), request, ok))
    ensures Trace(kind, limit, requests + [request], outcomes + [ok], moments + [m]) && |m.blocks| <= Demand(requests + [request])
  {
    var n, requests', outcomes', moments' := |requests|, requests + [request], outcomes + [ok], moments + [m];
    NeedIsEnough(moments[n], limit, request);
    hide Able, Added, Need, InOrder, Served, Fair;
    assert requests'[..n] == requests && outcomes'[..n] == outcomes && requests'[..n + 1] == requests' && outcomes'[..n + 1] == outcomes';
    assert Demand(requests') == Demand(requests) + Need(request);
    assert AllServed(requests', outcomes') == Served(AllServed(requests, outcomes), request, ok);
    LastIsFair(limit, requests', outcomes', moments', n);
    hide Demand, AllServed;
    forall k | 0 <= k <= n + 1 ensures InOrder(kind, limit, moments'[k], AllServed(requests'[..k], outcomes'[..k])) {
      if k <= n {
        assert requests'[..k] == requests[..k] && outcomes'[..k] == outcomes[..k] && moments'[k] == moments[k];
      }
    }
    forall k | 0 <= k <= n ensures Fair(limit, requests', outcomes', moments', k) {
      if k < n { FairStill(limit, requests, outcomes, moments, request, ok, m, k); }
    }
  }

  lemma LastIsFair(limit: nat, requests: seq<Request>, outcomes: seq<bool>, moments: seq<Moment>, n: nat)
    requires |requests| == |outcomes| == n + 1 && |moments| == n + 2
    requires outcomes[n] <==> Able(moments[n], limit, requests[n])
    requires |moments[n + 1].blocks| == |moments[n].blocks| + Added(moments[n], limit, requests[n])
    requires !outcomes[n] ==> Demand(requests) > limit
    ensures Fair(limit, requests, outcomes, moments, n)
  {
    hide Able, Added, Demand;
    assert requests[..n + 1] == requests;
  }

  /** Any requests on a fresh storage: before and after each, the layout, the lists and the cells agree, what is
      in use is what was handed out and not given back, and every cell handed out contains what the requests
      put there; and a request is served exactly if there is room for it. */
  method Run(kind: nat, limit: nat, requests: seq<Request>)
    returns (d: Dual, held: seq<nat>, outcomes: seq<bool>, ghost moments: seq<Moment>)
    requires kind < 2 && limit <= 0x7FFFF
    ensures fresh(d) && d.Valid() && d.Kind == kind && d.Limit == limit
    ensures Trace(kind, limit, requests, outcomes, moments) && moments[|requests|] == Moment(d.Mem, d.L, d.BlockList, held)
    ensures Holds(kind, held, Live(d.Mem, d.L)) && Known(d.Mem, held, AllServed(requests, outcomes))
  {
    d := new Dual(kind, limit);
    held, outcomes, moments := [], [], [Moment(map[], Layout(map[], map[]), [], [])];
    NowInOrder(d, held, []);
    FirstMoment(kind, limit, moments);
    hide *;
    for n := 0 to |requests|
      invariant fresh(d) && d.Valid() && d.Kind == kind && d.Limit == limit && Holds(kind, held, Live(d.Mem, d.L))
      invariant |outcomes| == n && Known(d.Mem, held, AllServed(requests[..n], outcomes))
      invariant Trace(kind, limit, requests[..n], outcomes, moments) && |moments| == n + 1
      invariant moments[n] == Moment(d.Mem, d.L, d.BlockList, held) && |d.BlockList| <= Demand(requests[..n])
    {
      var ok;
      ghost var known := AllServed(requests[..n], outcomes);
      held, ok := Serve(d, requests[n], held, known);
      NowInOrder(d, held, Served(known, requests[n], ok));
      OneMoreServed(kind, limit, requests[..n], outcomes, moments, requests[n], ok, Moment(d.Mem, d.L, d.BlockList, held));
      NextServed(requests, outcomes, n, ok);
      outcomes, moments := outcomes + [ok], moments + [Moment(d.Mem, d.L, d.BlockList, held)];
    }
    assert requests[..|requests|] == requests;
  }

  lemma NextServed(requests: seq<Request>, outcomes: seq<bool>, n: nat, ok: bool)
    requires n == |outcomes| < |requests|
    ensures requests[..n + 1] == requests[..n] + [requests[n]]
    ensures AllServed(requests[..n + 1], outcomes + [ok]) == Served(AllServed(requests[..n], outcomes), requests[n], ok)
  {
    hide Served;
    assert requests[..n + 1][..n] == requests[..n] && (outcomes + [ok])[..n] == outcomes;
  }

  lemma FirstMoment(kind: nat, limit: nat, moments: seq<Moment>)
    requires moments == [Moment(map[], Layout(map[], map[]), [], [])] && InOrder(kind, limit, moments[0], [])
    ensures Trace(kind, limit, [], [], moments) && Known(moments[0].mem, [], AllServed([], []))
    ensures Holds(kind, [], Live(moments[0].mem, moments[0].l))
  {
    hide Sound, Known, Holds;
    assert AllServed([], []) == [];
  }
}
