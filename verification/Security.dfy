/** Security cells and the keys that share them: reference counts, and the ring the cells form. */
module Security {
  import opened Indexes

  /** CM_KEY_SECURITY, without the descriptor. */
  datatype SecurityKey = SecurityKey(referenceCount: nat, flink: HCell, blink: HCell)

  /** The keys that name a security cell. */
  ghost function Holders(nodes: map<HCell, HCell>, s: HCell): set<HCell>
  {
    set n | n in nodes && nodes[n] == s
  }

  /** As many references as keys that name it, and at least one. */
  ghost predicate Counted(nodes: map<HCell, HCell>, securities: map<HCell, SecurityKey>, s: HCell)
    requires s in securities
  {
    securities[s].referenceCount == |Holders(nodes, s)| > 0
  }

  /** The neighbours of a cell in the ring name it. */
  ghost predicate InRing(securities: map<HCell, SecurityKey>, s: HCell)
    requires s in securities
  {
    && securities[s].flink in securities && securities[securities[s].flink].blink == s
    && securities[s].blink in securities && securities[securities[s].blink].flink == s
  }

  ghost predicate Conserved(nodes: map<HCell, HCell>, securities: map<HCell, SecurityKey>)
  {
    && (forall n {:trigger nodes[n]} :: n in nodes ==> n != Nil && (nodes[n] == Nil || nodes[n] in securities))
    && (forall s {:trigger Counted(nodes, securities, s)} :: s in securities ==> s != Nil && Counted(nodes, securities, s))
    && (forall s {:trigger InRing(securities, s)} :: s in securities ==> InRing(securities, s))
  }

  /** One more key names s. */
  lemma OneMoreHolder(nodes: map<HCell, HCell>, n: HCell, s: HCell)
    requires n !in nodes || nodes[n] != s
    ensures Holders(nodes[n := s], s) == Holders(nodes, s) + {n} && |Holders(nodes[n := s], s)| == |Holders(nodes, s)| + 1
    ensures forall r {:trigger Holders(nodes, r)} :: r != s && (n !in nodes || nodes[n] != r) ==> Holders(nodes[n := s], r) == Holders(nodes, r)
  {
    assert Holders(nodes[n := s], s) == Holders(nodes, s) + {n};
    forall r | r != s && (n !in nodes || nodes[n] != r) ensures Holders(nodes[n := s], r) == Holders(nodes, r) {
    }
  }

  /** One key less names a cell: nodes' has no n, or n names nothing. */
  lemma OneHolderLess(nodes: map<HCell, HCell>, nodes': map<HCell, HCell>, n: HCell)
    requires n in nodes && nodes[n] != Nil && (nodes' == nodes - {n} || nodes' == nodes[n := Nil])
    ensures |Holders(nodes', nodes[n])| == |Holders(nodes, nodes[n])| - 1
    ensures forall r {:trigger Holders(nodes, r)} :: r != nodes[n] && r != Nil ==> Holders(nodes', r) == Holders(nodes, r)
  {
    assert Holders(nodes', nodes[n]) == Holders(nodes, nodes[n]) - {n};
    forall r | r != nodes[n] && r != Nil ensures Holders(nodes', r) == Holders(nodes, r) {
    }
  }

  /** The ring without a cell: its neighbours name each other. */
  function Unlinked(securities: map<HCell, SecurityKey>, s: HCell): map<HCell, SecurityKey>
    requires s in securities && securities[s].flink in securities && securities[s].blink in securities
  {
    var flink, blink := securities[s].flink, securities[s].blink;
    var step := securities[flink := securities[flink].(blink := blink)];
    step[blink := step[blink].(flink := flink)]
  }

  /** The next cell in either direction, not counting s. */
  ghost predicate InOrder(securities: map<HCell, SecurityKey>, s: HCell, before: SecurityKey, after: SecurityKey)
    requires s in securities
  {
    && after.flink == (if before.flink == s then securities[s].flink else before.flink)
    && after.blink == (if before.blink == s then securities[s].blink else before.blink)
  }

  lemma RingWithout(securities: map<HCell, SecurityKey>, s: HCell)
    requires s in securities && InRing(securities, s)
    requires forall r {:trigger InRing(securities, r)} :: r in securities ==> InRing(securities, r)
    ensures var rest := Unlinked(securities, s) - {s}; forall r {:trigger InRing(rest, r)} :: r in rest ==> InRing(rest, r)
    ensures var rest := Unlinked(securities, s) - {s}; forall r {:trigger rest[r]} :: r in rest ==>
      rest[r].referenceCount == securities[r].referenceCount && InOrder(securities, s, securities[r], rest[r])
  {
    var rest := Unlinked(securities, s) - {s};
    hide InRing, Unlinked, InOrder;
    forall r | r in rest
      ensures InRing(rest, r) && rest[r].referenceCount == securities[r].referenceCount && InOrder(securities, s, securities[r], rest[r])
    {
      NeighboursIn(securities, s);
      assert r in securities && InRing(securities, r);
      StillInRing(securities, s, r);
    }
  }

  lemma NeighboursIn(securities: map<HCell, SecurityKey>, s: HCell)
    requires s in securities && InRing(securities, s)
    ensures securities[s].flink in securities && securities[s].blink in securities && Unlinked(securities, s).Keys == securities.Keys
  {
  }

  lemma StillInRing(securities: map<HCell, SecurityKey>, s: HCell, r: HCell)
    requires s in securities && r in securities && r != s && InRing(securities, s) && InRing(securities, r)
    ensures var rest := Unlinked(securities, s) - {s}; InRing(rest, r) && rest[r].referenceCount == securities[r].referenceCount
    ensures InOrder(securities, s, securities[r], (Unlinked(securities, s) - {s})[r])
  {
  }

  class Registry {
    var Nodes: map<HCell, HCell>               // the Security field of each key
    var Securities: map<HCell, SecurityKey>

    ghost predicate Valid()
      reads this
    {
      Conserved(Nodes, Securities) && Nodes.Keys !! Securities.Keys
    }

    /** A hive with a root key, and a security cell for it: CmiCreateSecurityKey. */
    constructor (root: HCell, securityCell: HCell)
      requires root != Nil && securityCell != Nil && root != securityCell
      ensures Valid() && Nodes == map[root := securityCell] && Securities.Keys == {securityCell}
    {
      Nodes := map[root := securityCell];
      Securities := map[securityCell := SecurityKey(1, securityCell, securityCell)];
      new;
      assert Holders(Nodes, securityCell) == {root};
    }

    /** CmiCreateSubKey: the new key shares its parent's security cell. */
    method CreateSubKey(parent: HCell, cell: HCell)
      requires Valid() && parent in Nodes && cell != Nil && cell !in Nodes && cell !in Securities
      modifies this
      ensures Valid() && Nodes == old(Nodes)[cell := old(Nodes)[parent]] && Securities.Keys == old(Securities).Keys
    {
      var security := Nodes[parent];
      ghost var nodes, securities := Nodes, Securities;
      OneMoreHolder(Nodes, cell, security);
      Nodes := Nodes[cell := security];
      if security != Nil {
        var key := Securities[security];
        Securities := Securities[security := key.(referenceCount := key.referenceCount + 1)];
      }
      CreatedConserved(nodes, securities, parent, cell, Securities);
    }

    /** CmpRemoveSecurityCellList: the neighbours of the cell name each other from now on. */
    method RemoveSecurityCellList(securityCell: HCell)
      requires securityCell in Securities && InRing(Securities, securityCell)
      modifies this`Securities
      ensures Securities == Unlinked(old(Securities), securityCell)
    {
      var flink, blink := Securities[securityCell].flink, Securities[securityCell].blink;
      Securities := Securities[flink := Securities[flink].(blink := blink)];
      Securities := Securities[blink := Securities[blink].(flink := flink)];
    }

    /** CmpFreeSecurityDescriptor: one reference less, and the cell is unlinked and freed with the last. */
    method FreeSecurityDescriptor(cell: HCell)
      requires Valid() && cell in Nodes
      modifies this
      ensures Valid() && Nodes == old(Nodes)[cell := Nil]
      ensures var s := old(Nodes)[cell];
        Securities.Keys == old(Securities).Keys - if s != Nil && Holders(old(Nodes), s) == {cell} then {s} else {}
    {
      var security := Nodes[cell];
      if security == Nil {
        assert Nodes[cell := Nil] == Nodes;
        return;
      }
      ghost var nodes, securities := Nodes, Securities;
      assert Counted(Nodes, Securities, security) && InRing(Securities, security);
      LastHolder(Nodes, security, cell);
      if Securities[security].referenceCount > 1 {
        var key := Securities[security];
        Securities := Securities[security := key.(referenceCount := key.referenceCount - 1)];
      } else {
        RemoveSecurityCellList(security);
        Securities := Securities - {security};   // HvFreeCell
      }
      Nodes := Nodes[cell := Nil];
      FreedConserved(nodes, securities, cell, Securities);
    }

    /** What CmpFreeKeyByCell does about security: the descriptor is released, and then the body of the key,
        which has no security cell any more, is freed. */
    method FreeKeyByCell(cell: HCell)
      requires Valid() && cell in Nodes
      modifies this
      ensures Valid() && Nodes == old(Nodes) - {cell}
      ensures var s := old(Nodes)[cell];
        Securities.Keys == old(Securities).Keys - if s != Nil && Holders(old(Nodes), s) == {cell} then {s} else {}
    {
      FreeSecurityDescriptor(cell);
      if Nodes[cell] != Nil {   // CmpFreeKeyBody: would free the cell whoever else names it
        assert false;
      }
      BodyFreed(Nodes, Securities, cell);
      Nodes := Nodes - {cell};
    }
  }

  lemma NilIsNoCell(nodes: map<HCell, HCell>, securities: map<HCell, SecurityKey>)
    requires Conserved(nodes, securities)
    ensures Nil !in securities
  {
    forall s | s in securities ensures s != Nil { assert Counted(nodes, securities, s); }
  }

  lemma CreatedConserved(nodes: map<HCell, HCell>, securities: map<HCell, SecurityKey>, parent: HCell, cell: HCell,
                         securities': map<HCell, SecurityKey>)
    requires Conserved(nodes, securities) && parent in nodes && cell != Nil && cell !in nodes
    requires var s := nodes[parent];
      if s == Nil then securities' == securities
      else securities' == securities[s := securities[s].(referenceCount := securities[s].referenceCount + 1)]
    ensures Conserved(nodes[cell := nodes[parent]], securities')
  {
    var s := nodes[parent];
    var nodes' := nodes[cell := s];
    OneMoreHolder(nodes, cell, s);
    NilIsNoCell(nodes, securities);
    hide Holders, Counted, InRing;
    NodesConserved(nodes, securities, parent, cell);
    forall r | r in securities' ensures r != Nil && Counted(nodes', securities', r) && InRing(securities', r) {
      assert r in securities && Counted(nodes, securities, r) && InRing(securities, r);
      hide *;
      CountedStill(nodes, securities, nodes', securities', s, r);
    }
  }

  lemma NodesConserved(nodes: map<HCell, HCell>, securities: map<HCell, SecurityKey>, parent: HCell, cell: HCell)
    requires Conserved(nodes, securities) && parent in nodes && cell != Nil
    ensures var nodes' := nodes[cell := nodes[parent]];
      forall n :: n in nodes' ==> n != Nil && (nodes'[n] == Nil || nodes'[n] in securities)
  {
    var nodes' := nodes[cell := nodes[parent]];
    hide Counted, InRing;
    forall n | n in nodes' ensures n != Nil && (nodes'[n] == Nil || nodes'[n] in securities) {
      assert nodes[if n == cell then parent else n] == nodes'[n];
    }
  }

  /** One more reference to s, for one more key that names it. */
  lemma CountedStill(nodes: map<HCell, HCell>, securities: map<HCell, SecurityKey>, nodes': map<HCell, HCell>,
                     securities': map<HCell, SecurityKey>, s: HCell, r: HCell)
    requires r in securities && Counted(nodes, securities, r) && InRing(securities, r)
    requires if s !in securities then securities' == securities
      else securities' == securities[s := securities[s].(referenceCount := securities[s].referenceCount + 1)]
    requires |Holders(nodes', r)| == |Holders(nodes, r)| + if r == s then 1 else 0
    ensures Counted(nodes', securities', r) && InRing(securities', r)
  {
    hide Holders;
  }

  lemma LastHolder(nodes: map<HCell, HCell>, s: HCell, n: HCell)
    requires n in nodes && nodes[n] == s
    ensures Holders(nodes, s) == {n} <==> |Holders(nodes, s)| == 1
    ensures |Holders(nodes, s)| >= 1
  {
    assert Holders(nodes, s) == (Holders(nodes, s) - {n}) + {n};
    if |Holders(nodes, s)| == 1 { assert |Holders(nodes, s) - {n}| == 0; }
  }

  lemma FreedConserved(nodes: map<HCell, HCell>, securities: map<HCell, SecurityKey>, cell: HCell, securities': map<HCell, SecurityKey>)
    requires Conserved(nodes, securities) && cell in nodes && nodes[cell] != Nil
    requires var s := nodes[cell];
      if securities[s].referenceCount > 1 then securities' == securities[s := securities[s].(referenceCount := securities[s].referenceCount - 1)]
      else InRing(securities, s) && securities' == Unlinked(securities, s) - {s}
    ensures Conserved(nodes[cell := Nil], securities')
  {
    var s := nodes[cell];
    var nodes' := nodes[cell := Nil];
    OneHolderLess(nodes, nodes', cell);
    assert Counted(nodes, securities, s) && InRing(securities, s);
    LastHolder(nodes, s, cell);
    if securities[s].referenceCount > 1 {
      hide Holders;
      forall r | r in securities' ensures r != Nil && Counted(nodes', securities', r) && InRing(securities', r) {
        assert Counted(nodes, securities, r) && InRing(securities, r);
      }
    } else {
      RingWithout(securities, s);
      OnlyHolder(nodes, s, cell);
      hide Holders, InRing, Unlinked;
      NeighboursIn(securities, s);
      forall r | r in securities' ensures r != Nil && Counted(nodes', securities', r) {
        assert Counted(nodes, securities, r);
      }
    }
  }

  lemma OnlyHolder(nodes: map<HCell, HCell>, s: HCell, n: HCell)
    requires Holders(nodes, s) == {n}
    ensures forall m {:trigger nodes[m]} :: m in nodes && nodes[m] == s ==> m == n
  {
    forall m | m in nodes && nodes[m] == s ensures m == n { assert m in Holders(nodes, s); }
  }

  lemma BodyFreed(nodes: map<HCell, HCell>, securities: map<HCell, SecurityKey>, cell: HCell)
    requires Conserved(nodes, securities) && cell in nodes && nodes[cell] == Nil
    ensures Conserved(nodes - {cell}, securities)
  {
    forall s | s in securities ensures s != Nil && Counted(nodes - {cell}, securities, s) {
      assert Counted(nodes, securities, s);
      assert Holders(nodes - {cell}, s) == Holders(nodes, s);
    }
    forall n | n in nodes - {cell} ensures n != Nil && ((nodes - {cell})[n] == Nil || (nodes - {cell})[n] in securities) {
      assert nodes[n] == (nodes - {cell})[n];
    }
  }

  /** A key comes, below another, or goes. */
  datatype Request = Create(parent: HCell, cell: HCell) | Delete(cell: HCell)

  /** The cells that some key names. */
  ghost function InUse(nodes: map<HCell, HCell>, cells: set<HCell>): set<HCell>
  {
    set s | s in cells && Holders(nodes, s) != {}
  }

  /** The keys after some requests, and the security cell of each: a new key has that of its parent.  A cell that
      is taken, by a key or by one of the security cells still in use, is not handed out again. */
  ghost function NodesAfter(nodes: map<HCell, HCell>, cells: set<HCell>, requests: seq<Request>): map<HCell, HCell>
  {
    if requests == [] then nodes
    else
      var before := NodesAfter(nodes, cells, requests[..|requests| - 1]);
      match requests[|requests| - 1]
      case Create(parent, cell) =>
        if parent in before && cell != Nil && cell !in before && cell !in InUse(before, cells) then before[cell := before[parent]] else before
      case Delete(cell) => before - {cell}
  }

  /** Of some cells, those that are left are those in use, each with as many references as keys that name it. */
  ghost predicate CountsHolders(nodes: map<HCell, HCell>, securities: map<HCell, SecurityKey>, cells: set<HCell>)
  {
    && securities.Keys == InUse(nodes, cells)
    && forall s {:trigger securities[s]} :: s in securities ==> securities[s].referenceCount == |Holders(nodes, s)|
  }

  lemma LeftAreInUse(nodes: map<HCell, HCell>, securities: map<HCell, SecurityKey>, cells: set<HCell>)
    requires Conserved(nodes, securities) && securities.Keys <= cells && Nil !in cells
    ensures CountsHolders(nodes, securities, cells)
  {
    hide InRing;
    forall s | s in cells ensures s in securities <==> Holders(nodes, s) != {} {
      if s in securities { assert Counted(nodes, securities, s); }
      if Holders(nodes, s) != {} {
        var n :| n in Holders(nodes, s);
        assert nodes[n] == s;
      }
    }
    forall s | s in securities ensures securities[s].referenceCount == |Holders(nodes, s)| { assert Counted(nodes, securities, s); }
  }

  /** Over any run of creations and deletions of keys, in any hive: each key has the security cell it was given,
      each security cell counts the keys that name it and has its place in the ring, and it is there exactly as
      long as there is such a key. */
  method Serve(r: Registry, requests: seq<Request>)
    requires r.Valid()
    modifies r
    ensures r.Valid() && r.Nodes == NodesAfter(old(r.Nodes), old(r.Securities).Keys, requests)
    ensures CountsHolders(r.Nodes, r.Securities, old(r.Securities).Keys)
  {
    ghost var nodes, cells := r.Nodes, r.Securities.Keys;
    NilIsNoCell(r.Nodes, r.Securities);
    hide Conserved, InUse, Holders;
    for i := 0 to |requests|
      invariant r.Valid() && r.Nodes == NodesAfter(nodes, cells, requests[..i]) && r.Securities.Keys <= cells
    {
      assert requests[..i + 1][..i] == requests[..i];
      LeftAreInUse(r.Nodes, r.Securities, cells);
      match requests[i] {
        case Create(parent, cell) =>
          if parent in r.Nodes && cell != Nil && cell !in r.Nodes && cell !in r.Securities {
            r.CreateSubKey(parent, cell);
          }
        case Delete(cell) =>
          if cell in r.Nodes {
            r.FreeKeyByCell(cell);
          } else {
            assert r.Nodes - {cell} == r.Nodes;
          }
      }
    }
    assert requests[..|requests|] == requests;
    LeftAreInUse(r.Nodes, r.Securities, cells);
  }

  ghost predicate AllName(nodes: map<HCell, HCell>, s: HCell)
  {
    forall n {:trigger nodes[n]} :: n in nodes ==> nodes[n] == s
  }

  /** All keys of a hive share one security cell: it counts them, and is there as long as there is one. */
  ghost predicate Shared(nodes: map<HCell, HCell>, securities: map<HCell, SecurityKey>, s: HCell)
  {
    AllName(nodes, s) && securities == if nodes == map[] then map[] else map[s := SecurityKey(|nodes|, s, s)]
  }

  lemma {:induction false} OnlyOne(nodes: map<HCell, HCell>, cells: set<HCell>, requests: seq<Request>, s: HCell)
    requires AllName(nodes, s)
    ensures AllName(NodesAfter(nodes, cells, requests), s)
  {
    hide InUse;
    if requests != [] {
      OnlyOne(nodes, cells, requests[..|requests| - 1], s);
    }
  }

  lemma OneShared(nodes: map<HCell, HCell>, securities: map<HCell, SecurityKey>, s: HCell)
    requires Conserved(nodes, securities) && s != Nil && securities.Keys <= {s} && AllName(nodes, s)
    ensures Shared(nodes, securities, s)
  {
    assert Holders(nodes, s) == nodes.Keys;
    if s in securities {
      assert Counted(nodes, securities, s) && InRing(securities, s) && securities.Keys == {s};
    }
    if nodes != map[] {
      var n :| n in nodes;
      assert nodes[n] == s;
    }
  }

  /** In a hive that started with one key all keys have its security cell, which counts them and is freed with
      the last. */
  method Run(root: HCell, securityCell: HCell, requests: seq<Request>) returns (r: Registry)
    requires root != Nil && securityCell != Nil && root != securityCell
    ensures fresh(r) && r.Valid() && r.Nodes == NodesAfter(map[root := securityCell], {securityCell}, requests)
    ensures Shared(r.Nodes, r.Securities, securityCell)
  {
    r := new Registry(root, securityCell);
    hide Conserved, InUse, NodesAfter, Shared;
    Serve(r, requests);
    OnlyOne(map[root := securityCell], {securityCell}, requests, securityCell);
    OnlyLeft(r.Nodes, r.Securities, {securityCell});
    OneShared(r.Nodes, r.Securities, securityCell);
  }

  lemma OnlyLeft(nodes: map<HCell, HCell>, securities: map<HCell, SecurityKey>, cells: set<HCell>)
    requires CountsHolders(nodes, securities, cells)
    ensures securities.Keys <= cells
  {
  }
}
