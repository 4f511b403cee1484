/** The graph of keys a registry check walks: each key's stable subkeys, the work of walking them, and what a
    walk without a complaint says about the graph. */
module KeyGraph {
  import opened Indexes

  /** What each key's stable list names, in order. */
  type Graph = map<HCell, seq<HCell>>

  function Kids(graph: Graph, k: HCell): seq<HCell>
  {
    if k in graph then graph[k] else []
  }

  // ----- the work of a walk

  /** More than the steps it takes to walk what is below k, to a depth. */
  ghost function Work(graph: Graph, k: HCell, depth: nat): nat
    decreases depth, 0
  {
    2 + if depth == 0 then 0 else WorkOfAll(graph, Kids(graph, k), depth - 1)
  }

  ghost function WorkOfAll(graph: Graph, cells: seq<HCell>, depth: nat): nat
    decreases depth, |cells|
  {
    if cells == [] then 0 else Work(graph, cells[0], depth) + WorkOfAll(graph, cells[1..], depth)
  }

  lemma WorkOfNext(graph: Graph, cells: seq<HCell>, i: nat, depth: nat)
    requires i < |cells|
    ensures WorkOfAll(graph, cells[i..], depth) == Work(graph, cells[i], depth) + WorkOfAll(graph, cells[i + 1..], depth)
  {
    assert cells[i..][0] == cells[i] && cells[i..][1..] == cells[i + 1..];
  }

  // ----- what a walk establishes

  /** What is known of the keys: which are settled, their parents if those are to be right, and what is said of
      neighbours. */
  datatype Findings = Findings(graph: Graph, settled: set<HCell>, parents: map<HCell, HCell>, strict: bool,
                               order: (HCell, HCell) -> bool, root: HCell)

  /** Child j comes after the one before it. */
  ghost predicate Ordered(f: Findings, kids: seq<HCell>, j: nat)
    requires 0 < j < |kids|
  {
    f.order(kids[j], kids[j - 1])
  }

  /** A walk from k finds nothing wrong: k is settled, its Parent is the key that lists it where parents are to
      be right, its subkeys are in order, and so on below, no deeper than depth levels. */
  ghost predicate Walked(f: Findings, parent: HCell, k: HCell, depth: nat)
    decreases depth
  {
    var kids := Kids(f.graph, k);
    && depth > 0 && k in f.settled
    && (f.strict && parent != Nil ==> k in f.parents && f.parents[k] == parent)
    && (forall j {:trigger Ordered(f, kids, j)} :: 0 < j < |kids| ==> Ordered(f, kids, j))
    && forall j {:trigger kids[j]} :: 0 <= j < |kids| ==> kids[j] != Nil && Walked(f, k, kids[j], depth - 1)
  }

  lemma {:induction false} WalkedMore(f: Findings, f': Findings, parent: HCell, k: HCell, depth: nat)
    requires Walked(f, parent, k, depth) && f.settled <= f'.settled && (f.strict ==> f'.parents == f.parents)
    requires f'.graph == f.graph && f'.strict == f.strict && f'.order == f.order
    ensures Walked(f', parent, k, depth)
    decreases depth
  {
    var kids := Kids(f.graph, k);
    forall j | 0 < j < |kids| ensures Ordered(f', kids, j) { assert Ordered(f, kids, j); }
    forall j | 0 <= j < |kids| ensures kids[j] != Nil && Walked(f', k, kids[j], depth - 1) {
      WalkedMore(f, f', k, kids[j], depth - 1);
    }
  }

  /** A path down the graph, each key listed by the one before it. */
  ghost predicate Path(graph: Graph, p: seq<HCell>)
  {
    |p| > 0 && forall i {:trigger Step(graph, p, i)} :: 0 <= i < |p| - 1 ==> Step(graph, p, i)
  }

  ghost predicate Step(graph: Graph, p: seq<HCell>, i: nat)
    requires i + 1 < |p|
  {
    p[i + 1] in Kids(graph, p[i])
  }

  /** The Parent of a key on a path is the key before it. */
  ghost predicate Recorded(parents: map<HCell, HCell>, p: seq<HCell>, i: nat)
    requires i + 1 < |p|
  {
    p[i + 1] in parents && parents[p[i + 1]] == p[i]
  }

  /** Every path is walked, to its end. */
  lemma {:induction false} PathIsWalked(f: Findings, parent: HCell, p: seq<HCell>, depth: nat)
    requires Path(f.graph, p) && Walked(f, parent, p[0], depth) && Nil !in f.settled
    ensures |p| <= depth && forall i {:trigger p[i]} :: 0 <= i < |p| ==> p[i] in f.settled
    ensures f.strict ==> forall i {:trigger Recorded(f.parents, p, i)} :: 0 <= i < |p| - 1 ==> Recorded(f.parents, p, i)
    decreases |p|
  {
    if |p| > 1 {
      assert Step(f.graph, p, 0);
      var j :| 0 <= j < |Kids(f.graph, p[0])| && Kids(f.graph, p[0])[j] == p[1];
      var rest := p[1..];
      forall i | 0 <= i < |rest| - 1 ensures Step(f.graph, rest, i) { assert Step(f.graph, p, i + 1); }
      PathIsWalked(f, p[0], rest, depth - 1);
      forall i | 0 <= i < |p| ensures p[i] in f.settled { assert i > 0 ==> p[i] == rest[i - 1]; }
      if f.strict {
        assert Walked(f, p[0], p[1], depth - 1);
        forall i | 0 <= i < |p| - 1 ensures Recorded(f.parents, p, i) {
          if i > 0 { assert Recorded(f.parents, rest, i - 1); }
        }
      }
    }
  }

  /** What every path has to be like: no longer than depth, its keys settled, in order, and none of them nil. */
  ghost predicate PathFine(f: Findings, p: seq<HCell>, depth: nat)
    requires |p| > 0
  {
    var last := p[|p| - 1];
    && |p| <= depth && last in f.settled && Nil !in Kids(f.graph, last) && KidsOrdered(f, last)
    && (f.strict && |p| > 1 ==> last in f.parents && f.parents[last] == p[|p| - 2])
  }

  ghost predicate KidsOrdered(f: Findings, k: HCell)
  {
    var kids := Kids(f.graph, k);
    forall j {:trigger Ordered(f, kids, j)} :: 0 < j < |kids| ==> Ordered(f, kids, j)
  }

  ghost predicate PathsFine(f: Findings, k: HCell, depth: nat)
  {
    forall p {:trigger Path(f.graph, p)} :: Path(f.graph, p) && p[0] == k ==> PathFine(f, p, depth)
  }

  /** A walk finds nothing wrong exactly when no path shows anything wrong. */
  lemma {:induction false} WalkedWhen(f: Findings, parent: HCell, k: HCell, depth: nat)
    requires f.strict && parent != Nil ==> k in f.parents && f.parents[k] == parent
    requires PathsFine(f, k, depth) && k != Nil
    ensures Walked(f, parent, k, depth)
    decreases depth
  {
    var kids := Kids(f.graph, k);
    assert Path(f.graph, [k]) && [k][0] == k;
    forall j | 0 <= j < |kids| ensures kids[j] != Nil && Walked(f, k, kids[j], depth - 1) {
      assert kids[j] in kids;
      var two := [k, kids[j]];
      assert Step(f.graph, two, 0);
      assert Path(f.graph, two) && two[0] == k && two[1] == kids[j];
      forall p | Path(f.graph, p) && p[0] == kids[j] ensures PathFine(f, p, depth - 1) {
        var q := [k] + p;
        forall i | 0 <= i < |q| - 1 ensures Step(f.graph, q, i) { if i > 0 { assert Step(f.graph, p, i - 1); } }
        assert Path(f.graph, q) && q[0] == k && PathFine(f, q, depth);
      }
      WalkedWhen(f, k, kids[j], depth - 1);
    }
  }

  /** The other way round. */
  lemma {:induction false} WalkedThen(f: Findings, parent: HCell, k: HCell, depth: nat)
    requires Walked(f, parent, k, depth) && k != Nil
    ensures PathsFine(f, k, depth)
    decreases depth
  {
    var kids := Kids(f.graph, k);
    forall x | x in kids ensures x != Nil {
      var j :| 0 <= j < |kids| && kids[j] == x;
      assert kids[j] != Nil;
    }
    forall p | Path(f.graph, p) && p[0] == k ensures PathFine(f, p, depth) {
      if |p| == 1 {
        assert p == [k] && KidsOrdered(f, k);
      } else {
        assert Step(f.graph, p, 0);
        var j :| 0 <= j < |kids| && kids[j] == p[1];
        var rest := p[1..];
        forall i | 0 <= i < |rest| - 1 ensures Step(f.graph, rest, i) { assert Step(f.graph, p, i + 1); }
        assert kids[j] != Nil && Walked(f, k, p[1], depth - 1);
        WalkedThen(f, k, p[1], depth - 1);
        assert Path(f.graph, rest) && rest[0] == p[1] && PathFine(f, rest, depth - 1);
        assert rest[|rest| - 1] == p[|p| - 1] && (|p| > 2 ==> rest[|rest| - 2] == p[|p| - 2]);
      }
    }
  }

  // ----- consequences

  ghost predicate Reaches(graph: Graph, root: HCell, k: HCell)
  {
    exists p :: Path(graph, p) && p[0] == root && p[|p| - 1] == k
  }

  /** A key that can be reached lists k. */
  ghost predicate Adopted(graph: Graph, root: HCell, parent: HCell, k: HCell)
  {
    k in Kids(graph, parent) && Reaches(graph, root, parent)
  }

  /** No key is listed by two keys that can be reached. */
  ghost predicate NoneShared(graph: Graph, root: HCell)
  {
    forall a, b, k {:trigger Adopted(graph, root, a, k), Adopted(graph, root, b, k)} ::
      Adopted(graph, root, a, k) && Adopted(graph, root, b, k) ==> a == b
  }

  lemma ReachesNext(graph: Graph, root: HCell, a: HCell, k: HCell)
    requires Adopted(graph, root, a, k)
    ensures Reaches(graph, root, k)
  {
    var p :| Path(graph, p) && p[0] == root && p[|p| - 1] == a;
    var q := p + [k];
    forall i | 0 <= i < |q| - 1 ensures Step(graph, q, i) {
      if i < |p| - 1 { assert Step(graph, p, i) && q[i] == p[i] && q[i + 1] == p[i + 1]; }
    }
    assert q[0] == root && q[|q| - 1] == k;
  }

  /** What is walked and can be reached is settled. */
  lemma ReachedIsSettled(f: Findings, root: HCell, depth: nat, k: HCell)
    requires Walked(f, Nil, root, depth) && Nil !in f.settled && Reaches(f.graph, root, k)
    ensures k in f.settled
  {
    var p :| Path(f.graph, p) && p[0] == root && p[|p| - 1] == k;
    PathIsWalked(f, Nil, p, depth);
  }

  /** A path that comes back to where it was goes on for as long as one likes. */
  lemma {:induction false} CyclesGoOn(graph: Graph, p: seq<HCell>, i: nat, n: nat) returns (q: seq<HCell>)
    requires Path(graph, p) && i < |p| - 1 && p[i] == p[|p| - 1]
    ensures Path(graph, q) && q[0] == p[0] && |q| >= n && q[|q| - 1] == p[i]
    decreases n
  {
    if n == 0 {
      q := p;
    } else {
      var r := CyclesGoOn(graph, p, i, n - 1);
      q := r + p[i + 1..];
      forall j | 0 <= j < |q| - 1 ensures Step(graph, q, j) {
        if j < |r| - 1 {
          assert Step(graph, r, j) && q[j] == r[j] && q[j + 1] == r[j + 1];
        } else {
          var x := j - (|r| - 1) + i;
          assert Step(graph, p, x) && q[j + 1] == p[x + 1];
          assert q[j] == p[x];
        }
      }
    }
  }

  /** What is walked has no cycle that can be reached. */
  lemma NoCycle(f: Findings, root: HCell, depth: nat, p: seq<HCell>, i: nat)
    requires Walked(f, Nil, root, depth) && Nil !in f.settled
    requires Path(f.graph, p) && p[0] == root && i < |p| - 1
    ensures p[i] != p[|p| - 1]
  {
    if p[i] == p[|p| - 1] {
      var q := CyclesGoOn(f.graph, p, i, depth + 1);
      PathIsWalked(f, Nil, q, depth);
    }
  }

  lemma NoneTwice(f: Findings, root: HCell, depth: nat, p: seq<HCell>, i: nat, j: nat)
    requires Walked(f, Nil, root, depth) && Nil !in f.settled
    requires Path(f.graph, p) && p[0] == root && i < j < |p|
    ensures p[i] != p[j]
  {
    var q := p[..j + 1];
    forall x | 0 <= x < |q| - 1 ensures Step(f.graph, q, x) { assert Step(f.graph, p, x); }
    NoCycle(f, root, depth, q, i);
  }

  /** Where parents are known, a key that is listed is listed by one key only. */
  lemma OneParent(f: Findings, root: HCell, depth: nat, a: HCell, b: HCell, k: HCell)
    requires Walked(f, Nil, root, depth) && f.strict && Nil !in f.settled
    requires Reaches(f.graph, root, a) && Reaches(f.graph, root, b) && k in Kids(f.graph, a) && k in Kids(f.graph, b)
    ensures a == b && k in f.parents && f.parents[k] == a
  {
    EdgeToParent(f, root, depth, a, k);
    EdgeToParent(f, root, depth, b, k);
  }

  lemma EdgeToParent(f: Findings, root: HCell, depth: nat, a: HCell, k: HCell)
    requires Walked(f, Nil, root, depth) && f.strict && Nil !in f.settled
    requires Reaches(f.graph, root, a) && k in Kids(f.graph, a)
    ensures k in f.parents && f.parents[k] == a
  {
    var p :| Path(f.graph, p) && p[0] == root && p[|p| - 1] == a;
    var q := p + [k];
    forall i | 0 <= i < |q| - 1 ensures Step(f.graph, q, i) {
      if i < |p| - 1 { assert Step(f.graph, p, i) && q[i] == p[i] && q[i + 1] == p[i + 1]; }
    }
    PathIsWalked(f, Nil, q, depth);
    assert Recorded(f.parents, q, |p| - 1);
  }

  /** The root is nobody's subkey. */
  lemma RootIsNotListed(f: Findings, root: HCell, depth: nat, a: HCell)
    requires Walked(f, Nil, root, depth) && Reaches(f.graph, root, a) && Nil !in f.settled
    ensures root !in Kids(f.graph, a)
  {
    var p :| Path(f.graph, p) && p[0] == root && p[|p| - 1] == a;
    if root in Kids(f.graph, a) {
      var q := p + [root];
      forall i | 0 <= i < |q| - 1 ensures Step(f.graph, q, i) {
        if i < |p| - 1 { assert Step(f.graph, p, i) && q[i] == p[i] && q[i + 1] == p[i + 1]; }
      }
      NoCycle(f, root, depth, q, 0);
    }
  }
}
