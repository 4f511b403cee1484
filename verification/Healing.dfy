/** What healing does to the graph of keys: entries that name keys which cannot be mended are taken out, and which
    graphs are left with nothing to complain of. */
module Healing {
  import opened CheckStack
  import opened Indexes
  import opened KeyGraph

  /** The keys of a list that are in a set, in the order of the list. */
  ghost function Among(kids: seq<HCell>, good: set<HCell>): seq<HCell>
  {
    if kids == [] then []
    else
      var n := |kids| - 1;
      Among(kids[..n], good) + if kids[n] in good then [kids[n]] else []
  }

  lemma {:induction false} AmongSum(a: seq<HCell>, b: seq<HCell>, good: set<HCell>)
    ensures Among(a + b, good) == Among(a, good) + Among(b, good)
  {
    if b == [] {
      assert a + b == a;
    } else {
      var n := |b| - 1;
      AmongSum(a, b[..n], good);
      assert (a + b)[..|a + b| - 1] == a + b[..n];
    }
  }

  lemma {:induction false} AmongMembers(kids: seq<HCell>, good: set<HCell>, x: HCell)
    ensures x in Among(kids, good) <==> x in kids && x in good
  {
    if kids != [] {
      var n := |kids| - 1;
      AmongMembers(kids[..n], good, x);
      assert kids == kids[..n] + [kids[n]];
    }
  }

  lemma {:induction false} AmongAll(kids: seq<HCell>, good: set<HCell>)
    requires forall x {:trigger x in kids} :: x in kids ==> x in good
    ensures Among(kids, good) == kids
  {
    if kids != [] {
      var n := |kids| - 1;
      assert kids[n] in kids && forall x {:trigger x in kids[..n]} :: x in kids[..n] ==> x in kids;
      AmongAll(kids[..n], good);
      assert kids == kids[..n] + [kids[n]];
    }
  }

  /** An entry less, of a key that is not in the set. */
  lemma AmongWithout(kids: seq<HCell>, i: nat, good: set<HCell>)
    requires i < |kids| && kids[i] !in good
    ensures Among(kids[..i] + kids[i + 1..], good) == Among(kids, good)
  {
    assert kids == kids[..i] + [kids[i]] + kids[i + 1..];
    AmongSum(kids[..i] + [kids[i]], kids[i + 1..], good);
    AmongSum(kids[..i], [kids[i]], good);
    AmongSum(kids[..i], kids[i + 1..], good);
    assert Among([kids[i]], good) == Among([kids[i]][..0], good);
  }

  /** Neighbours that are both in the set are neighbours still. */
  lemma AmongNeighbours(kids: seq<HCell>, j: nat, good: set<HCell>) returns (i: nat)
    requires 0 < j < |kids| && kids[j - 1] in good && kids[j] in good
    ensures var a := Among(kids, good); 0 < i < |a| && a[i - 1] == kids[j - 1] && a[i] == kids[j]
  {
    assert kids == kids[..j + 1] + kids[j + 1..];
    AmongSum(kids[..j + 1], kids[j + 1..], good);
    assert kids[..j + 1][..j] == kids[..j] && kids[..j][..j - 1] == kids[..j - 1];
    i := |Among(kids[..j - 1], good)| + 1;
  }

  // ----- fewer entries

  /** The list has lost entries, but none of a key in the set, and none that names no key. */
  ghost predicate Shrunk(kids: seq<HCell>, kids': seq<HCell>, good: set<HCell>)
  {
    && Among(kids', good) == Among(kids, good)
    && (forall x {:trigger x in kids'} :: x in kids' ==> x in kids)
    && (Nil in kids ==> Nil in kids')
  }

  /** Every list of the graph has. */
  ghost predicate Thinned(graph: Graph, graph': Graph, good: set<HCell>)
  {
    graph'.Keys == graph.Keys && forall k {:trigger graph'[k]} :: k in graph ==> Shrunk(graph[k], graph'[k], good)
  }

  lemma NotThinned(graph: Graph, good: set<HCell>)
    ensures Thinned(graph, graph, good)
  {
  }

  lemma ThinnedTwice(graph: Graph, graph1: Graph, graph2: Graph, good: set<HCell>)
    requires Thinned(graph, graph1, good) && Thinned(graph1, graph2, good)
    ensures Thinned(graph, graph2, good)
  {
    forall k | k in graph ensures Shrunk(graph[k], graph2[k], good) {
      assert Shrunk(graph[k], graph1[k], good) && Shrunk(graph1[k], graph2[k], good);
    }
  }

  lemma ShrunkSum(a: seq<HCell>, a': seq<HCell>, b: seq<HCell>, b': seq<HCell>, good: set<HCell>)
    requires Shrunk(a, a', good) && Shrunk(b, b', good)
    ensures Shrunk(a + b, a' + b', good)
  {
    AmongSum(a, b, good);
    AmongSum(a', b', good);
  }

  lemma {:induction false} ShrunkAll(t: seq<seq<HCell>>, t': seq<seq<HCell>>, good: set<HCell>)
    requires |t'| == |t| && forall i :: 0 <= i < |t| ==> Shrunk(t[i], t'[i], good)
    ensures Shrunk(Concat(t), Concat(t'), good)
  {
    if t != [] {
      var n := |t| - 1;
      ShrunkAll(t[..n], t'[..n], good);
      ShrunkSum(Concat(t[..n]), Concat(t'[..n]), t[n], t'[n], good);
    }
  }

  lemma EntryGone(kids: seq<HCell>, i: nat, good: set<HCell>)
    requires i < |kids| && kids[i] !in good && kids[i] != Nil
    ensures Shrunk(kids, kids[..i] + kids[i + 1..], good)
  {
    AmongWithout(kids, i, good);
    if Nil in kids {
      var j :| 0 <= j < |kids| && kids[j] == Nil;
      assert (kids[..i] + kids[i + 1..])[if j < i then j else j - 1] == Nil;
    }
  }

  // ----- graphs that healing leaves with nothing to complain of

  /** k can be mended, its list names a key in every entry, and so it is below it, no deeper than depth levels, wherever a
      key can be mended.  With room, the keys that cannot be mended are not deeper either. */
  ghost predicate Bears(graph: Graph, good: set<HCell>, k: HCell, depth: nat, room: bool)
    decreases depth
  {
    var kids := Kids(graph, k);
    && depth > 0 && k in good && Nil !in kids
    && (room && kids != [] ==> depth > 1)
    && forall x {:trigger x in kids} :: x in kids && x in good ==> Bears(graph, good, x, depth - 1, room)
  }

  /** Of the keys that can be mended, each comes after the one before it in every list. */
  ghost predicate Orderly(graph: Graph, good: set<HCell>, order: (HCell, HCell) -> bool)
  {
    forall k {:trigger Kids(graph, k)} :: k in graph ==> InOrder(Among(Kids(graph, k), good), order)
  }

  ghost predicate InOrder(kids: seq<HCell>, order: (HCell, HCell) -> bool)
  {
    forall i: nat {:trigger After(kids, i, order)} :: 0 < i < |kids| ==> After(kids, i, order)
  }

  ghost predicate After(kids: seq<HCell>, i: nat, order: (HCell, HCell) -> bool)
    requires 0 < i < |kids|
  {
    order(kids[i], kids[i - 1])
  }

  lemma {:induction false} BearsThinned(graph: Graph, graph': Graph, good: set<HCell>, k: HCell, depth: nat)
    requires Thinned(graph, graph', good)
    ensures Bears(graph, good, k, depth, true) ==> Bears(graph', good, k, depth, true)
    ensures Bears(graph', good, k, depth, false) ==> Bears(graph, good, k, depth, false)
    decreases depth
  {
    var kids, kids' := Kids(graph, k), Kids(graph', k);
    assert Shrunk(kids, kids', good);
    if kids' != [] { assert kids'[0] in kids'; }
    if depth > 0 {
      forall x | x in kids && x in good
        ensures x in kids'
        ensures Bears(graph, good, x, depth - 1, true) ==> Bears(graph', good, x, depth - 1, true)
        ensures Bears(graph', good, x, depth - 1, false) ==> Bears(graph, good, x, depth - 1, false)
      {
        BearsThinned(graph, graph', good, x, depth - 1);
        AmongMembers(kids, good, x);
        AmongMembers(kids', good, x);
      }
    }
  }

  lemma OrderlyThinned(graph: Graph, graph': Graph, good: set<HCell>, order: (HCell, HCell) -> bool)
    requires Thinned(graph, graph', good) && Orderly(graph, good, order)
    ensures Orderly(graph', good, order)
  {
    forall k | k in graph' ensures InOrder(Among(Kids(graph', k), good), order) {
      assert Shrunk(graph[k], graph'[k], good) && InOrder(Among(Kids(graph, k), good), order);
    }
  }

  /** A walk that finds nothing wrong with keys that can be mended. */
  lemma {:induction false} WalkedBears(f: Findings, parent: HCell, k: HCell, depth: nat)
    requires Walked(f, parent, k, depth)
    ensures Bears(f.graph, f.settled, k, depth, false)
    decreases depth
  {
    var kids := Kids(f.graph, k);
    forall x | x in kids ensures Bears(f.graph, f.settled, x, depth - 1, false) && x != Nil {
      var j :| 0 <= j < |kids| && kids[j] == x;
      assert kids[j] != Nil && Walked(f, k, kids[j], depth - 1);
      WalkedBears(f, k, x, depth - 1);
    }
  }

  /** In a graph of no more levels than a walk goes down there is always room. */
  lemma {:induction false} RoomEnough(graph: Graph, good: set<HCell>, k: HCell, depth: nat)
    requires forall p :: Path(graph, p) && p[0] == k ==> |p| <= depth
    ensures Bears(graph, good, k, depth, false) <==> Bears(graph, good, k, depth, true)
    decreases depth
  {
    var kids := Kids(graph, k);
    forall x | x in kids && depth > 0
      ensures depth > 1 && (Bears(graph, good, x, depth - 1, false) <==> Bears(graph, good, x, depth - 1, true))
    {
      assert Step(graph, [k, x], 0);
      assert Path(graph, [k, x]) && [k, x][0] == k;
      forall p | Path(graph, p) && p[0] == x ensures |p| <= depth - 1 {
        var q := [k] + p;
        forall i | 0 <= i < |q| - 1 ensures Step(graph, q, i) { if i > 0 { assert Step(graph, p, i - 1); } }
        assert Path(graph, q) && q[0] == k;
      }
      RoomEnough(graph, good, x, depth - 1);
    }
    if kids != [] { assert kids[0] in kids; }
  }

  // ----- on the stack

  /** Each key on the stack, if it can be mended, is one that healing leaves with nothing to complain of. */
  ghost predicate Hopeful(graph: Graph, good: set<HCell>, stack: seq<Frame>)
  {
    && |stack| <= 511
    && forall i {:trigger stack[i]} :: 0 <= i < |stack| ==>
         stack[i].current in good ==> Bears(graph, good, stack[i].current, 511 - i, true)
  }

  /** The next child is one of them, and not too deep. */
  lemma ChildHopeful(graph: Graph, good: set<HCell>, stack: seq<Frame>)
    requires Hopeful(graph, good, stack) && |stack| > 0 && stack[|stack| - 1].current in good
    requires var top := stack[|stack| - 1]; top.childCellIndex < |Kids(graph, top.current)|
    ensures var top := stack[|stack| - 1];
      var child := Kids(graph, top.current)[top.childCellIndex];
      child != Nil && |stack| < 511 && Hopeful(graph, good, Pushed(stack, child))
  {
    var n := |stack| - 1;
    var top := stack[n];
    var kids := Kids(graph, top.current);
    var child := kids[top.childCellIndex];
    var stack' := Pushed(stack, child);
    assert Bears(graph, good, top.current, 511 - n, true) && child in kids;
    forall i | 0 <= i < |stack'| && |stack| < 511 && stack'[i].current in good
      ensures Bears(graph, good, stack'[i].current, 511 - i, true)
    {
      if i <= n { assert stack'[i].current == stack[i].current; }
    }
  }

  lemma StillHopeful(graph: Graph, good: set<HCell>, stack: seq<Frame>)
    requires Hopeful(graph, good, stack) && |stack| > 0
    ensures Hopeful(graph, good, stack[..|stack| - 1]) && Hopeful(graph, good, Remembered(stack))
  {
    var n := |stack| - 1;
    forall i | 0 <= i < n ensures stack[..n][i] == stack[i] {
    }
    forall i | 0 <= i < |stack| ensures Remembered(stack)[i].current == stack[i].current {
    }
  }

  /** Of a stack over an orderly graph: if the key on top can be mended, it comes after the one before it. */
  lemma TopOrderly(f: Findings, good: set<HCell>, stack: seq<Frame>)
    requires StackOk(f, stack, false) && Orderly(f.graph, good, f.order) && f.settled <= good && Nil !in good
    requires stack[|stack| - 1].current in good && |stack| > 1 && stack[|stack| - 2].sibling in good
    ensures f.order(stack[|stack| - 1].current, stack[|stack| - 2].sibling)
  {
    var n := |stack| - 1;
    assert Linked(f, stack, n) && Waiting(f, stack, n - 1, false);
    var kids, c := Kids(f.graph, stack[n - 1].current), stack[n - 1].childCellIndex - 1;
    if c > 0 {
      var i := AmongNeighbours(kids, c, good);
      assert InOrder(Among(kids, good), f.order) && After(Among(kids, good), i, f.order);
    }
  }
}
