/** The stack of a registry check: one frame for each key between the root and the one at hand. */
module CheckStack {
  import opened Indexes
  import opened KeyGraph

  /** CMP_REGISTRY_STACK_WORK_STATE. */
  datatype Frame = Frame(childCellIndex: nat, current: HCell, parent: HCell, sibling: HCell)

  /** Frame i is about the child last taken from frame i - 1. */
  ghost predicate Linked(f: Findings, stack: seq<Frame>, i: nat)
    requires i < |stack|
  {
    if i == 0 then stack[0].current == f.root && stack[0].parent == Nil
    else
      var kids := Kids(f.graph, stack[i - 1].current);
      && stack[i].parent == stack[i - 1].current && stack[i].current != Nil
      && 0 < stack[i - 1].childCellIndex <= |kids| && stack[i].current == kids[stack[i - 1].childCellIndex - 1]
  }

  /** The first n children of a frame's key have been walked. */
  ghost predicate ChildrenWalked(f: Findings, frame: Frame, depth: nat, n: nat)
  {
    var kids := Kids(f.graph, frame.current);
    && n <= |kids|
    && forall j {:trigger kids[j]} :: 0 <= j < n ==> kids[j] != Nil && Walked(f, frame.current, kids[j], depth)
  }

  /** The first n children are in order, and the last of them is remembered. */
  ghost predicate ChildrenOrdered(f: Findings, frame: Frame, n: nat)
  {
    var kids := Kids(f.graph, frame.current);
    && n <= |kids| && frame.sibling == (if n == 0 then Nil else kids[n - 1])
    && forall j {:trigger Ordered(f, kids, j)} :: 0 < j < n ==> Ordered(f, kids, j)
  }

  /** The key of a frame has been validated. */
  ghost predicate Validated(f: Findings, frame: Frame)
  {
    && frame.current in f.settled
    && (f.strict && frame.parent != Nil ==> frame.current in f.parents && f.parents[frame.current] == frame.parent)
  }

  /** A frame below the top waits for the child last taken from it; that one has been compared with its
      neighbour once it has been validated. */
  ghost predicate Waiting(f: Findings, stack: seq<Frame>, i: nat, allChildrenChecked: bool)
    requires i < |stack| <= 511
  {
    && Validated(f, stack[i]) && stack[i].childCellIndex > 0
    && ChildrenWalked(f, stack[i], 510 - i, stack[i].childCellIndex - 1)
    && ChildrenOrdered(f, stack[i], if !allChildrenChecked && i == |stack| - 2 then stack[i].childCellIndex - 1 else stack[i].childCellIndex)
  }

  ghost predicate StackOk(f: Findings, stack: seq<Frame>, allChildrenChecked: bool)
  {
    && 0 < |stack| <= 511
    && (forall i {:trigger Linked(f, stack, i)} :: 0 <= i < |stack| ==> Linked(f, stack, i))
    && (forall i {:trigger Waiting(f, stack, i, allChildrenChecked)} :: 0 <= i < |stack| - 1 ==> Waiting(f, stack, i, allChildrenChecked))
    && var top := stack[|stack| - 1];
       && (if allChildrenChecked then Validated(f, top) else top.childCellIndex == 0)
       && ChildrenWalked(f, top, 511 - |stack|, top.childCellIndex) && ChildrenOrdered(f, top, top.childCellIndex)
  }

  /** Everything a walk will find from here on is as it should be. */
  ghost predicate Promised(f: Findings, stack: seq<Frame>)
  {
    |stack| <= 511 && forall i {:trigger stack[i]} :: 0 <= i < |stack| ==> Walked(f, stack[i].parent, stack[i].current, 511 - i)
  }

  // ----- the work left

  ghost function Left(graph: Graph, frame: Frame, i: nat): nat
    requires i <= 510
  {
    var kids := Kids(graph, frame.current);
    if frame.childCellIndex <= |kids| then WorkOfAll(graph, kids[frame.childCellIndex..], 510 - i) else 0
  }

  ghost function StackWork(graph: Graph, stack: seq<Frame>): nat
    requires |stack| <= 511
  {
    if stack == [] then 0
    else var n := |stack| - 1; StackWork(graph, stack[..n]) + Left(graph, stack[n], n) + 1
  }

  // ----- the steps

  lemma Started(f: Findings, root: Frame)
    requires root == Frame(0, f.root, Nil, Nil)
    ensures StackOk(f, [root], false)
  {
  }

  /** The stack after the key on top has been validated: the frame below remembers it. */
  ghost function Remembered(stack: seq<Frame>): seq<Frame>
    requires |stack| > 0
  {
    var n := |stack| - 1;
    if n == 0 then stack else stack[n - 1 := stack[n - 1].(sibling := stack[n].current)]
  }

  /** The key on top has been found to be settled, and after its neighbour: so is what was known before. */
  lemma TopValidated(f: Findings, stack: seq<Frame>, settled: set<HCell>, parents: map<HCell, HCell>)
    requires StackOk(f, stack, false) && f.settled + {stack[|stack| - 1].current} <= settled && (f.strict ==> parents == f.parents)
    requires var top := stack[|stack| - 1];
      f.strict && top.parent != Nil ==> top.current in parents && parents[top.current] == top.parent
    requires var n := |stack| - 1; n > 0 && stack[n - 1].sibling != Nil ==> f.order(stack[n].current, stack[n - 1].sibling)
    ensures StackOk(f.(settled := settled, parents := parents), Remembered(stack), true)
    ensures StackWork(f.graph, Remembered(stack)) == StackWork(f.graph, stack)
  {
    var f' := f.(settled := settled, parents := parents);
    var n := |stack| - 1;
    if n > 0 { SiblingWork(f.graph, stack, n - 1, stack[n].current); }
    hide StackWork, ChildrenWalked, ChildrenOrdered, Linked, Waiting;
    forall i | 0 <= i < |stack| ensures Linked(f', Remembered(stack), i) {
      assert Linked(f, stack, i);
      StillLinked(f, f', stack, i);
    }
    forall i | 0 <= i < n ensures Waiting(f', Remembered(stack), i, true) {
      assert Waiting(f, stack, i, false) && Linked(f, stack, n);
      StillWaiting(f, f', stack, i);
    }
    StillTop(f, f', stack);
  }

  lemma StillTop(f: Findings, f': Findings, stack: seq<Frame>)
    requires StackOk(f, stack, false) && f'.graph == f.graph && f'.strict == f.strict && f'.order == f.order
    requires f.settled + {stack[|stack| - 1].current} <= f'.settled && (f.strict ==> f'.parents == f.parents)
    ensures var n := |stack| - 1;
      Remembered(stack)[n] == stack[n] && stack[n].childCellIndex == 0 && ChildrenWalked(f', stack[n], 511 - |stack|, 0) && ChildrenOrdered(f', stack[n], 0)
  {
    hide Linked, Waiting;
    var n := |stack| - 1;
    StillWalked(f, f', stack[n], stack[n], 510 - n, 0);
    StillOrdered(f, f', stack[n], 0);
  }

  lemma StillLinked(f: Findings, f': Findings, stack: seq<Frame>, i: nat)
    requires i < |stack| && Linked(f, stack, i) && f'.graph == f.graph && f'.root == f.root
    ensures Linked(f', Remembered(stack), i)
  {
  }

  lemma StillWaiting(f: Findings, f': Findings, stack: seq<Frame>, i: nat)
    requires i < |stack| - 1 && |stack| <= 511 && Waiting(f, stack, i, false) && Linked(f, stack, |stack| - 1)
    requires f'.graph == f.graph && f'.strict == f.strict && f'.order == f.order
    requires f.settled <= f'.settled && (f.strict ==> f'.parents == f.parents)
    requires var n := |stack| - 1; stack[n - 1].sibling != Nil ==> f.order(stack[n].current, stack[n - 1].sibling)
    ensures Waiting(f', Remembered(stack), i, true)
  {
    hide Walked;
    var n := |stack| - 1;
    StillWalked(f, f', stack[i], Remembered(stack)[i], 510 - i, stack[i].childCellIndex - 1);
    if i < n - 1 {
      StillOrdered(f, f', stack[i], stack[i].childCellIndex);
    } else {
      OneMoreOrdered(f, f', stack[i], stack[i].childCellIndex - 1);
    }
  }

  lemma StillWalked(f: Findings, f': Findings, frame: Frame, frame': Frame, depth: nat, n: nat)
    requires ChildrenWalked(f, frame, depth, n) && f.settled <= f'.settled && (f.strict ==> f'.parents == f.parents)
    requires f'.graph == f.graph && f'.strict == f.strict && f'.order == f.order && frame'.current == frame.current
    ensures ChildrenWalked(f', frame', depth, n)
  {
    var kids := Kids(f.graph, frame.current);
    forall j | 0 <= j < n ensures kids[j] != Nil && Walked(f', frame.current, kids[j], depth) {
      WalkedMore(f, f', frame.current, kids[j], depth);
    }
  }

  lemma StillOrdered(f: Findings, f': Findings, frame: Frame, n: nat)
    requires ChildrenOrdered(f, frame, n) && f'.graph == f.graph && f'.order == f.order
    ensures ChildrenOrdered(f', frame, n)
  {
    var kids := Kids(f.graph, frame.current);
    forall j | 0 < j < n ensures Ordered(f', kids, j) { assert Ordered(f, kids, j); }
  }

  lemma OneMoreOrdered(f: Findings, f': Findings, frame: Frame, n: nat)
    requires ChildrenOrdered(f, frame, n) && f'.graph == f.graph && f'.order == f.order && n < |Kids(f.graph, frame.current)|
    requires var kids := Kids(f.graph, frame.current);
      (frame.sibling != Nil ==> f.order(kids[n], frame.sibling)) && (n > 0 ==> kids[n - 1] != Nil)
    ensures ChildrenOrdered(f', frame.(sibling := Kids(f.graph, frame.current)[n]), n + 1)
  {
    var kids := Kids(f.graph, frame.current);
    forall j | 0 < j < n + 1 ensures Ordered(f', kids, j) { if j < n { assert Ordered(f, kids, j); } }
  }

  lemma SameChildren(f: Findings, frame: Frame, frame': Frame, depth: nat, n: nat, m: nat)
    requires ChildrenWalked(f, frame, depth, n) && ChildrenOrdered(f, frame, m) && frame'.current == frame.current && frame'.sibling == frame.sibling
    ensures ChildrenWalked(f, frame', depth, n) && ChildrenOrdered(f, frame', m)
  {
  }

  lemma {:induction false} SiblingWork(graph: Graph, stack: seq<Frame>, i: nat, sibling: HCell)
    requires i < |stack| <= 511
    ensures StackWork(graph, stack[i := stack[i].(sibling := sibling)]) == StackWork(graph, stack)
  {
    var n := |stack| - 1;
    var stack' := stack[i := stack[i].(sibling := sibling)];
    if i < n {
      SiblingWork(graph, stack[..n], i, sibling);
      assert stack'[..n] == stack[..n][i := stack[i].(sibling := sibling)];
    } else {
      assert stack'[..n] == stack[..n];
    }
  }

  ghost function Pushed(stack: seq<Frame>, child: HCell): seq<Frame>
    requires |stack| > 0
  {
    var n := |stack| - 1;
    stack[n := stack[n].(childCellIndex := stack[n].childCellIndex + 1)] + [Frame(0, child, stack[n].current, Nil)]
  }

  /** The next child of the key on top. */
  lemma ChildPushed(f: Findings, stack: seq<Frame>)
    requires StackOk(f, stack, true) && |stack| < 511
    requires var top := stack[|stack| - 1]; top.childCellIndex < |Kids(f.graph, top.current)| && Kids(f.graph, top.current)[top.childCellIndex] != Nil
    ensures var top := stack[|stack| - 1];
      var stack' := Pushed(stack, Kids(f.graph, top.current)[top.childCellIndex]);
      StackOk(f, stack', false) && StackWork(f.graph, stack') < StackWork(f.graph, stack)
  {
    var n := |stack| - 1;
    var top := stack[n];
    var kids := Kids(f.graph, top.current);
    var stack' := Pushed(stack, kids[top.childCellIndex]);
    forall j | 0 <= j < |stack'| ensures Linked(f, stack', j) {
      if j < |stack| { assert Linked(f, stack, j); }
    }
    forall j | 0 <= j < |stack'| - 1 ensures Waiting(f, stack', j, false) {
      if j < n {
        assert Waiting(f, stack, j, true);
      } else {
        SameChildren(f, top, stack'[n], 510 - n, top.childCellIndex, top.childCellIndex);
      }
    }
    PushedWork(f.graph, stack);
  }

  /** A child of a key that is as it should be is as it should be, and not too deep. */
  lemma ChildPromised(f: Findings, stack: seq<Frame>)
    requires Promised(f, stack) && |stack| > 0
    requires var top := stack[|stack| - 1]; top.childCellIndex < |Kids(f.graph, top.current)|
    ensures var top := stack[|stack| - 1];
      var child := Kids(f.graph, top.current)[top.childCellIndex];
      child != Nil && |stack| < 511 && Promised(f, Pushed(stack, child))
  {
    var n := |stack| - 1;
    var top := stack[n];
    var child := Kids(f.graph, top.current)[top.childCellIndex];
    var stack' := Pushed(stack, child);
    assert Walked(f, top.parent, top.current, 511 - n);
    assert Walked(f, top.current, child, 510 - n);
    forall i | 0 <= i < |stack'| && |stack| < 511 ensures Walked(f, stack'[i].parent, stack'[i].current, 511 - i) {
      if i <= n { assert Walked(f, stack[i].parent, stack[i].current, 511 - i); }
    }
  }

  lemma StillPromised(f: Findings, stack: seq<Frame>)
    requires Promised(f, stack) && |stack| > 0
    ensures Promised(f, stack[..|stack| - 1])
  {
    forall i | 0 <= i < |stack| - 1 ensures Walked(f, stack[i].parent, stack[i].current, 511 - i) { assert stack[..|stack| - 1][i] == stack[i]; }
  }

  /** The key on top is then settled, listed by its parent, and after its neighbour.  f is what has been found
      so far, g what is to be found. */
  lemma TopPromised(f: Findings, g: Findings, stack: seq<Frame>)
    requires StackOk(f, stack, false) && Promised(g, stack) && g.graph == f.graph && g.order == f.order
    ensures var n := |stack| - 1;
      && stack[n].current in g.settled
      && (g.strict && stack[n].parent != Nil ==> stack[n].current in g.parents && g.parents[stack[n].current] == stack[n].parent)
      && (n > 0 && stack[n - 1].sibling != Nil ==> g.order(stack[n].current, stack[n - 1].sibling))
    ensures Promised(g, Remembered(stack))
  {
    var n := |stack| - 1;
    assert Walked(g, stack[n].parent, stack[n].current, 511 - n);
    if n > 0 {
      assert Waiting(f, stack, n - 1, false) && Linked(f, stack, n);
      assert Walked(g, stack[n - 1].parent, stack[n - 1].current, 512 - n);
      var kids, c := Kids(f.graph, stack[n - 1].current), stack[n - 1].childCellIndex - 1;
      if c > 0 { assert Ordered(g, kids, c); }
    }
    forall i | 0 <= i < |stack| ensures Walked(g, Remembered(stack)[i].parent, Remembered(stack)[i].current, 511 - i) {
      assert Walked(g, stack[i].parent, stack[i].current, 511 - i);
    }
  }

  /** The keys on the stack are a way down from the root. */
  lemma StackReaches(f: Findings, stack: seq<Frame>)
    requires StackOk(f, stack, false) && f.root != Nil
    ensures var n := |stack| - 1;
      if n == 0 then stack[0].current == f.root && stack[0].parent == Nil
      else stack[n].parent != Nil && Adopted(f.graph, f.root, stack[n].parent, stack[n].current)
  {
    var n := |stack| - 1;
    assert Linked(f, stack, 0) && Linked(f, stack, n);
    if n > 0 {
      var p := seq(n, i requires 0 <= i < n => stack[i].current);
      forall i | 0 <= i < |p| - 1 ensures Step(f.graph, p, i) { assert Linked(f, stack, i + 1); }
      assert Path(f.graph, p) && p[0] == f.root && p[|p| - 1] == stack[n].parent;
      assert Linked(f, stack, n - 1);
    }
  }

  lemma PushedWork(graph: Graph, stack: seq<Frame>)
    requires 0 < |stack| < 511
    requires var top := stack[|stack| - 1]; top.childCellIndex < |Kids(graph, top.current)|
    ensures var top := stack[|stack| - 1];
      StackWork(graph, Pushed(stack, Kids(graph, top.current)[top.childCellIndex])) == StackWork(graph, stack) - 1
  {
    var n := |stack| - 1;
    var top := stack[n];
    var kids := Kids(graph, top.current);
    var child := kids[top.childCellIndex];
    var stack' := Pushed(stack, child);
    var next := top.(childCellIndex := top.childCellIndex + 1);
    assert stack'[..n + 1] == stack[..n] + [next] && (stack[..n] + [next])[..n] == stack[..n];
    WorkOfNext(graph, kids, top.childCellIndex, 510 - n);
    var below := Kids(graph, child);
    assert below[0..] == below;
    assert Left(graph, stack'[n + 1], n + 1) == WorkOfAll(graph, below, 510 - (n + 1));
  }

  /** All children of the key on top have been walked: so has the key, for the frame below. */
  lemma TopPopped(f: Findings, stack: seq<Frame>)
    requires StackOk(f, stack, true)
    requires var top := stack[|stack| - 1]; top.childCellIndex >= |Kids(f.graph, top.current)|
    ensures var stack' := stack[..|stack| - 1];
      && StackWork(f.graph, stack') < StackWork(f.graph, stack)
      && if |stack| == 1 then Walked(f, Nil, f.root, 511) else StackOk(f, stack', true)
  {
    var n := |stack| - 1;
    var top := stack[n];
    assert Linked(f, stack, n);
    assert Walked(f, top.parent, top.current, 511 - n);
    if n > 0 {
      var stack' := stack[..n];
      var under := stack[n - 1];
      assert Waiting(f, stack, n - 1, true);
      forall j | 0 <= j < n ensures Linked(f, stack', j) { assert Linked(f, stack, j); }
      forall j | 0 <= j < n - 1 ensures Waiting(f, stack', j, true) { assert Waiting(f, stack, j, true); }
      var kids := Kids(f.graph, under.current);
      forall j | 0 <= j < under.childCellIndex ensures kids[j] != Nil && Walked(f, under.current, kids[j], 511 - n) {
      }
    }
  }
}
