/**
 * The second-type flip move: at an internal node whose element continues
 * into exactly one of its children, the run of ancestors carrying that
 * element (the infector) takes the other child's element (the infected
 * case) instead, so the transmission moves from one child's lineage to the
 * other's.
 */
module SecondTypeFlipper {
  import opened TreeCore
  import opened PartitionedTrees

  /** adjustTree's sanity checks: the node has two children and exactly one
    * of them carries its element; the answer is the element of the other
    * child, the infected case. */
  function FlipCheck(ns: seq<NodeState>, p: int): (r: Result<int>)
    requires Linked(ns) && 0 <= p < |ns|
    ensures r.Ok? <==>
      |ns[p].children| == 2 &&
      ((ns[ns[p].children[0]].element == ns[p].element) != (ns[ns[p].children[1]].element == ns[p].element))
    ensures r.Ok? ==> r.value != ns[p].element && (exists k :: 0 <= k < 2 && r.value == ns[ns[p].children[k]].element)
  {
    if |ns[p].children| != 2 then Err("Bifurcating trees only")
    else
      assert Binary(ns[p]);
      var c1, c2 := ns[p].children[0], ns[p].children[1];
      if ns[p].element != ns[c1].element && ns[p].element != ns[c2].element then
        Err("This tree does not obey second-type partition rules")
      else if ns[c1].element == ns[c2].element then
        Err("This tree does not obey second-type partition rules")
      else
        Ok(if ns[p].element == ns[c1].element then ns[c2].element else ns[c1].element)
  }

  /** The tree after a flip at p towards element f: the run of p's element
    * from p upward takes f and is marked partition-dirty, and so are both
    * children of p. */
  function FlipTo(ns: seq<NodeState>, p: int, f: int): (r: seq<NodeState>)
    requires 0 <= p < |ns| && |ns[p].children| == 2
    requires 0 <= ns[p].children[0] < |ns| && 0 <= ns[p].children[1] < |ns|
    ensures |r| == |ns|
    ensures forall x :: 0 <= x < |ns| ==> r[x].element == ns[x].element || r[x].element == f
    ensures r[ns[p].children[0]].partitionDirty && r[ns[p].children[1]].partitionDirty
  {
    var c1, c2 := ns[p].children[0], ns[p].children[1];
    var q := Repainted(ns, p, ns[p].element, f, -1, true);
    q[c1 := q[c1].(partitionDirty := true)][c2 := q[c2].(partitionDirty := true)]
  }

  /** The flip adjustTree makes: towards the infected case. */
  function Flipped(ns: seq<NodeState>, p: int): (r: seq<NodeState>)
    requires Linked(ns) && 0 <= p < |ns| && FlipCheck(ns, p).Ok?
    ensures |r| == |ns|
  {
    assert Binary(ns[p]);
    FlipTo(ns, p, FlipCheck(ns, p).value)
  }

  /** The first node above the run that the flip recolours (-1 past the
    * root): the infector's own infection. */
  function RunEnd(ns: seq<NodeState>, p: int): (s: int)
    requires ParentsInRange(ns) && 0 <= p < |ns|
    ensures -1 <= s < |ns|
  {
    UpInRange(ns, p, RunLen(ns, p, ns[p].element, -1, |ns|));
    Up(ns, p, RunLen(ns, p, ns[p].element, -1, |ns|))
  }

  /** The children of p are not on the chain above p. */
  lemma ChildrenOffChain(ns: seq<NodeState>, p: int, L: nat)
    requires Linked(ns) && Acyclic(ns) && 0 <= p < |ns|
    ensures forall c :: c in ns[p].children ==> !InRun(ns, p, L, c)
  {
    forall c | c in ns[p].children ensures !InRun(ns, p, L, c) {
      assert 0 <= c < |ns| && ns[c].parent == p;
      forall m: nat | m < L ensures Up(ns, p, m) != c {
        ChildNotAbove(ns, c, m);
      }
    }
  }

  lemma InPair(cs: seq<int>, x: int)
    requires |cs| == 2
    ensures x in cs <==> x == cs[0] || x == cs[1]
  {
  }

  /** Marking two nodes dirty on top of a recolouring: nodes that are
    * neither keep their recoloured state. */
  lemma MarkedAt(q: seq<NodeState>, c1: int, c2: int, x: int)
    requires 0 <= c1 < |q| && 0 <= c2 < |q| && 0 <= x < |q|
    ensures var r := q[c1 := q[c1].(partitionDirty := true)][c2 := q[c2].(partitionDirty := true)];
      r[x] == if x == c1 || x == c2 then q[x].(partitionDirty := true) else q[x]
  {
  }

  /** What the flip does node by node: the run, which starts at p, is
    * painted; the children of p lie outside it and only become dirty; every
    * other node is unchanged. */
  lemma FlipAt(ns: seq<NodeState>, p: int, f: int)
    requires Linked(ns) && Acyclic(ns) && 0 <= p < |ns| && |ns[p].children| == 2
    ensures 0 <= ns[p].children[0] < |ns| && 0 <= ns[p].children[1] < |ns|
    ensures var r := FlipTo(ns, p, f);
      var L := RunLen(ns, p, ns[p].element, -1, |ns|);
      1 <= L &&
      (forall m: nat :: m < L ==>
         0 <= Up(ns, p, m) < |ns| && ns[Up(ns, p, m)].element == ns[p].element &&
         r[Up(ns, p, m)] == Painted(ns[Up(ns, p, m)], f, true)) &&
      (forall x :: 0 <= x < |ns| && !InRun(ns, p, L, x) ==>
         r[x] == if x in ns[p].children then ns[x].(partitionDirty := true) else ns[x])
  {
    var e := ns[p].element;
    var L := RunLen(ns, p, e, -1, |ns|);
    var q := Repainted(ns, p, e, f, -1, true);
    var c1, c2 := ns[p].children[0], ns[p].children[1];
    assert 0 <= c1 < |ns| && 0 <= c2 < |ns|;
    var r := FlipTo(ns, p, f);
    assert r == q[c1 := q[c1].(partitionDirty := true)][c2 := q[c2].(partitionDirty := true)];
    assert q == PaintedUpTo(ns, p, L, f, true);
    RunCharacterization(ns, p, e, -1);
    ChildrenOffChain(ns, p, L);
    assert Up(ns, p, 0) == p;
    forall m: nat | m < L
      ensures 0 <= Up(ns, p, m) < |ns| && r[Up(ns, p, m)] == Painted(ns[Up(ns, p, m)], f, true)
    {
      var x := Up(ns, p, m);
      PaintedUpToAt(ns, p, L, f, true, x);
      assert InRun(ns, p, L, x);
      MarkedAt(q, c1, c2, x);
      assert x != c1 && x != c2;
    }
    forall x | 0 <= x < |ns| && !InRun(ns, p, L, x)
      ensures r[x] == if x in ns[p].children then ns[x].(partitionDirty := true) else ns[x]
    {
      PaintedUpToAt(ns, p, L, f, true, x);
      MarkedAt(q, c1, c2, x);
      InPair(ns[p].children, x);
    }
  }

  /** The flip only recolours and marks nodes: every link stays. */
  lemma FlipKeepsLinks(ns: seq<NodeState>, p: int, f: int)
    requires 0 <= p < |ns| && |ns[p].children| == 2
    requires 0 <= ns[p].children[0] < |ns| && 0 <= ns[p].children[1] < |ns|
    ensures SameShape(FlipTo(ns, p, f), ns)
  {
    var q := Repainted(ns, p, ns[p].element, f, -1, true);
    RepaintedSameShape(ns, p, ns[p].element, f, -1, true);
    var c1, c2 := ns[p].children[0], ns[p].children[1];
    var r := FlipTo(ns, p, f);
    assert r == q[c1 := q[c1].(partitionDirty := true)][c2 := q[c2].(partitionDirty := true)];
    forall x | 0 <= x < |r| ensures r[x].parent == ns[x].parent && r[x].children == ns[x].children {
      MarkedAt(q, c1, c2, x);
    }
  }

  /** The flip keeps the tree and its root. */
  lemma FlipKeepsTree(ns: seq<NodeState>, p: int, f: int, root: int)
    requires Tree(ns, root) && 0 <= p < |ns| && |ns[p].children| == 2
    requires 0 <= ns[p].children[0] < |ns| && 0 <= ns[p].children[1] < |ns|
    ensures Tree(FlipTo(ns, p, f), root)
  {
    FlipKeepsLinks(ns, p, f);
    SameShapeTree(FlipTo(ns, p, f), ns, root);
  }

  /** After the flip p carries the infected case and the children keep their
    * elements, so the child that carried p's element no longer does and the
    * other one now does: the second-type rule holds at p again, with the
    * transmission moved to the other child. */
  lemma FlipSwapsChild(ns: seq<NodeState>, p: int)
    requires Linked(ns) && Acyclic(ns) && 0 <= p < |ns| && FlipCheck(ns, p).Ok?
    ensures var r := Flipped(ns, p);
      r[p].element == FlipCheck(ns, p).value && r[p].partitionDirty &&
      forall k :: 0 <= k < 2 ==>
        var c := ns[p].children[k];
        r[c].element == ns[c].element && r[c].partitionDirty &&
        ((r[c].element == r[p].element) <==> (ns[c].element != ns[p].element))
  {
    var f := FlipCheck(ns, p).value;
    FlipAt(ns, p, f);
    ChildrenOffChain(ns, p, RunLen(ns, p, ns[p].element, -1, |ns|));
    assert Up(ns, p, 0) == p;
  }

  /** Flipping twice at the same node restores every element, provided the
    * node just above the recoloured run does not itself carry the infected
    * case (the infected case did not infect the infector). */
  lemma FlipTwiceRestores(ns: seq<NodeState>, p: int)
    requires Linked(ns) && Acyclic(ns) && 0 <= p < |ns| && FlipCheck(ns, p).Ok?
    requires var s := RunEnd(ns, p); s == -1 || ns[s].element != FlipCheck(ns, p).value
    ensures var r1 := Flipped(ns, p);
      Linked(r1) && Acyclic(r1) && FlipCheck(r1, p) == Ok(ns[p].element) &&
      var r2 := Flipped(r1, p);
      SameShape(r2, ns) && forall x :: 0 <= x < |ns| ==> r2[x].element == ns[x].element
  {
    var e, f := ns[p].element, FlipCheck(ns, p).value;
    var L := RunLen(ns, p, e, -1, |ns|);
    var r1 := FlipTo(ns, p, f);
    FlipFirst(ns, p, f);
    FlipBack(ns, r1, p, e, f, L);
    FlipKeepsLinks(r1, p, e);
    SameShapeTrans(FlipTo(r1, p, e), r1, ns);
  }

  /** The first flip of FlipTwiceRestores: the result is a linked acyclic
    * tree whose check at p answers the infector, and whose run of the
    * infected case from p is the chain the flip recoloured. */
  lemma FlipFirst(ns: seq<NodeState>, p: int, f: int)
    requires Linked(ns) && Acyclic(ns) && 0 <= p < |ns| && FlipCheck(ns, p) == Ok(f)
    requires var s := RunEnd(ns, p); s == -1 || ns[s].element != f
    ensures var r1 := Flipped(ns, p); var L := RunLen(ns, p, ns[p].element, -1, |ns|);
      r1 == FlipTo(ns, p, f) && SameShape(r1, ns) &&
      Linked(r1) && Acyclic(r1) && FlipCheck(r1, p) == Ok(ns[p].element) &&
      r1[p].element == f && RunLen(r1, p, f, -1, |r1|) == L &&
      (forall m: nat :: Up(r1, p, m) == Up(ns, p, m)) &&
      (forall m: nat :: m < L ==> 0 <= Up(ns, p, m) < |ns| && ns[Up(ns, p, m)].element == ns[p].element) &&
      (forall x :: 0 <= x < |ns| && !InRun(ns, p, L, x) ==> r1[x].element == ns[x].element)
  {
    var e := ns[p].element;
    var L := RunLen(ns, p, e, -1, |ns|);
    var r1 := FlipTo(ns, p, f);
    FlipAt(ns, p, f);
    FlipSwapsChild(ns, p);
    FlipKeepsLinks(ns, p, f);
    SameShapeLinked(r1, ns);
    assert Acyclic(r1) by {
      forall x | 0 <= x < |r1| ensures Up(r1, x, |r1|) == -1 {
        UpSameShape(r1, ns, x, |r1|);
      }
    }
    forall m: nat ensures Up(r1, p, m) == Up(ns, p, m) {
      UpSameShape(r1, ns, p, m);
    }
    RunAgain(ns, r1, p, e, f, L);
  }

  /** After the first flip the run of the infected case from p is again L
    * nodes long: the chain is painted with it, and the node above keeps an
    * element other than it. */
  lemma RunAgain(ns: seq<NodeState>, r1: seq<NodeState>, p: int, e: int, f: int, L: nat)
    requires Acyclic(ns) && |r1| == |ns| && 0 <= p < |ns| && e == ns[p].element
    requires L == RunLen(ns, p, e, -1, |ns|)
    requires var s := RunEnd(ns, p); s == -1 || ns[s].element != f
    requires forall m: nat :: Up(r1, p, m) == Up(ns, p, m)
    requires forall m: nat :: m < L ==> 0 <= Up(ns, p, m) < |ns| && r1[Up(ns, p, m)] == Painted(ns[Up(ns, p, m)], f, true)
    requires forall x :: 0 <= x < |ns| && !InRun(ns, p, L, x) ==> r1[x].element == ns[x].element
    ensures RunLen(r1, p, f, -1, |r1|) == L
  {
    RunLenSplit(ns, p, e, -1, |ns|, L);
    var s := Up(ns, p, L);
    assert s == RunEnd(ns, p);
    UpInRange(ns, p, L);
    if 0 <= s < |ns| {
      forall m: nat | m < L ensures Up(ns, p, m) != s {
        UpDistinct(ns, p, m, L);
      }
      assert r1[s].element == ns[s].element;
    }
    RunLenExact(r1, p, f, -1, |r1|, L);
  }

  /** The second flip of FlipTwiceRestores: it recolours the chain the first
    * one did, back to the elements it had. */
  lemma FlipBack(ns: seq<NodeState>, r1: seq<NodeState>, p: int, e: int, f: int, L: nat)
    requires Linked(r1) && Acyclic(r1) && |r1| == |ns| && 0 <= p < |ns| && |r1[p].children| == 2
    requires r1[p].element == f && RunLen(r1, p, f, -1, |r1|) == L
    requires forall m: nat :: Up(r1, p, m) == Up(ns, p, m)
    requires forall m: nat :: m < L ==> 0 <= Up(ns, p, m) < |ns| && ns[Up(ns, p, m)].element == e
    requires forall x :: 0 <= x < |ns| && !InRun(ns, p, L, x) ==> r1[x].element == ns[x].element
    ensures 0 <= r1[p].children[0] < |r1| && 0 <= r1[p].children[1] < |r1|
    ensures forall x :: 0 <= x < |ns| ==> FlipTo(r1, p, e)[x].element == ns[x].element
  {
    FlipAt(r1, p, e);
    var r2 := FlipTo(r1, p, e);
    forall x | 0 <= x < |ns| ensures r2[x].element == ns[x].element {
      if InRun(ns, p, L, x) {
        var m: nat :| m < L && Up(ns, p, m) == x;
        assert Up(r1, p, m) == x;
      } else {
        assert !InRun(r1, p, L, x);
      }
    }
  }

  /**
   * adjustTree: the checks, then the recolouring walk from the node upward
   * and the dirty marks on both children; the log Hastings ratio is 0.
   */
  method AdjustTree(tree: PartitionedTree, parent: int) returns (r: Result<real>)
    requires tree.Valid() && 0 <= parent < tree.nodes.Length
    modifies tree.nodes
    ensures tree.Valid()
    ensures r.Ok? <==> FlipCheck(old(tree.nodes[..]), parent).Ok?
    ensures r.Ok? ==> r.value == 0.0 && tree.nodes[..] == Flipped(old(tree.nodes[..]), parent)
    ensures r.Err? ==> r.error == FlipCheck(old(tree.nodes[..]), parent).error && tree.nodes[..] == old(tree.nodes[..])
  {
    var a := tree.nodes;
    ghost var ns := a[..];
    var check := FlipCheck(a[..], parent);
    if check.Err? {
      return Err(check.error);
    }
    var child1, child2 := a[parent].children[0], a[parent].children[1];
    assert Binary(ns[parent]);
    PaintRun(a, parent, a[parent].element, check.value, -1, true);
    a[child1] := a[child1].(partitionDirty := true);
    a[child2] := a[child2].(partitionDirty := true);
    assert a[..] == Flipped(ns, parent);
    FlipKeepsTree(ns, parent, check.value, tree.root);
    r := Ok(0.0);
  }
}
