/**
 * The exchange move for second-type trees: two subtrees trade parents, and
 * then the run of ancestors that carried each moved subtree's element is
 * recoloured to the element of the subtree that now hangs there, first
 * above j's old parent, then above i's.
 */
module SecondTypeExchange {
  import opened TreeCore
  import opened PartitionedTrees
  import opened TreeEdits

  /** The tree after exchangeNodes(i, j, iP, jP) with iP and jP the current
    * parents: the exchange, then the run of j's element above jP takes i's
    * element, then the run of i's element above iP takes j's; both runs are
    * marked partition-dirty. */
  function ExchangeRecoloured(ns: seq<NodeState>, i: int, j: int): (r: seq<NodeState>)
    requires Linked(ns) && Exchangeable(ns, i, j)
    ensures |r| == |ns|
  {
    var iP, jP := ns[i].parent, ns[j].parent;
    var ei, ej := ns[i].element, ns[j].element;
    var e := Exchanged(ns, i, j, iP, jP);
    var r1 := Repainted(e, jP, ej, ei, -1, true);
    Repainted(r1, iP, ei, ej, -1, true)
  }

  /** The two recolourings node by node, with the run lengths they use. */
  lemma RecolouredAt(ns: seq<NodeState>, i: int, j: int, root: int, x: int)
    requires Tree(ns, root) && Exchangeable(ns, i, j) && 0 <= x < |ns|
    requires Acyclic(Exchanged(ns, i, j, ns[i].parent, ns[j].parent))
    ensures var iP, jP := ns[i].parent, ns[j].parent;
      var ei, ej := ns[i].element, ns[j].element;
      var e := Exchanged(ns, i, j, iP, jP);
      var r1 := Repainted(e, jP, ej, ei, -1, true);
      var L1, L2 := RunLen(e, jP, ej, -1, |e|), RunLen(r1, iP, ei, -1, |r1|);
      Tree(e, root) && Tree(r1, root) &&
      r1[x] == (if InRun(e, jP, L1, x) then Painted(e[x], ei, true) else e[x]) &&
      ExchangeRecoloured(ns, i, j)[x] == (if InRun(r1, iP, L2, x) then Painted(r1[x], ej, true) else r1[x])
  {
    var iP, jP := ns[i].parent, ns[j].parent;
    var ei, ej := ns[i].element, ns[j].element;
    var e := Exchanged(ns, i, j, iP, jP);
    ExchangeKeepsTree(ns, i, j, root);
    var r1 := Repainted(e, jP, ej, ei, -1, true);
    RepaintedSameShape(e, jP, ej, ei, -1, true);
    SameShapeTree(r1, e, root);
    PaintedUpToAt(e, jP, RunLen(e, jP, ej, -1, |e|), ei, true, x);
    PaintedUpToAt(r1, iP, RunLen(r1, iP, ei, -1, |r1|), ej, true, x);
  }

  /** Neither recolouring walk reaches i or j, so the elements of i and j
    * that the walks compare against stay what they were; the chain above
    * iP is the same before and after the first recolouring. */
  lemma WalksSpareExchanged(ns: seq<NodeState>, i: int, j: int, root: int)
    requires Tree(ns, root) && Exchangeable(ns, i, j)
    requires Acyclic(Exchanged(ns, i, j, ns[i].parent, ns[j].parent))
    ensures var iP, jP := ns[i].parent, ns[j].parent;
      var e := Exchanged(ns, i, j, iP, jP);
      var r1 := Repainted(e, jP, ns[j].element, ns[i].element, -1, true);
      (forall m: nat :: Up(r1, iP, m) == Up(e, iP, m)) &&
      (forall k: nat :: !InRun(e, jP, k, i) && !InRun(e, jP, k, j) && !InRun(r1, iP, k, i) && !InRun(r1, iP, k, j))
  {
    var iP, jP := ns[i].parent, ns[j].parent;
    var e := Exchanged(ns, i, j, iP, jP);
    var r1 := Repainted(e, jP, ns[j].element, ns[i].element, -1, true);
    RepaintedSameShape(e, jP, ns[j].element, ns[i].element, -1, true);
    forall m: nat ensures Up(r1, iP, m) == Up(e, iP, m) && Up(e, iP, m) != i && Up(e, iP, m) != j &&
      Up(e, jP, m) != i && Up(e, jP, m) != j
    {
      UpSameShape(r1, e, iP, m);
      ExchangedWalksAvoid(ns, i, j, m);
    }
  }

  /**
   * What the move does to the tree: the result is a tree with the same
   * root, i now under jP and j under iP; i and j keep their elements and no
   * height changes.
   */
  lemma ExchangeRecolouredTree(ns: seq<NodeState>, i: int, j: int, root: int)
    requires Tree(ns, root) && Exchangeable(ns, i, j)
    requires Acyclic(Exchanged(ns, i, j, ns[i].parent, ns[j].parent))
    ensures var r := ExchangeRecoloured(ns, i, j);
      Tree(r, root) && r[i].parent == ns[j].parent && r[j].parent == ns[i].parent &&
      r[i].element == ns[i].element && r[j].element == ns[j].element &&
      forall x :: 0 <= x < |ns| ==> r[x].height == ns[x].height
  {
    var iP, jP := ns[i].parent, ns[j].parent;
    var ei, ej := ns[i].element, ns[j].element;
    var e := Exchanged(ns, i, j, iP, jP);
    var r1 := Repainted(e, jP, ej, ei, -1, true);
    var r := ExchangeRecoloured(ns, i, j);
    ExchangedAt(ns, i, j, iP, jP);
    WalksSpareExchanged(ns, i, j, root);
    RecolouredAt(ns, i, j, root, i);
    RecolouredAt(ns, i, j, root, j);
    RepaintedSameShape(r1, iP, ei, ej, -1, true);
    SameShapeTree(r, r1, root);
    forall x | 0 <= x < |ns| ensures r[x].height == ns[x].height {
      RecolouredAt(ns, i, j, root, x);
    }
  }

  /** i's old parent, which now holds j, ends up carrying j's element
    * whenever it carried i's or j's. */
  lemma ExchangeRecolouredParent(ns: seq<NodeState>, i: int, j: int, root: int)
    requires Tree(ns, root) && Exchangeable(ns, i, j)
    requires Acyclic(Exchanged(ns, i, j, ns[i].parent, ns[j].parent))
    requires ns[ns[i].parent].element == ns[i].element || ns[ns[i].parent].element == ns[j].element
    ensures ExchangeRecoloured(ns, i, j)[ns[i].parent].element == ns[j].element
  {
    var iP, jP := ns[i].parent, ns[j].parent;
    var ei, ej := ns[i].element, ns[j].element;
    var e := Exchanged(ns, i, j, iP, jP);
    var r1 := Repainted(e, jP, ej, ei, -1, true);
    var L2 := RunLen(r1, iP, ei, -1, |r1|);
    ExchangedAt(ns, i, j, iP, jP);
    RecolouredAt(ns, i, j, root, iP);
    if r1[iP].element == ei {
      assert Up(r1, iP, 0) == iP;
      assert InRun(r1, iP, L2, iP);
    }
  }

  /** A node on neither chain of ancestors above iP and jP keeps its
    * element. */
  lemma ExchangeRecolouredElsewhere(ns: seq<NodeState>, i: int, j: int, root: int, x: int)
    requires Tree(ns, root) && Exchangeable(ns, i, j)
    requires Acyclic(Exchanged(ns, i, j, ns[i].parent, ns[j].parent))
    requires var e := Exchanged(ns, i, j, ns[i].parent, ns[j].parent);
      0 <= x < |ns| && forall m: nat :: Up(e, ns[i].parent, m) != x && Up(e, ns[j].parent, m) != x
    ensures ExchangeRecoloured(ns, i, j)[x].element == ns[x].element
  {
    var iP, jP := ns[i].parent, ns[j].parent;
    var ei, ej := ns[i].element, ns[j].element;
    var e := Exchanged(ns, i, j, iP, jP);
    var r1 := Repainted(e, jP, ej, ei, -1, true);
    WalksSpareExchanged(ns, i, j, root);
    ExchangedAt(ns, i, j, iP, jP);
    RecolouredAt(ns, i, j, root, x);
    assert !InRun(e, jP, RunLen(e, jP, ej, -1, |e|), x);
    assert !InRun(r1, iP, RunLen(r1, iP, ei, -1, |r1|), x);
  }

  /**
   * exchangeNodes: the two replacements, then the two recolouring walks.
   * The walks compare against the current elements of j and i at every
   * step; WalksSpareExchanged shows those never change during the walks,
   * so they are read once here.
   */
  method ExchangeNodes(tree: PartitionedTree, i: int, j: int, iP: int, jP: int)
    requires tree.Valid() && Exchangeable(tree.nodes[..], i, j)
    requires iP == tree.nodes[i].parent && jP == tree.nodes[j].parent
    requires Acyclic(Exchanged(tree.nodes[..], i, j, iP, jP))
    modifies tree.nodes
    ensures tree.Valid()
    ensures tree.nodes[..] == ExchangeRecoloured(old(tree.nodes[..]), i, j)
  {
    ExchangeRecolourNodes(tree.nodes, tree.root, i, j, iP, jP);
  }

  /** exchangeNodes on the node array of a tree with the given root. */
  method ExchangeRecolourNodes(a: array<NodeState>, root: int, i: int, j: int, iP: int, jP: int)
    requires Tree(a[..], root) && Exchangeable(a[..], i, j)
    requires iP == a[i].parent && jP == a[j].parent
    requires Acyclic(Exchanged(a[..], i, j, iP, jP))
    modifies a
    ensures Tree(a[..], root)
    ensures a[..] == ExchangeRecoloured(old(a[..]), i, j)
  {
    ghost var ns := a[..];
    assert i in ns[iP].children && j in ns[jP].children;
    ExchangeKeepsTree(ns, i, j, root);
    ExchangedAt(ns, i, j, iP, jP);
    TreeEdits.ExchangeNodes(a, i, j, iP, jP);
    var ei, ej := a[i].element, a[j].element;
    ghost var e := a[..];
    PaintRun(a, jP, ej, ei, -1, true);
    RepaintedSameShape(e, jP, ej, ei, -1, true);
    SameShapeTree(a[..], e, root);
    PaintRun(a, iP, ei, ej, -1, true);
    ExchangeRecolouredTree(ns, i, j, root);
  }

}
