/**
 * The second-type wrapper: an ordinary tree operator (a node swap or a
 * subtree transplant) runs first, and the wrapper then repairs the
 * partition so that the tree obeys the second-type rules again, by
 * recolouring runs of ancestors (paintUp).
 */
module SecondTypeWrapper {
  import opened TreeCore
  import opened PartitionedTrees
  import opened TreeEdits

  /** The inner operator's class: the swap operator, the two transplant
    * (SPR) operators, or anything else. */
  datatype InnerOperator = Exchange | SubtreeSlide | WilsonBalding | OtherOperator(name: string)

  /** initAndValidate: a second-type partitioned tree, and an inner operator
    * from the swap or transplant lists. */
  function InitCheck(t: TreeInput, inner: InnerOperator): (r: Result<bool>)
    ensures r.Ok? <==> t == Partitioned(SecondType) && !inner.OtherOperator?
    ensures r.Ok? ==> r.value
  {
    var base := CheckTree(t, Some(SecondType));
    if base.Err? then base
    else if inner.OtherOperator? then Err("Incompatible inner operator")
    else Ok(true)
  }

  // -------------------------------------------------------------------
  // paintUp

  /** paintUp(old, new, node, limit): nothing at the root; otherwise the
    * run of old-element nodes from node's parent upward, stopping before
    * limit (-1 for none), takes the new element, without dirty marks. */
  function PaintedUp(ns: seq<NodeState>, oldElementNo: int, newElementNo: int, node: int, limit: int): (r: seq<NodeState>)
    requires 0 <= node < |ns|
    ensures |r| == |ns|
  {
    if ns[node].parent == -1 then ns
    else Repainted(ns, ns[node].parent, oldElementNo, newElementNo, limit, false)
  }

  method PaintUp(a: array<NodeState>, oldElementNo: int, newElementNo: int, node: int, limit: int)
    requires Acyclic(a[..]) && 0 <= node < a.Length
    modifies a
    ensures a[..] == PaintedUp(old(a[..]), oldElementNo, newElementNo, node, limit)
  {
    if a[node].parent == -1 {
      return;
    }
    PaintRun(a, a[node].parent, oldElementNo, newElementNo, limit, false);
  }

  /**
   * What paintUp does: on the root nothing; otherwise exactly the maximal
   * run of strict ancestors carrying the old element, stopping above the
   * root, at limit or at another element, takes the new element; every
   * other node, node itself and limit among them, is unchanged, and no
   * link, height or dirty mark changes.
   */
  lemma PaintUpAt(ns: seq<NodeState>, oldElementNo: int, newElementNo: int, node: int, limit: int)
    requires Acyclic(ns) && 0 <= node < |ns|
    ensures var r := PaintedUp(ns, oldElementNo, newElementNo, node, limit);
      SameShape(r, ns) && (ns[node].parent == -1 ==> r == ns) &&
      r[node] == ns[node] && (0 <= limit < |ns| ==> r[limit] == ns[limit])
    ensures ns[node].parent != -1 ==>
      var r := PaintedUp(ns, oldElementNo, newElementNo, node, limit);
      var p := ns[node].parent;
      var L := RunLen(ns, p, oldElementNo, limit, |ns|);
      (forall m: nat :: m < L ==>
         0 <= Up(ns, p, m) < |ns| && Up(ns, p, m) != limit && ns[Up(ns, p, m)].element == oldElementNo &&
         r[Up(ns, p, m)] == ns[Up(ns, p, m)].(element := newElementNo)) &&
      (var stop := Up(ns, p, L); -1 <= stop < |ns| && (stop == -1 || stop == limit || ns[stop].element != oldElementNo)) &&
      (forall x :: 0 <= x < |ns| && !InRun(ns, p, L, x) ==> r[x] == ns[x])
  {
    var p := ns[node].parent;
    if p != -1 {
      var L := RunLen(ns, p, oldElementNo, limit, |ns|);
      RunCharacterization(ns, p, oldElementNo, limit);
      RepaintedAt(ns, p, oldElementNo, newElementNo, limit, false);
      RepaintedSameShape(ns, p, oldElementNo, newElementNo, limit, false);
      forall m: nat | m < L ensures Up(ns, p, m) != node {
        ChildNotAbove(ns, node, m);
      }
      assert !InRun(ns, p, L, node);
      assert 0 <= limit < |ns| ==> !InRun(ns, p, L, limit);
    }
  }

  /** A recolouring keeps a tree a tree. */
  lemma PaintedUpTree(ns: seq<NodeState>, oldElementNo: int, newElementNo: int, node: int, limit: int, root: int)
    requires Tree(ns, root) && 0 <= node < |ns|
    ensures Tree(PaintedUp(ns, oldElementNo, newElementNo, node, limit), root)
  {
    PaintUpAt(ns, oldElementNo, newElementNo, node, limit);
    SameShapeTree(PaintedUp(ns, oldElementNo, newElementNo, node, limit), ns, root);
  }

  // -------------------------------------------------------------------
  // getParentsArray

  /** getParentsArray: -1 for the root, otherwise the parent's number; in a
    * tree that is every node's parent link. */
  method ParentsArray(tree: PartitionedTree) returns (out: seq<int>)
    requires tree.Valid()
    ensures |out| == tree.nodes.Length
    ensures forall i :: 0 <= i < |out| ==> out[i] == tree.nodes[i].parent
    ensures out[tree.root] == -1
  {
    out := [];
    var i := 0;
    while i < tree.nodes.Length
      invariant 0 <= i <= tree.nodes.Length && |out| == i
      invariant forall k :: 0 <= k < i ==> out[k] == tree.nodes[k].parent
    {
      if i == tree.root {
        out := out + [-1];
      } else {
        out := out + [tree.nodes[i].parent];
      }
      i := i + 1;
    }
  }

  // -------------------------------------------------------------------
  // proposal

  /** The nodes the inner operator left filthy, in node-number order. */
  function Changed(filthy: seq<bool>, n: nat): (out: seq<int>)
    requires n <= |filthy|
    ensures forall x :: x in out <==> 0 <= x < n && filthy[x]
    ensures forall s, t :: 0 <= s < t < |out| ==> out[s] < out[t]
    ensures forall s :: 0 <= s < |out| ==> 0 <= out[s] < n
  {
    if n == 0 then []
    else Changed(filthy, n - 1) + (if filthy[n - 1] then [n - 1] else [])
  }

  /** The swapped nodes: the changed nodes whose parent is filthy too; a
    * changed root has no parent to ask and throws. */
  function Swapped(ns: seq<NodeState>, filthy: seq<bool>, changed: seq<int>): (r: Result<seq<int>>)
    requires ParentsInRange(ns) && |filthy| == |ns|
    requires forall s :: 0 <= s < |changed| ==> 0 <= changed[s] < |ns|
    ensures r.Err? <==> exists s :: 0 <= s < |changed| && ns[changed[s]].parent == -1
    ensures r.Ok? ==> forall x :: x in r.value <==> x in changed && filthy[ns[x].parent]
    ensures r.Ok? ==> forall s :: 0 <= s < |r.value| ==> 0 <= r.value[s] < |ns| && ns[r.value[s]].parent != -1
  {
    if |changed| == 0 then Ok([])
    else
      var x := changed[0];
      if ns[x].parent == -1 then Err("NullPointerException")
      else
        match Swapped(ns, filthy, changed[1..])
        case Err(e) => Err(e)
        case Ok(rest) => Ok((if filthy[ns[x].parent] then [x] else []) + rest)
  }

  /** The swap repair: when some swapped node shares its element with its
    * parent, the ancestors of each swapped node that carry the other
    * node's element take its own element (first from s0, then from s1). */
  function SwapRepainted(ns: seq<NodeState>, s0: int, s1: int): (r: seq<NodeState>)
    requires 0 <= s0 < |ns| && 0 <= s1 < |ns| && ParentsInRange(ns)
    requires ns[s0].parent != -1 && ns[s1].parent != -1
    ensures |r| == |ns|
  {
    var e0, e1 := ns[s0].element, ns[s1].element;
    if e0 == ns[ns[s0].parent].element || e1 == ns[ns[s1].parent].element then
      PaintedUp(PaintedUp(ns, e1, e0, s0, -1), e0, e1, s1, -1)
    else ns
  }

  /** The nodes the transplant case identifies (-1 where Java's reference
    * stays null). */
  datatype SprNodes = SprNodes(transplanted: int, transplantedChild: int, newSibling: int, oldSibling: int)

  predicate SprInRange(s: SprNodes, n: int)
  {
    0 <= s.transplanted < n && -1 <= s.transplantedChild < n &&
    -1 <= s.newSibling < n && 0 <= s.oldSibling < n
  }

  /** The state a proposal leaves and the exception it throws, if any. */
  datatype Outcome = Outcome(nodes: seq<NodeState>, failure: Option<string>)

  const Unexpected := "Operator behaving in unexpected ways"

  /** The transplant repair: when the child that moved with the
    * transplanted node is in another element, the transplanted node takes
    * its new sibling's element; otherwise the old sibling's ancestors below
    * the transplanted node that carried its element take the old sibling's,
    * and then the transplanted node's ancestors carrying the new sibling's
    * element take the transplanted node's. */
  function SprRepainted(ns: seq<NodeState>, s: SprNodes): (o: Outcome)
    requires SprInRange(s, |ns|)
    ensures |o.nodes| == |ns|
  {
    var t := s.transplanted;
    if s.transplantedChild == -1 then Outcome(ns, Some("NullPointerException"))
    else if ns[s.transplantedChild].element != ns[t].element then
      if s.newSibling == -1 then Outcome(ns, Some("NullPointerException"))
      else Outcome(ns[t := ns[t].(element := ns[s.newSibling].element)], None)
    else
      var r1 := PaintedUp(ns, ns[t].element, ns[s.oldSibling].element, s.oldSibling, t);
      if s.newSibling == -1 then Outcome(r1, Some("NullPointerException"))
      else Outcome(PaintedUp(r1, r1[s.newSibling].element, r1[t].element, t, -1), None)
  }

  /** The partition repair of proposal, after the inner operator has moved
    * the tree to ns and left the given nodes filthy; `spr` is what the
    * transplant case's node identification found (None: it gave up). */
  function Repaired(ns: seq<NodeState>, inner: InnerOperator, filthy: seq<bool>, spr: Option<SprNodes>): (o: Outcome)
    requires Linked(ns) && |filthy| == |ns|
    requires spr.Some? ==> SprInRange(spr.value, |ns|)
    ensures |o.nodes| == |ns|
  {
    var changed := Changed(filthy, |ns|);
    if |changed| == 0 then Outcome(ns, None)
    else match inner
      case Exchange => SwapCase(ns, filthy, changed)
      case SubtreeSlide => SprCase(ns, |changed|, spr)
      case WilsonBalding => SprCase(ns, |changed|, spr)
      case OtherOperator(_) => Outcome(ns, Some("Operator class not yet supported"))
  }

  function SwapCase(ns: seq<NodeState>, filthy: seq<bool>, changed: seq<int>): (o: Outcome)
    requires ParentsInRange(ns) && |filthy| == |ns|
    requires forall s :: 0 <= s < |changed| ==> 0 <= changed[s] < |ns|
    ensures |o.nodes| == |ns|
  {
    if |changed| != 4 then Outcome(ns, Some(Unexpected))
    else
      match Swapped(ns, filthy, changed)
      case Err(e) => Outcome(ns, Some(e))
      case Ok(sw) =>
        if |sw| != 2 then Outcome(ns, Some(Unexpected))
        else Outcome(SwapRepainted(ns, sw[0], sw[1]), None)
  }

  function SprCase(ns: seq<NodeState>, count: nat, spr: Option<SprNodes>): (o: Outcome)
    requires spr.Some? ==> SprInRange(spr.value, |ns|)
    ensures |o.nodes| == |ns|
  {
    if count != 4 && count != 5 then Outcome(ns, Some(Unexpected))
    else if spr.None? then Outcome(ns, Some(Unexpected))
    else SprRepainted(ns, spr.value)
  }

  /** The repair never changes the topology: whatever the path, the nodes
    * keep their links, so a tree stays the same tree. */
  lemma RepairedKeepsTree(ns: seq<NodeState>, inner: InnerOperator, filthy: seq<bool>, spr: Option<SprNodes>, root: int)
    requires Tree(ns, root) && |filthy| == |ns|
    requires spr.Some? ==> SprInRange(spr.value, |ns|)
    ensures Tree(Repaired(ns, inner, filthy, spr).nodes, root)
  {
    var changed := Changed(filthy, |ns|);
    if |changed| != 0 && inner.Exchange? && |changed| == 4 {
      var sw := Swapped(ns, filthy, changed);
      if sw.Ok? && |sw.value| == 2 {
        SwapRepaintedTree(ns, sw.value[0], sw.value[1], root);
      }
    } else if |changed| != 0 && (inner.SubtreeSlide? || inner.WilsonBalding?) && spr.Some? {
      SprRepaintedTree(ns, spr.value, root);
    }
  }

  lemma SwapRepaintedTree(ns: seq<NodeState>, s0: int, s1: int, root: int)
    requires Tree(ns, root) && 0 <= s0 < |ns| && 0 <= s1 < |ns|
    requires ns[s0].parent != -1 && ns[s1].parent != -1
    ensures Tree(SwapRepainted(ns, s0, s1), root)
  {
    var e0, e1 := ns[s0].element, ns[s1].element;
    PaintedUpTree(ns, e1, e0, s0, -1, root);
    PaintedUpTree(PaintedUp(ns, e1, e0, s0, -1), e0, e1, s1, -1, root);
  }

  lemma SprRepaintedTree(ns: seq<NodeState>, s: SprNodes, root: int)
    requires Tree(ns, root) && SprInRange(s, |ns|)
    ensures Tree(SprRepainted(ns, s).nodes, root)
  {
    var t := s.transplanted;
    if s.transplantedChild != -1 && ns[s.transplantedChild].element != ns[t].element && s.newSibling != -1 {
      var r := ns[t := ns[t].(element := ns[s.newSibling].element)];
      assert SameShape(r, ns);
      SameShapeTree(r, ns, root);
    } else if s.transplantedChild != -1 && ns[s.transplantedChild].element == ns[t].element {
      var r1 := PaintedUp(ns, ns[t].element, ns[s.oldSibling].element, s.oldSibling, t);
      PaintedUpTree(ns, ns[t].element, ns[s.oldSibling].element, s.oldSibling, t, root);
      if s.newSibling != -1 {
        PaintedUpTree(r1, r1[s.newSibling].element, r1[t].element, t, -1, root);
      }
    }
  }

  /** In the swap case the checks are exactly: four changed nodes, none of
    * them the root, two of them with a filthy parent. */
  lemma SwapCaseFails(ns: seq<NodeState>, filthy: seq<bool>, spr: Option<SprNodes>)
    requires Linked(ns) && |filthy| == |ns| && (spr.Some? ==> SprInRange(spr.value, |ns|))
    ensures var changed := Changed(filthy, |ns|);
      |changed| != 0 ==>
      (Repaired(ns, Exchange, filthy, spr).failure.None? <==>
        |changed| == 4 && (forall x :: x in changed ==> ns[x].parent != -1) &&
        |Swapped(ns, filthy, changed).value| == 2)
  {
    var changed := Changed(filthy, |ns|);
    var sw := Swapped(ns, filthy, changed);
    if |changed| == 4 && sw.Err? {
      var s :| 0 <= s < |changed| && ns[changed[s]].parent == -1;
      assert changed[s] in changed;
    }
  }

  /** In the transplant case, when the moved child keeps another element
    * than the transplanted node, only the transplanted node changes: it
    * takes its new sibling's element. */
  lemma SprFirstRule(ns: seq<NodeState>, s: SprNodes)
    requires SprInRange(s, |ns|) && s.transplantedChild != -1 && s.newSibling != -1
    requires ns[s.transplantedChild].element != ns[s.transplanted].element
    ensures var o := SprRepainted(ns, s);
      o.failure.None? && o.nodes[s.transplanted].element == ns[s.newSibling].element &&
      forall x :: 0 <= x < |ns| && x != s.transplanted ==> o.nodes[x] == ns[x]
  {
  }

  /**
   * proposal, after the inner operator's move: the wrapper's repair of the
   * partition. The inner operator's Hastings ratio is passed through.
   */
  method Proposal(tree: PartitionedTree, inner: InnerOperator, innerHr: real, filthy: seq<bool>, spr: Option<SprNodes>)
    returns (r: Result<real>)
    requires tree.Valid() && |filthy| == tree.nodes.Length
    requires spr.Some? ==> SprInRange(spr.value, tree.nodes.Length)
    modifies tree.nodes
    ensures tree.Valid()
    ensures var o := Repaired(old(tree.nodes[..]), inner, filthy, spr);
      tree.nodes[..] == o.nodes && (r.Err? <==> o.failure.Some?) && (r.Ok? ==> r.value == innerHr)
  {
    var a := tree.nodes;
    ghost var ns := a[..];
    RepairedKeepsTree(ns, inner, filthy, spr, tree.root);
    var changed := CollectChanged(filthy);
    if |changed| == 0 {
      return Ok(innerHr);
    }
    match inner {
      case Exchange =>
        r := SwapProposal(a, filthy, changed, innerHr);
      case SubtreeSlide =>
        r := SprProposal(a, |changed|, innerHr, spr);
      case WilsonBalding =>
        r := SprProposal(a, |changed|, innerHr, spr);
      case OtherOperator(_) =>
        r := Err("Operator class not yet supported");
    }
  }

  method SwapProposal(a: array<NodeState>, filthy: seq<bool>, changed: seq<int>, innerHr: real) returns (r: Result<real>)
    requires Acyclic(a[..]) && |filthy| == a.Length
    requires forall s :: 0 <= s < |changed| ==> 0 <= changed[s] < a.Length
    modifies a
    ensures var o := SwapCase(old(a[..]), filthy, changed);
      a[..] == o.nodes && (r.Err? <==> o.failure.Some?) && (r.Ok? ==> r.value == innerHr)
  {
    if |changed| != 4 {
      return Err(Unexpected);
    }
    var sw := Swapped(a[..], filthy, changed);
    if sw.Err? {
      return Err(sw.error);
    }
    if |sw.value| != 2 {
      return Err(Unexpected);
    }
    ghost var ns := a[..];
    var s0, s1 := sw.value[0], sw.value[1];
    var e0, e1 := a[s0].element, a[s1].element;
    if e0 == a[a[s0].parent].element || e1 == a[a[s1].parent].element {
      PaintUp(a, e1, e0, s0, -1);
      PaintUpAt(ns, e1, e0, s0, -1);
      UpSameShapeAcyclic(a[..], ns);
      PaintUp(a, e0, e1, s1, -1);
    }
    r := Ok(innerHr);
  }

  method SprProposal(a: array<NodeState>, count: nat, innerHr: real, spr: Option<SprNodes>) returns (r: Result<real>)
    requires Acyclic(a[..]) && (spr.Some? ==> SprInRange(spr.value, a.Length))
    modifies a
    ensures var o := SprCase(old(a[..]), count, spr);
      a[..] == o.nodes && (r.Err? <==> o.failure.Some?) && (r.Ok? ==> r.value == innerHr)
  {
    if count != 4 && count != 5 {
      return Err(Unexpected);
    }
    if spr.None? {
      return Err(Unexpected);
    }
    var s := spr.value;
    var t := s.transplanted;
    if s.transplantedChild == -1 {
      return Err("NullPointerException");
    }
    if a[s.transplantedChild].element != a[t].element {
      if s.newSibling == -1 {
        return Err("NullPointerException");
      }
      a[t] := a[t].(element := a[s.newSibling].element);
    } else {
      ghost var ns := a[..];
      PaintUp(a, a[t].element, a[s.oldSibling].element, s.oldSibling, t);
      if s.newSibling == -1 {
        return Err("NullPointerException");
      }
      PaintUpAt(ns, ns[t].element, ns[s.oldSibling].element, s.oldSibling, t);
      UpSameShapeAcyclic(a[..], ns);
      PaintUp(a, a[s.newSibling].element, a[t].element, t, -1);
    }
    r := Ok(innerHr);
  }

  lemma UpSameShapeAcyclic(a: seq<NodeState>, b: seq<NodeState>)
    requires SameShape(a, b) && Acyclic(b)
    ensures Acyclic(a)
  {
    forall x | 0 <= x < |a| ensures -1 <= a[x].parent < |a| && Up(a, x, |a|) == -1 {
      assert b[x].parent == a[x].parent;
      UpSameShape(a, b, x, |a|);
    }
  }

  /** The loop over the nodes collecting the filthy ones. */
  method CollectChanged(filthy: seq<bool>) returns (out: seq<int>)
    ensures out == Changed(filthy, |filthy|)
  {
    out := [];
    for x := 0 to |filthy|
      invariant out == Changed(filthy, x)
    {
      if filthy[x] {
        out := out + [x];
      }
    }
  }
}
