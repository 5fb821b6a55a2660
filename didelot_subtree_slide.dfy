/**
 * DidelotSubtreeSlideA: the subtree slide restricted so that the
 * transmission tree does not change.  The node i to move is drawn among
 * the eligible nodes (those whose parent can be taken out without changing
 * the transmission tree); its parent iP then slides up or down by a drawn
 * amount.  Here: which nodes are eligible, the search for the new place of
 * iP on the way down, the edges intersecting the new height on the way up
 * (only those hanging from iP's element), and when the move is refused.
 */
module DidelotSubtreeSlideA {
  import opened TreeCore
  import opened PartitionedTrees
  import opened TreeEdits

  // -------------------------------------------------------------------
  // intersectingEdges

  /** The edge above z has its upper end, z's parent, at or above the
    * height and inside the element. */
  predicate UpperEndInside(ns: seq<NodeState>, z: int, height: real, elementNo: int)
    requires ParentsInRange(ns)
  {
    0 <= z < |ns| && ns[z].parent != -1 &&
    ns[ns[z].parent].height >= height && ns[ns[z].parent].element == elementNo
  }

  /** intersectingEdges(x, height, elementNo) as the list of nodes it
    * appends: nothing when the edge above x does not reach the height or
    * hangs from another element; x itself when x is below the height;
    * otherwise the lists of its children, in child order.  d counts
    * ancestors of x, so that the recursion ends in an acyclic tree. */
  function Edges(ns: seq<NodeState>, x: int, height: real, elementNo: int, ghost d: nat): (es: seq<int>)
    requires Linked(ns) && Acyclic(ns) && 0 <= x < |ns| && ns[x].parent != -1 && Up(ns, x, d) != -1
    decreases |ns| - d
  {
    if !UpperEndInside(ns, x, height, elementNo) then []
    else if ns[x].height < height then [x]
    else if IsLeaf(ns[x]) then []
    else
      assert Binary(ns[x]);
      var c0, c1 := ns[x].children[0], ns[x].children[1];
      ChildDeeper(ns, x, c0, d);
      ChildDeeper(ns, x, c1, d);
      Edges(ns, c0, height, elementNo, d + 1) + Edges(ns, c1, height, elementNo, d + 1)
  }

  /** A child has one ancestor more than its parent, and the count stays
    * below the number of nodes. */
  lemma ChildDeeper(ns: seq<NodeState>, x: int, c: int, d: nat)
    requires Linked(ns) && Acyclic(ns) && 0 <= x < |ns| && c in ns[x].children && Up(ns, x, d) != -1
    ensures 0 <= c < |ns| && ns[c].parent == x && Up(ns, c, d + 1) != -1 && d < |ns|
  {
    UpAdd(ns, c, 1, d);
    UpDefinedBelow(ns, x, d);
  }

  /** The edge above y crosses the height and is reached from x: y lies k
    * steps below x, every edge on the way from x down to y hangs from the
    * element and reaches the height, every node on the way above y is at or
    * above the height, and y is below it. */
  ghost predicate Crossing(ns: seq<NodeState>, x: int, y: int, k: nat, height: real, elementNo: int)
    requires ParentsInRange(ns)
  {
    Up(ns, y, k) == x && 0 <= y < |ns| && ns[y].height < height &&
    (forall t: nat :: t <= k ==> UpperEndInside(ns, Up(ns, y, t), height, elementNo)) &&
    (forall t: nat :: 1 <= t <= k ==> ns[Up(ns, y, t)].height >= height)
  }

  /** Every appended node is below the height and reached from x along
    * edges that hang from the element and reach the height. */
  lemma {:induction false} EdgesSound(ns: seq<NodeState>, x: int, height: real, elementNo: int, d: nat, y: int)
    requires Linked(ns) && Acyclic(ns) && 0 <= x < |ns| && ns[x].parent != -1 && Up(ns, x, d) != -1
    requires y in Edges(ns, x, height, elementNo, d)
    ensures exists k: nat :: Crossing(ns, x, y, k, height, elementNo)
    decreases |ns| - d
  {
    if ns[x].height < height {
      assert Up(ns, y, 0) == x;
      assert Crossing(ns, x, y, 0, height, elementNo);
    } else {
      assert Binary(ns[x]);
      var c0, c1 := ns[x].children[0], ns[x].children[1];
      ChildDeeper(ns, x, c0, d);
      ChildDeeper(ns, x, c1, d);
      var c := if y in Edges(ns, c0, height, elementNo, d + 1) then c0 else c1;
      EdgesSound(ns, c, height, elementNo, d + 1, y);
      var k: nat :| Crossing(ns, c, y, k, height, elementNo);
      UpAdd(ns, y, k, 1);
      assert Up(ns, y, k + 1) == x;
      forall t: nat | t <= k + 1 ensures UpperEndInside(ns, Up(ns, y, t), height, elementNo) {
      }
      forall t: nat | 1 <= t <= k + 1 ensures ns[Up(ns, y, t)].height >= height {
      }
      assert Crossing(ns, x, y, k + 1, height, elementNo);
    }
  }

  /** Every crossing reached from x is appended. */
  lemma {:induction false} EdgesComplete(ns: seq<NodeState>, x: int, height: real, elementNo: int, d: nat, y: int, k: nat)
    requires Linked(ns) && Acyclic(ns) && 0 <= x < |ns| && ns[x].parent != -1 && Up(ns, x, d) != -1
    requires Crossing(ns, x, y, k, height, elementNo)
    ensures y in Edges(ns, x, height, elementNo, d)
    decreases k
  {
    assert UpperEndInside(ns, Up(ns, y, k), height, elementNo);
    if k == 0 {
    } else {
      var c := Up(ns, y, k - 1);
      UpAdd(ns, y, k - 1, 1);
      assert UpperEndInside(ns, c, height, elementNo);
      assert ns[c].parent == x;
      assert ns[Up(ns, y, k)].height >= height;
      assert c in ns[x].children;
      assert Binary(ns[x]);
      ChildDeeper(ns, x, c, d);
      forall t: nat | t <= k - 1 ensures UpperEndInside(ns, Up(ns, y, t), height, elementNo) {
      }
      forall t: nat | 1 <= t <= k - 1 ensures ns[Up(ns, y, t)].height >= height {
      }
      assert Crossing(ns, c, y, k - 1, height, elementNo);
      EdgesComplete(ns, c, height, elementNo, d + 1, y, k - 1);
    }
  }

  /**
   * intersectingEdges(x, height, elementNo, directChildren): the count of
   * crossing edges, with the lower ends appended to the list when one is
   * given (collect), as the recursion of the source does.
   */
  method IntersectingEdges(ns: seq<NodeState>, x: int, height: real, elementNo: int,
                           collect: bool, directChildren: seq<int>, ghost d: nat)
    returns (count: nat, out: seq<int>)
    requires Linked(ns) && Acyclic(ns) && 0 <= x < |ns| && ns[x].parent != -1 && Up(ns, x, d) != -1
    ensures count == |Edges(ns, x, height, elementNo, d)|
    ensures out == directChildren + (if collect then Edges(ns, x, height, elementNo, d) else [])
    decreases |ns| - d, 1
  {
    var parent := ns[x].parent;
    if ns[parent].height < height || ns[parent].element != elementNo {
      return 0, directChildren;
    }
    if ns[x].height < height {
      out := if collect then directChildren + [x] else directChildren;
      return 1, out;
    }
    count, out := ChildrenIntersectingEdges(ns, x, height, elementNo, collect, directChildren, d);
    ChildrenEdges(ns, x, height, elementNo, d);
  }

  /** The loop of intersectingEdges over the children of x. */
  method ChildrenIntersectingEdges(ns: seq<NodeState>, x: int, height: real, elementNo: int,
                                   collect: bool, directChildren: seq<int>, ghost d: nat)
    returns (count: nat, out: seq<int>)
    requires Linked(ns) && Acyclic(ns) && 0 <= x < |ns| && Up(ns, x, d) != -1
    ensures count == |FirstChildrenEdges(ns, x, height, elementNo, d, |ns[x].children|)|
    ensures out == directChildren +
      (if collect then FirstChildrenEdges(ns, x, height, elementNo, d, |ns[x].children|) else [])
    decreases |ns| - d, 0
  {
    count, out := 0, directChildren;
    for i := 0 to |ns[x].children|
      invariant out == directChildren + (if collect then FirstChildrenEdges(ns, x, height, elementNo, d, i) else [])
      invariant count == |FirstChildrenEdges(ns, x, height, elementNo, d, i)|
    {
      var c := ns[x].children[i];
      ChildDeeper(ns, x, c, d);
      var n: nat;
      n, out := IntersectingEdges(ns, c, height, elementNo, collect, out, d + 1);
      count := count + n;
      assert FirstChildrenEdges(ns, x, height, elementNo, d, i + 1) ==
        FirstChildrenEdges(ns, x, height, elementNo, d, i) + Edges(ns, c, height, elementNo, d + 1);
    }
  }

  /** The lists of the first n children of x, concatenated. */
  ghost function FirstChildrenEdges(ns: seq<NodeState>, x: int, height: real, elementNo: int, d: nat, n: nat): seq<int>
    requires Linked(ns) && Acyclic(ns) && 0 <= x < |ns| && Up(ns, x, d) != -1 && n <= |ns[x].children|
  {
    if n == 0 then []
    else
      ChildDeeper(ns, x, ns[x].children[n - 1], d);
      FirstChildrenEdges(ns, x, height, elementNo, d, n - 1) + Edges(ns, ns[x].children[n - 1], height, elementNo, d + 1)
  }

  /** Above the height and inside the element, the list of x is that of
    * all its children. */
  lemma ChildrenEdges(ns: seq<NodeState>, x: int, height: real, elementNo: int, d: nat)
    requires Linked(ns) && Acyclic(ns) && 0 <= x < |ns| && ns[x].parent != -1 && Up(ns, x, d) != -1
    requires UpperEndInside(ns, x, height, elementNo) && ns[x].height >= height
    ensures Edges(ns, x, height, elementNo, d) == FirstChildrenEdges(ns, x, height, elementNo, d, |ns[x].children|)
  {
    assert Binary(ns[x]);
    if !IsLeaf(ns[x]) {
      assert FirstChildrenEdges(ns, x, height, elementNo, d, 1) == Edges(ns, ns[x].children[0], height, elementNo, d + 1);
    }
  }

  // -------------------------------------------------------------------
  // The search on the way down

  /** How many steps the downward slide climbs from x: while the next
    * ancestor is below the height. */
  function Climb(ns: seq<NodeState>, x: int, height: real, fuel: nat): (k: nat)
    requires ParentsInRange(ns) && 0 <= x < |ns|
    ensures k <= fuel
    decreases fuel
  {
    var p := ns[x].parent;
    if fuel == 0 || p == -1 || ns[p].height >= height then 0
    else 1 + Climb(ns, p, height, fuel - 1)
  }

  /** The climb passes only nodes below the height and stops, unless the
    * fuel runs out first, below the root or below a node at or above the
    * height. */
  lemma {:induction false} ClimbStops(ns: seq<NodeState>, x: int, height: real, fuel: nat)
    requires ParentsInRange(ns) && 0 <= x < |ns|
    ensures var k := Climb(ns, x, height, fuel);
      (forall t: nat :: 1 <= t <= k ==> 0 <= Up(ns, x, t) < |ns| && ns[Up(ns, x, t)].height < height) &&
      0 <= Up(ns, x, k) < |ns| &&
      (k < fuel ==> ns[Up(ns, x, k)].parent == -1 || ns[ns[Up(ns, x, k)].parent].height >= height)
    decreases fuel
  {
    var p := ns[x].parent;
    if fuel > 0 && p != -1 && ns[p].height < height {
      ClimbStops(ns, p, height, fuel - 1);
      var k := Climb(ns, x, height, fuel);
      forall t: nat | 1 <= t <= k ensures 0 <= Up(ns, x, t) < |ns| && ns[Up(ns, x, t)].height < height {
        UpAdd(ns, x, 1, t - 1);
      }
      UpAdd(ns, x, 1, k - 1);
    }
  }

  /** In a tree the fuel of |ns| steps never runs out. */
  lemma ClimbEnds(ns: seq<NodeState>, x: int, height: real)
    requires Acyclic(ns) && 0 <= x < |ns|
    ensures var k := Climb(ns, x, height, |ns|);
      k < |ns| && 0 <= Up(ns, x, k) < |ns| &&
      (ns[Up(ns, x, k)].parent == -1 || ns[ns[Up(ns, x, k)].parent].height >= height)
  {
    ClimbStops(ns, x, height, |ns|);
    UpDefinedBelow(ns, x, Climb(ns, x, height, |ns|));
  }

  /** The loop that finds iP's new child on the way down: from iP, move up
    * while the next ancestor is below the new height, stopping at the
    * root. */
  method FindNewChild(ns: seq<NodeState>, iP: int, newHeight: real) returns (newChild: int, newParent: int)
    requires Acyclic(ns) && 0 <= iP < |ns|
    requires ns[iP].parent != -1 && ns[ns[iP].parent].height < newHeight
    ensures newChild == Up(ns, iP, Climb(ns, iP, newHeight, |ns|)) && 0 <= newChild < |ns|
    ensures newParent == ns[newChild].parent
  {
    newParent, newChild := ns[iP].parent, iP;
    ghost var k: nat := 0;
    while true
      invariant 0 <= newChild < |ns| && newChild == Up(ns, iP, k) && newParent == ns[newChild].parent
      invariant newParent != -1 && k < |ns|
      invariant Climb(ns, iP, newHeight, |ns|) == k + Climb(ns, newChild, newHeight, |ns| - k)
      decreases |ns| - k
    {
      if ns[newParent].height >= newHeight {
        break;
      }
      UpAdd(ns, iP, k, 1);
      newChild := newParent;
      newParent := ns[newParent].parent;
      k := k + 1;
      UpDefinedBelow(ns, iP, k);
      if newParent == -1 {
        break;
      }
    }
  }

  // -------------------------------------------------------------------
  // The proposal

  /** What the proposal does with iP: refuse the move, only change its
    * height, slide it down above newChild (under newParent, -1 for a new
    * root), or slide it up onto one of the destination edges. */
  datatype Slide =
    | Refused
    | Reheight(newHeight: real)
    | SlideDown(newChild: int, newParent: int, newHeight: real)
    | SlideUp(destinations: seq<int>, newHeight: real)

  /** The decision of proposal for node i and slide amount delta. */
  function SlideOf(ns: seq<NodeState>, i: int, delta: real): Slide
    requires Linked(ns) && Acyclic(ns) && 0 <= i < |ns| && Eligible(ns, i)
  {
    var iP := ns[i].parent;
    assert i in ns[iP].children && Binary(ns[iP]);
    var CiP := OtherChild(ns, iP, i);
    var PiP := ns[iP].parent;
    var newHeight := ns[iP].height + delta;
    if delta > 0.0 then
      if PiP != -1 && ns[PiP].height < newHeight then SlideDownOf(ns, iP, newHeight)
      else Reheight(newHeight)
    else if ns[i].height > newHeight then Refused
    else if ns[CiP].height > newHeight then SlideUpOf(ns, iP, CiP, newHeight)
    else Reheight(newHeight)
  }

  /** The decision on the way down: iP goes above the node the climb ends
    * at, unless that node lies in another element. */
  function SlideDownOf(ns: seq<NodeState>, iP: int, newHeight: real): (s: Slide)
    requires Acyclic(ns) && 0 <= iP < |ns|
    ensures s.Refused? || (s.SlideDown? && s.newHeight == newHeight)
  {
    ClimbEnds(ns, iP, newHeight);
    var newChild := Up(ns, iP, Climb(ns, iP, newHeight, |ns|));
    if ns[newChild].element != ns[iP].element then Refused
    else SlideDown(newChild, ns[newChild].parent, newHeight)
  }

  /** The decision on the way up: the edges below iP's sibling CiP that
    * cross the new height inside iP's element, refused when there are none. */
  function SlideUpOf(ns: seq<NodeState>, iP: int, CiP: int, newHeight: real): (s: Slide)
    requires Linked(ns) && Acyclic(ns) && 0 <= iP < |ns| && 0 <= CiP < |ns| && ns[CiP].parent != -1
    ensures s.Refused? || (s.SlideUp? && s.newHeight == newHeight)
  {
    assert Up(ns, CiP, 0) != -1;
    var es := Edges(ns, CiP, newHeight, ns[iP].element, 0);
    if |es| == 0 then Refused else SlideUp(es, newHeight)
  }

  /**
   * A slide down lands iP above an ancestor newChild of iP: every node
   * climbed past, newChild included, is below the new height.
   */
  lemma SlideDownLands(ns: seq<NodeState>, i: int, delta: real)
    requires Linked(ns) && Acyclic(ns) && 0 <= i < |ns| && Eligible(ns, i)
    requires SlideOf(ns, i, delta).SlideDown?
    ensures var s := SlideOf(ns, i, delta);
      var iP := ns[i].parent;
      exists k: nat :: 1 <= k < |ns| && Up(ns, iP, k) == s.newChild &&
        (forall t: nat :: 1 <= t <= k ==> 0 <= Up(ns, iP, t) < |ns| && ns[Up(ns, iP, t)].height < s.newHeight)
  {
    var iP := ns[i].parent;
    var newHeight := ns[iP].height + delta;
    var s := SlideOf(ns, i, delta);
    assert s == SlideDownOf(ns, iP, newHeight);
    ClimbLands(ns, iP, newHeight);
    var k := Climb(ns, iP, newHeight, |ns|);
    assert 1 <= k < |ns| && Up(ns, iP, k) == s.newChild;
  }

  /**
   * The node a slide down lands above lies in iP's own element, and its
   * parent, when there is one, is at or above the new height.
   */
  lemma SlideDownTarget(ns: seq<NodeState>, i: int, delta: real)
    requires Linked(ns) && Acyclic(ns) && 0 <= i < |ns| && Eligible(ns, i)
    requires SlideOf(ns, i, delta).SlideDown?
    ensures var s := SlideOf(ns, i, delta);
      0 <= s.newChild < |ns| && s.newParent == ns[s.newChild].parent &&
      ns[s.newChild].element == ns[ns[i].parent].element && s.newHeight == ns[ns[i].parent].height + delta && delta > 0.0 &&
      (s.newParent == -1 || ns[s.newParent].height >= s.newHeight)
  {
    var iP := ns[i].parent;
    var newHeight := ns[iP].height + delta;
    assert SlideOf(ns, i, delta) == SlideDownOf(ns, iP, newHeight);
    ClimbEnds(ns, iP, newHeight);
  }

  /** Starting below a parent that is below the height, the climb takes at
    * least one step and ends within the tree. */
  lemma ClimbLands(ns: seq<NodeState>, x: int, height: real)
    requires Acyclic(ns) && 0 <= x < |ns| && ns[x].parent != -1 && ns[ns[x].parent].height < height
    ensures var k := Climb(ns, x, height, |ns|);
      1 <= k < |ns| && 0 <= Up(ns, x, k) < |ns| &&
      (forall t: nat :: 1 <= t <= k ==> 0 <= Up(ns, x, t) < |ns| && ns[Up(ns, x, t)].height < height) &&
      (ns[Up(ns, x, k)].parent == -1 || ns[ns[Up(ns, x, k)].parent].height >= height)
  {
    ClimbEnds(ns, x, height);
    ClimbStops(ns, x, height, |ns|);
  }

  /**
   * A slide up offers as destinations exactly the edges below iP's sibling
   * that cross the new height and hang from iP's element; there is at
   * least one.
   */
  lemma SlideUpDestinations(ns: seq<NodeState>, i: int, delta: real)
    requires Linked(ns) && Acyclic(ns) && 0 <= i < |ns| && Eligible(ns, i)
    requires SlideOf(ns, i, delta).SlideUp?
    ensures var s := SlideOf(ns, i, delta);
      var iP := ns[i].parent;
      assert i in ns[iP].children && Binary(ns[iP]);
      var CiP := OtherChild(ns, iP, i);
      |s.destinations| > 0 && delta <= 0.0 && s.newHeight == ns[iP].height + delta &&
      ns[i].height <= s.newHeight && ns[CiP].height > s.newHeight &&
      forall y :: y in s.destinations <==> exists k: nat :: Crossing(ns, CiP, y, k, s.newHeight, ns[iP].element)
  {
    var iP := ns[i].parent;
    assert i in ns[iP].children && Binary(ns[iP]);
    var CiP := OtherChild(ns, iP, i);
    var s := SlideOf(ns, i, delta);
    forall y ensures y in s.destinations <==> exists k: nat :: Crossing(ns, CiP, y, k, s.newHeight, ns[iP].element) {
      if y in s.destinations {
        EdgesSound(ns, CiP, s.newHeight, ns[iP].element, 0, y);
      }
      if exists k: nat :: Crossing(ns, CiP, y, k, s.newHeight, ns[iP].element) {
        var k: nat :| Crossing(ns, CiP, y, k, s.newHeight, ns[iP].element);
        EdgesComplete(ns, CiP, s.newHeight, ns[iP].element, 0, y, k);
      }
    }
  }

  /**
   * The first half of proposal: draw i among the eligible nodes (an empty
   * list makes the draw throw), then decide the move.
   */
  method Propose(tree: PartitionedTree, iDraw: nat, delta: real) returns (i: int, r: Result<Slide>)
    requires tree.Valid()
    ensures r.Err? <==> forall x :: 0 <= x < tree.nodes.Length ==> !Eligible(tree.nodes[..], x)
    ensures r.Err? ==> r.error == "no eligible node"
    ensures r.Ok? ==> (0 <= i < tree.nodes.Length && Eligible(tree.nodes[..], i) &&
      r.value == SlideOf(tree.nodes[..], i, delta))
  {
    ghost var ns := tree.nodes[..];
    var eligibleNodes := GetEligibleNodes(tree.nodes);
    if |eligibleNodes| == 0 {
      forall x | 0 <= x < |ns| ensures !Eligible(ns, x) {
        assert x !in eligibleNodes;
      }
      return -1, Err("no eligible node");
    }
    i := eligibleNodes[iDraw % |eligibleNodes|];
    assert i in eligibleNodes;
    assert 0 <= i < |ns| && Eligible(ns, i);
    var s := Decide(tree.nodes[..], i, delta);
    r := Ok(s);
    assert Eligible(tree.nodes[..], i);
  }

  /** The decision for the drawn node, running the climb loop on the way
    * down and intersectingEdges on the way up. */
  method Decide(ns: seq<NodeState>, i: int, delta: real) returns (s: Slide)
    requires Linked(ns) && Acyclic(ns) && 0 <= i < |ns| && Eligible(ns, i)
    ensures s == SlideOf(ns, i, delta)
  {
    var iP := ns[i].parent;
    assert i in ns[iP].children && Binary(ns[iP]);
    var CiP := OtherChild(ns, iP, i);
    var PiP := ns[iP].parent;
    var newHeight := ns[iP].height + delta;
    if delta > 0.0 {
      if PiP != -1 && ns[PiP].height < newHeight {
        s := DecideDown(ns, iP, newHeight);
        return;
      }
      return Reheight(newHeight);
    }
    if ns[i].height > newHeight {
      return Refused;
    }
    if ns[CiP].height > newHeight {
      s := DecideUp(ns, iP, CiP, newHeight);
      return;
    }
    return Reheight(newHeight);
  }

  /** The way down: the climb loop, refused when it ends in another element. */
  method DecideDown(ns: seq<NodeState>, iP: int, newHeight: real) returns (s: Slide)
    requires Acyclic(ns) && 0 <= iP < |ns|
    requires ns[iP].parent != -1 && ns[ns[iP].parent].height < newHeight
    ensures s == SlideDownOf(ns, iP, newHeight)
  {
    var newChild, newParent := FindNewChild(ns, iP, newHeight);
    if ns[newChild].element != ns[iP].element {
      return Refused;
    }
    return SlideDown(newChild, newParent, newHeight);
  }

  /** The way up: intersectingEdges below CiP, refused when it finds none. */
  method DecideUp(ns: seq<NodeState>, iP: int, CiP: int, newHeight: real) returns (s: Slide)
    requires Linked(ns) && Acyclic(ns) && 0 <= iP < |ns| && 0 <= CiP < |ns| && ns[CiP].parent != -1
    ensures s == SlideUpOf(ns, iP, CiP, newHeight)
  {
    assert Up(ns, CiP, 0) != -1;
    var possibleDestinations, newChildren := IntersectingEdges(ns, CiP, newHeight, ns[iP].element, true, [], 0);
    if |newChildren| == 0 {
      return Refused;
    }
    return SlideUp(newChildren, newHeight);
  }

}
