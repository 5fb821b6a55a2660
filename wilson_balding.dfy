/**
 * TransmissionWilsonBaldingA: the Wilson-Balding move for trees with
 * partition rules of the third type.  An eligible node i is drawn; its
 * parent iP is to be cut out and re-inserted above a destination j, drawn
 * among the nodes of iP's element and the children of those nodes, until
 * the edge above j reaches above i.  Here: the destinations, the redraw
 * loop, the rejections and the new height of iP.
 */
module TransmissionWilsonBaldingA {
  import opened TreeCore
  import opened PartitionedTrees
  import opened TreeEdits

  /** A possible destination for iP's element: a node of the element, or a
    * child of one. */
  predicate Destination(ns: seq<NodeState>, iP: int, x: int)
    requires ParentsInRange(ns) && 0 <= iP < |ns|
  {
    0 <= x < |ns| &&
    (ns[x].element == ns[iP].element || (ns[x].parent != -1 && ns[ns[x].parent].element == ns[iP].element))
  }

  /** x is in a node of done or is a child of one. */
  ghost predicate Covered(ns: seq<NodeState>, done: set<int>, x: int)
    requires ParentsInRange(ns)
  {
    x in done || (0 <= x < |ns| && ns[x].parent != -1 && ns[x].parent in done)
  }

  /** HashSet.add on the array of destinations. */
  function Add(pd: seq<int>, x: int): (r: seq<int>)
    ensures forall y :: y in r <==> y in pd || y == x
    ensures Distinct(pd) ==> Distinct(r)
  {
    if x in pd then pd else pd + [x]
  }

  /**
   * The possible destinations: every node of iP's element, and both
   * children of each such node that is not a tip, without repeats.  The
   * element's nodes are visited in an order left open.
   */
  method PossibleDestinations(tree: PartitionedTree, iP: int) returns (pd: seq<int>)
    requires tree.Valid() && 0 <= iP < tree.nodes.Length
    ensures Distinct(pd) && iP in pd
    ensures forall x :: x in pd <==> Destination(tree.nodes[..], iP, x)
  {
    var nodesInSameElement := tree.GetNodesInSameElement(iP);
    pd := CollectDestinations(tree.nodes[..], iP, nodesInSameElement);
  }

  /** The loop of PossibleDestinations over the nodes of the element. */
  method CollectDestinations(ns: seq<NodeState>, iP: int, nodesInSameElement: set<int>) returns (pd: seq<int>)
    requires Linked(ns) && 0 <= iP < |ns|
    requires nodesInSameElement == NodesWith(ns, ns[iP].element, false)
    ensures Distinct(pd) && iP in pd
    ensures forall x :: x in pd <==> Destination(ns, iP, x)
  {
    pd := [];
    var rest := nodesInSameElement;
    ghost var done: set<int> := {};
    while rest != {}
      invariant rest + done == nodesInSameElement && rest !! done
      invariant Distinct(pd)
      invariant forall x :: x in pd <==> Covered(ns, done, x)
      decreases |rest|
    {
      var node :| node in rest;
      var added := AddNode(ns, pd, node);
      CoveredStep(ns, done, node, pd, added);
      pd := added;
      rest, done := rest - {node}, done + {node};
    }
    forall x ensures x in pd <==> Destination(ns, iP, x) {
      if Destination(ns, iP, x) && ns[x].element != ns[iP].element {
        assert ns[x].parent in nodesInSameElement;
      }
    }
  }

  /** The body of the loop: add the node, then its children if it has any. */
  method AddNode(ns: seq<NodeState>, pd: seq<int>, node: int) returns (added: seq<int>)
    requires Linked(ns) && 0 <= node < |ns|
    ensures Distinct(pd) ==> Distinct(added)
    ensures forall x :: x in added <==> x in pd || x == node || x in ns[node].children
  {
    added := Add(pd, node);
    if !IsLeaf(ns[node]) {
      assert Binary(ns[node]);
      added := Add(added, ns[node].children[0]);
      added := Add(added, ns[node].children[1]);
    }
  }

  /** Adding a node and its children covers one node more. */
  lemma CoveredStep(ns: seq<NodeState>, done: set<int>, node: int, pd: seq<int>, added: seq<int>)
    requires Linked(ns) && 0 <= node < |ns|
    requires forall x :: x in pd <==> Covered(ns, done, x)
    requires forall x :: x in added <==> x in pd || x == node || x in ns[node].children
    ensures forall x :: x in added <==> Covered(ns, done + {node}, x)
  {
    forall x ensures x in added <==> Covered(ns, done + {node}, x) {
      if 0 <= x < |ns| && ns[x].parent == node {
        assert x in ns[node].children;
      }
      if x in ns[node].children {
        assert 0 <= x < |ns| && ns[x].parent == node;
      }
    }
  }

  /** The redraw loop stops at j when j is not i and the edge above j, if
    * any, reaches strictly above i. */
  predicate Acceptable(ns: seq<NodeState>, i: int, j: int)
    requires ParentsInRange(ns) && 0 <= i < |ns| && 0 <= j < |ns|
  {
    j != i && (ns[j].parent == -1 || ns[ns[j].parent].height > ns[i].height)
  }

  /** The destination the draws settle on: the first drawn entry of pd
    * that is acceptable; None when no draw is. */
  function FirstAcceptable(ns: seq<NodeState>, i: int, pd: seq<int>, draws: seq<nat>): Option<int>
    requires ParentsInRange(ns) && 0 <= i < |ns| && |pd| > 0
    requires forall k :: 0 <= k < |pd| ==> 0 <= pd[k] < |ns|
  {
    if |draws| == 0 then None
    else if Acceptable(ns, i, pd[draws[0] % |pd|]) then Some(pd[draws[0] % |pd|])
    else FirstAcceptable(ns, i, pd, draws[1..])
  }

  /** FirstAcceptable finds j exactly when the k-th draw gives j, it is
    * acceptable and no earlier draw is. */
  lemma {:induction false} FirstAcceptableMeans(ns: seq<NodeState>, i: int, pd: seq<int>, draws: seq<nat>, j: int)
    requires ParentsInRange(ns) && 0 <= i < |ns| && |pd| > 0
    requires forall k :: 0 <= k < |pd| ==> 0 <= pd[k] < |ns|
    ensures FirstAcceptable(ns, i, pd, draws) == Some(j) <==>
      exists k :: 0 <= k < |draws| && pd[draws[k] % |pd|] == j && Acceptable(ns, i, j) &&
        forall t :: 0 <= t < k ==> !Acceptable(ns, i, pd[draws[t] % |pd|])
  {
    if |draws| > 0 {
      var j0 := pd[draws[0] % |pd|];
      FirstAcceptableMeans(ns, i, pd, draws[1..], j);
      if FirstAcceptable(ns, i, pd, draws) == Some(j) {
        if Acceptable(ns, i, j0) {
          assert pd[draws[0] % |pd|] == j;
        } else {
          var k :| 0 <= k < |draws[1..]| && pd[draws[1..][k] % |pd|] == j && Acceptable(ns, i, j) &&
            forall t :: 0 <= t < k ==> !Acceptable(ns, i, pd[draws[1..][t] % |pd|]);
          forall t | 0 <= t < k + 1 ensures !Acceptable(ns, i, pd[draws[t] % |pd|]) {
            if t > 0 {
              assert draws[t] == draws[1..][t - 1];
            }
          }
          assert pd[draws[k + 1] % |pd|] == j;
        }
      }
      if exists k :: 0 <= k < |draws| && pd[draws[k] % |pd|] == j && Acceptable(ns, i, j) &&
                     forall t :: 0 <= t < k ==> !Acceptable(ns, i, pd[draws[t] % |pd|]) {
        var k :| 0 <= k < |draws| && pd[draws[k] % |pd|] == j && Acceptable(ns, i, j) &&
          forall t :: 0 <= t < k ==> !Acceptable(ns, i, pd[draws[t] % |pd|]);
        if k > 0 {
          assert !Acceptable(ns, i, j0);
          forall t | 0 <= t < k - 1 ensures !Acceptable(ns, i, pd[draws[1..][t] % |pd|]) {
            assert draws[1..][t] == draws[t + 1];
          }
          assert draws[1..][k - 1] == draws[k];
        }
      }
    }
  }

  /** The draws settle on nothing exactly when no draw is acceptable (where
    * the source would go on drawing). */
  lemma {:induction false} FirstAcceptableNone(ns: seq<NodeState>, i: int, pd: seq<int>, draws: seq<nat>)
    requires ParentsInRange(ns) && 0 <= i < |ns| && |pd| > 0
    requires forall k :: 0 <= k < |pd| ==> 0 <= pd[k] < |ns|
    ensures FirstAcceptable(ns, i, pd, draws).None? <==>
      forall k :: 0 <= k < |draws| ==> !Acceptable(ns, i, pd[draws[k] % |pd|])
  {
    if |draws| > 0 {
      FirstAcceptableNone(ns, i, pd, draws[1..]);
      forall k | 1 <= k < |draws| ensures draws[k] == draws[1..][k - 1] {
      }
    }
  }

  /** The redraw loop: draw j, and draw again while it is not acceptable. */
  method DrawDestination(ns: seq<NodeState>, i: int, pd: seq<int>, draws: seq<nat>) returns (j: Option<int>)
    requires ParentsInRange(ns) && 0 <= i < |ns| && |pd| > 0
    requires forall k :: 0 <= k < |pd| ==> 0 <= pd[k] < |ns|
    ensures j == FirstAcceptable(ns, i, pd, draws)
  {
    if |draws| == 0 {
      return None;
    }
    var k := 0;
    var candidate := pd[draws[0] % |pd|];
    while !Acceptable(ns, i, candidate)
      invariant 0 <= k < |draws| && candidate == pd[draws[k] % |pd|]
      invariant FirstAcceptable(ns, i, pd, draws) == FirstAcceptable(ns, i, pd, draws[k..])
      decreases |draws| - k
    {
      assert draws[k..][1..] == draws[k + 1..];
      k := k + 1;
      if k == |draws| {
        return None;
      }
      candidate := pd[draws[k] % |pd|];
    }
    return Some(candidate);
  }

  /** What the proposal does once j is drawn: refuse, or cut iP out and
    * re-insert it above j at the new height. */
  datatype Move = Refused | Regraft(newAge: real)

  /** The rejections of proposal and the new height of iP, drawn uniformly
    * (u in [0, 1)) between the higher of i and j and j's parent. */
  function MoveOf(ns: seq<NodeState>, root: int, i: int, j: int, u: real): (m: Move)
    requires ParentsInRange(ns) && 0 <= i < |ns| && 0 <= j < |ns| && ns[i].parent != -1
    ensures m.Regraft? ==> ns[i].parent != root && j != root
  {
    var iP, jP := ns[i].parent, ns[j].parent;
    if iP == root || j == root || jP == -1 then Refused
    else if jP == iP || j == iP || jP == i then Refused
    else
      var newMinAge := if ns[i].height >= ns[j].height then ns[i].height else ns[j].height;
      Regraft(newMinAge + u * (ns[jP].height - newMinAge))
  }

  /** Along the parent chain heights never decrease. */
  lemma {:induction false} UpNotLower(ns: seq<NodeState>, x: int, k: nat)
    requires ParentsInRange(ns) && HeightsOrdered(ns) && 0 <= x < |ns| && Up(ns, x, k) != -1
    ensures 0 <= Up(ns, x, k) < |ns| && ns[x].height <= ns[Up(ns, x, k)].height
  {
    if k > 0 {
      UpAdd(ns, x, k - 1, 1);
      UpNotLower(ns, x, k - 1);
    }
  }

  /** A node strictly higher than i is not in the subtree of i. */
  lemma HigherNotBelow(ns: seq<NodeState>, i: int, x: int)
    requires ParentsInRange(ns) && HeightsOrdered(ns) && 0 <= i < |ns| && 0 <= x < |ns|
    requires ns[x].height > ns[i].height
    ensures forall k: nat :: Up(ns, x, k) != i
  {
    forall k: nat ensures Up(ns, x, k) != i {
      if Up(ns, x, k) == i {
        UpNotLower(ns, x, k);
      }
    }
  }

  /** A point drawn a fraction u of the way from lo to hi lies between them. */
  lemma FractionOfRange(lo: real, hi: real, u: real)
    requires 0.0 <= u <= 1.0 && lo <= hi
    ensures 0.0 <= u * (hi - lo) <= hi - lo
  {
    ProductNonNegative(u, hi - lo);
    ProductNonNegative(1.0 - u, hi - lo);
    assert (1.0 - u) * (hi - lo) == (hi - lo) - u * (hi - lo);
  }

  lemma ProductNonNegative(a: real, b: real)
    requires 0.0 <= a && 0.0 <= b
    ensures 0.0 <= a * b
  {
  }

  /**
   * An accepted regraft never moves i's subtree into itself: neither j nor
   * j's parent lies in the subtree of i, and the new height of iP fits
   * between its new children i and j and its new parent.
   */
  lemma RegraftFits(ns: seq<NodeState>, root: int, i: int, j: int, u: real)
    requires Tree(ns, root) && HeightsOrdered(ns)
    requires 0 <= i < |ns| && 0 <= j < |ns| && ns[i].parent != -1 && Acceptable(ns, i, j)
    requires 0.0 <= u <= 1.0
    requires MoveOf(ns, root, i, j, u).Regraft?
    ensures forall k: nat :: Up(ns, j, k) != i
    ensures ns[j].parent != -1 && forall k: nat :: Up(ns, ns[j].parent, k) != i
    ensures var newAge := MoveOf(ns, root, i, j, u).newAge;
      ns[i].height <= newAge && ns[j].height <= newAge && newAge <= ns[ns[j].parent].height
  {
    var jP := ns[j].parent;
    HigherNotBelow(ns, i, jP);
    forall k: nat ensures Up(ns, j, k) != i {
      if k > 0 {
        UpAdd(ns, j, 1, k - 1);
        assert Up(ns, j, k) == Up(ns, jP, k - 1);
      }
    }
    assert ns[j].height <= ns[jP].height;
    RegraftAge(ns, root, i, j, u);
  }

  /** The new height of iP lies between the higher of i and j and j's
    * parent, when both are no higher than that parent. */
  lemma RegraftAge(ns: seq<NodeState>, root: int, i: int, j: int, u: real)
    requires ParentsInRange(ns) && 0 <= i < |ns| && 0 <= j < |ns| && ns[i].parent != -1
    requires 0.0 <= u <= 1.0
    requires MoveOf(ns, root, i, j, u).Regraft?
    requires ns[j].parent != -1 && ns[i].height <= ns[ns[j].parent].height && ns[j].height <= ns[ns[j].parent].height
    ensures var newAge := MoveOf(ns, root, i, j, u).newAge;
      ns[i].height <= newAge && ns[j].height <= newAge && newAge <= ns[ns[j].parent].height
  {
    var newMinAge := if ns[i].height >= ns[j].height then ns[i].height else ns[j].height;
    var hi := ns[ns[j].parent].height;
    var newAge := MoveOf(ns, root, i, j, u).newAge;
    FractionOfRange(newMinAge, hi, u);
    assert newAge == newMinAge + u * (hi - newMinAge);
    assert ns[i].height <= newMinAge && ns[j].height <= newMinAge;
  }

  /**
   * The first half of proposal: draw i among the eligible nodes, collect
   * the destinations for iP's element, draw j until it is acceptable and
   * decide the move.  An empty eligible list makes the first draw throw.
   */
  method Propose(tree: PartitionedTree, iDraw: nat, draws: seq<nat>, u: real)
    returns (i: int, j: int, r: Result<Move>)
    requires tree.Valid()
    ensures r == Err("no eligible node") ==>
      forall x :: 0 <= x < tree.nodes.Length ==> !Eligible(tree.nodes[..], x)
    ensures r != Err("no eligible node") ==> 0 <= i < tree.nodes.Length && Eligible(tree.nodes[..], i)
    ensures r.Ok? ==> (Destination(tree.nodes[..], tree.nodes[i].parent, j) && Acceptable(tree.nodes[..], i, j) &&
      r.value == MoveOf(tree.nodes[..], tree.root, i, j, u))
    ensures (0 <= i < tree.nodes.Length && Eligible(tree.nodes[..], i) &&
      forall x :: Destination(tree.nodes[..], tree.nodes[i].parent, x) ==> !Acceptable(tree.nodes[..], i, x)) ==>
      r.Err?
  {
    var eligibleNodes := GetEligibleNodes(tree.nodes);
    if |eligibleNodes| == 0 {
      forall x | 0 <= x < tree.nodes.Length ensures !Eligible(tree.nodes[..], x) {
        assert x !in eligibleNodes;
      }
      return -1, -1, Err("no eligible node");
    }
    i := eligibleNodes[iDraw % |eligibleNodes|];
    assert i in eligibleNodes;
    var ns := tree.nodes[..];
    assert 0 <= i < |ns| && Eligible(ns, i);
    var iP := ns[i].parent;
    var pd := PossibleDestinations(tree, iP);
    assert |pd| > 0 by { assert iP in pd; }
    assert forall k :: 0 <= k < |pd| ==> pd[k] in pd && Destination(ns, iP, pd[k]);
    var drawn := DrawDestination(ns, i, pd, draws);
    if drawn.None? {
      return i, -1, Err("no acceptable destination among the draws");
    }
    j := drawn.value;
    FirstAcceptableMeans(ns, i, pd, draws, j);
    r := Ok(MoveOf(ns, tree.root, i, j, u));
  }
}
