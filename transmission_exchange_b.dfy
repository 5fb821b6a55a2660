/**
 * TransmissionExchangeB and ThirdTypeExchangeB: the narrow exchange that
 * moves infections.  The node i that moves starts an infection (its
 * element differs from its parent's), and so must the node j it trades
 * places with; any two such nodes under different parents qualify when the
 * two height guards allow.  The two operators share everything but the
 * rules they accept in initAndValidate.
 */
module TransmissionExchangeB {
  import opened TreeCore
  import opened PartitionedTrees
  import opened TreeEdits

  /** Which of the two operators: TransmissionExchangeB takes any
    * partitioned tree, ThirdTypeExchangeB only one under Didelot's rules. */
  datatype Variant = AnyRules | DidelotOnly

  /** initAndValidate of the two operators. */
  function Init(t: TreeInput, v: Variant): (r: Result<bool>)
    ensures r.Ok? <==> t.Partitioned? && (v == DidelotOnly ==> t.rules == Didelot)
    ensures r.Err? && t.Partitioned? ==> r.error == "This operator is designed for trees with partition rules of the third type"
  {
    CheckTree(t, if v == DidelotOnly then Some(Didelot) else None)
  }

  /** x starts an infection: it has a parent of another element. */
  predicate Infection(ns: seq<NodeState>, x: int): (r: bool)
    requires ParentsInRange(ns) && 0 <= x < |ns|
    ensures r <==> ns[x].parent != -1 && !ParentSameElement(ns, x)
  {
    ns[x].parent != -1 && ns[ns[x].parent].element != ns[x].element
  }

  /** c may trade places with node: c starts an infection under a parent
    * other than node's, c is not node's parent, node is not c's parent, and
    * each of the two would go under a parent higher than itself. */
  predicate Candidate(ns: seq<NodeState>, node: int, c: int)
    requires ParentsInRange(ns) && 0 <= node < |ns| && ns[node].parent != -1
  {
    var p := ns[node].parent;
    0 <= c < |ns| && Infection(ns, c) && ns[c].parent != p &&
    c != p && node != ns[c].parent &&
    ns[c].height < ns[p].height && ns[node].height < ns[ns[c].parent].height
  }

  function CandidateSet(ns: seq<NodeState>, node: int): (s: set<int>)
    requires ParentsInRange(ns) && 0 <= node < |ns| && ns[node].parent != -1
    ensures forall c :: c in s <==> Candidate(ns, node, c)
  {
    set c | 0 <= c < |ns| && Candidate(ns, node, c)
  }

  /**
   * getPossibleExchanges: refused for the root and for a node that does not
   * start an infection; otherwise every candidate, in node-number order.
   * The list is strictly increasing, so the exception the source raises
   * for a repeat or for the node itself can never be thrown.
   */
  method GetPossibleExchanges(tree: PartitionedTree, node: int) returns (r: Result<seq<int>>)
    requires tree.Valid() && 0 <= node < tree.nodes.Length
    ensures r.Ok? <==> Infection(tree.nodes[..], node)
    ensures r.Err? && tree.nodes[node].parent == -1 ==> r.error == "Can't exchange the root node"
    ensures r.Err? && tree.nodes[node].parent != -1 ==> r.error == "This node is not exchangeable by this operator"
    ensures r.Ok? ==> (forall c :: c in r.value <==> Candidate(tree.nodes[..], node, c))
    ensures r.Ok? ==> forall s, t :: 0 <= s < t < |r.value| ==> r.value[s] < r.value[t]
  {
    var ns := tree.nodes[..];
    var parent := ns[node].parent;
    if parent == -1 {
      return Err("Can't exchange the root node");
    }
    if ns[parent].element == ns[node].element {
      return Err("This node is not exchangeable by this operator");
    }
    var out: seq<int> := [];
    for i := 0 to |ns|
      invariant forall c :: c in out <==> (0 <= c < i && Candidate(ns, node, c))
      invariant forall s, t :: 0 <= s < t < |out| ==> out[s] < out[t]
      invariant forall s :: 0 <= s < |out| ==> out[s] < i
    {
      var candidate := i;
      var newParent := ns[candidate].parent;
      if newParent != parent && newParent != -1 {
        if candidate != parent && node != newParent &&
           ns[candidate].height < ns[parent].height &&
           ns[node].height < ns[newParent].height &&
           ns[newParent].element != ns[candidate].element
        {
          assert candidate !in out && candidate != node;
          out := out + [candidate];
        }
      }
    }
    return Ok(out);
  }

  /** Being a candidate is symmetric between two nodes that start
    * infections. */
  lemma CandidateSymmetric(ns: seq<NodeState>, i: int, j: int)
    requires ParentsInRange(ns) && 0 <= i < |ns| && Infection(ns, i) && Candidate(ns, i, j)
    ensures Candidate(ns, j, i)
  {
  }

  /**
   * The move can be undone by the same operator when, after it, i and j
   * still start infections and sit strictly below their parents: each is
   * then a candidate for the other, and exchanging them again restores the
   * tree.
   */
  lemma ExchangeReversible(ns: seq<NodeState>, root: int, i: int, j: int)
    requires Tree(ns, root) && HeightsOrdered(ns)
    requires 0 <= i < |ns| && Infection(ns, i) && Candidate(ns, i, j)
    requires ns[i].height < ns[ns[i].parent].height && ns[j].height < ns[ns[j].parent].height
    requires ns[ns[j].parent].element != ns[i].element && ns[ns[i].parent].element != ns[j].element
    ensures var r := Exchanged(ns, i, j, ns[i].parent, ns[j].parent);
      Linked(r) && Infection(r, i) && Infection(r, j) &&
      Candidate(r, i, j) && Candidate(r, j, i) &&
      Exchanged(r, i, j, r[i].parent, r[j].parent) == ns
  {
    var iP, jP := ns[i].parent, ns[j].parent;
    ExchangeTwiceRestores(ns, i, j);
    ExchangedNodeAt(ns, i, j, iP, jP, i);
    ExchangedNodeAt(ns, i, j, iP, jP, j);
    ExchangedNodeAt(ns, i, j, iP, jP, iP);
    ExchangedNodeAt(ns, i, j, iP, jP, jP);
    ChildNotAbove(ns, i, 0);
    ChildNotAbove(ns, j, 0);
  }

  /** The four candidate counts the Hastings ratio is built from. */
  datatype Counts = Counts(iFirst: nat, jFirst: nat, reverseIFirst: nat, reverseJFirst: nat)

  /**
   * operate, for a drawn node i that starts an infection and a draw for the
   * choice of j.  With no candidate the proposal is refused and nothing
   * changes; otherwise i and j are exchanged and the counts taken.  The
   * reverse counts fail, and with them the proposal, when i or j no longer
   * starts an infection in its new place.
   */
  method Operate(tree: PartitionedTree, i: int, jDraw: nat) returns (j: int, r: Result<Counts>)
    requires tree.Valid() && HeightsOrdered(tree.nodes[..])
    requires 0 <= i < tree.nodes.Length && Infection(tree.nodes[..], i)
    modifies tree.nodes
    ensures tree.Valid() && HeightsOrdered(tree.nodes[..])
    ensures j == -1 <==> CandidateSet(old(tree.nodes[..]), i) == {}
    ensures j == -1 ==> r == Err("no candidate") && tree.nodes[..] == old(tree.nodes[..])
    ensures j != -1 ==> (Candidate(old(tree.nodes[..]), i, j) &&
      tree.nodes[..] == Exchanged(old(tree.nodes[..]), i, j, old(tree.nodes[i].parent), old(tree.nodes[j].parent)))
    ensures j != -1 ==> (r.Ok? <==> Infection(tree.nodes[..], i) && Infection(tree.nodes[..], j))
    ensures r.Ok? ==> (j != -1 && tree.nodes[i].parent != -1 && tree.nodes[j].parent != -1 &&
      r.value == Counts(|CandidateSet(old(tree.nodes[..]), i)|, |CandidateSet(old(tree.nodes[..]), j)|,
                        |CandidateSet(tree.nodes[..], i)|, |CandidateSet(tree.nodes[..], j)|) &&
      r.value.jFirst >= 1)
  {
    ghost var ns := tree.nodes[..];
    var candidates := GetPossibleExchanges(tree, i);
    var list := candidates.value;
    IncreasingSize(list, CandidateSet(ns, i));
    if |list| == 0 {
      return -1, Err("no candidate");
    }
    j := list[jDraw % |list|];
    CandidateSymmetric(ns, i, j);
    var jFirst := GetPossibleExchanges(tree, j);
    IncreasingSize(jFirst.value, CandidateSet(ns, j));
    assert i in CandidateSet(ns, j);
    var reverse := ExchangeAndCount(tree, i, j);
    if reverse.Err? {
      return j, Err(reverse.error);
    }
    return j, Ok(Counts(|list|, |jFirst.value|, reverse.value.0, reverse.value.1));
  }

  /** The second half of operate: the exchange and the two reverse counts. */
  method ExchangeAndCount(tree: PartitionedTree, i: int, j: int) returns (r: Result<(nat, nat)>)
    requires tree.Valid() && HeightsOrdered(tree.nodes[..])
    requires 0 <= i < tree.nodes.Length && Infection(tree.nodes[..], i) && Candidate(tree.nodes[..], i, j)
    modifies tree.nodes
    ensures tree.Valid() && HeightsOrdered(tree.nodes[..])
    ensures tree.nodes[..] == Exchanged(old(tree.nodes[..]), i, j, old(tree.nodes[i].parent), old(tree.nodes[j].parent))
    ensures tree.nodes[i].parent != -1 && tree.nodes[j].parent != -1
    ensures r.Ok? <==> Infection(tree.nodes[..], i) && Infection(tree.nodes[..], j)
    ensures r.Ok? ==> r.value == (|CandidateSet(tree.nodes[..], i)|, |CandidateSet(tree.nodes[..], j)|)
  {
    GuardedExchange(tree, i, j);
    ghost var e := tree.nodes[..];
    var reverseI := GetPossibleExchanges(tree, i);
    if reverseI.Err? {
      return Err(reverseI.error);
    }
    var reverseJ := GetPossibleExchanges(tree, j);
    if reverseJ.Err? {
      return Err(reverseJ.error);
    }
    IncreasingSize(reverseI.value, CandidateSet(e, i));
    IncreasingSize(reverseJ.value, CandidateSet(e, j));
    return Ok((|reverseI.value|, |reverseJ.value|));
  }

  /** A strictly increasing list is as long as the set of its values. */
  lemma IncreasingSize(s: seq<int>, S: set<int>)
    requires forall a, b :: 0 <= a < b < |s| ==> s[a] < s[b]
    requires forall c :: c in s <==> c in S
    ensures |s| == |S|
  {
    DistinctSize(s, S);
  }
}
