/**
 * TransmissionExchangeA: the narrow exchange that leaves the transmission
 * tree alone.  A non-root node i trades places with a node j whose parent
 * carries the same element as i's parent; the candidates for j are the
 * children of the other nodes of that element that the two height guards
 * allow.  The operator exists in two versions which differ only in the
 * check they make of the tree after the move: the partition rules, or the
 * node times.
 */
module TransmissionExchangeA {
  import opened TreeCore
  import opened PartitionedTrees
  import opened TreeEdits

  /** c may trade places with node: c's parent is another node of the
    * element of node's parent, c is not that parent, node is not c's
    * parent, and each of the two would go under a parent higher than
    * itself. */
  predicate Candidate(ns: seq<NodeState>, node: int, c: int)
    requires Linked(ns) && 0 <= node < |ns| && ns[node].parent != -1
  {
    var p := ns[node].parent;
    0 <= c < |ns| && ns[c].parent != -1 && ns[c].parent != p &&
    ns[ns[c].parent].element == ns[p].element &&
    c != p && node != ns[c].parent &&
    ns[c].height < ns[p].height && ns[node].height < ns[ns[c].parent].height
  }

  function CandidateSet(ns: seq<NodeState>, node: int): (s: set<int>)
    requires Linked(ns) && 0 <= node < |ns| && ns[node].parent != -1
    ensures forall c :: c in s <==> Candidate(ns, node, c)
  {
    set c | 0 <= c < |ns| && Candidate(ns, node, c)
  }

  /** The candidates found among the children of the visited nodes. */
  ghost predicate Collected(ns: seq<NodeState>, node: int, out: seq<int>, done: set<int>)
    requires Linked(ns) && 0 <= node < |ns| && ns[node].parent != -1
  {
    Distinct(out) && forall c :: c in out <==> (Candidate(ns, node, c) && ns[c].parent in done)
  }

  /**
   * getPossibleExchanges: the root has none and is refused; otherwise the
   * candidates, each once, in the order the set of same-element nodes is
   * walked (left open here, as a hash set leaves it).  The list never
   * holds a repeat or the node itself, so the exception the source raises
   * for either can never be thrown.
   */
  method GetPossibleExchanges(tree: PartitionedTree, node: int) returns (r: Result<seq<int>>)
    requires tree.Valid() && 0 <= node < tree.nodes.Length
    ensures r.Ok? <==> tree.nodes[node].parent != -1
    ensures r.Err? ==> r.error == "Can't exchange the root node"
    ensures r.Ok? ==> (Distinct(r.value) &&
      forall c :: c in r.value <==> Candidate(tree.nodes[..], node, c))
  {
    var ns := tree.nodes[..];
    var parent := ns[node].parent;
    if parent == -1 {
      return Err("Can't exchange the root node");
    }
    var possibleParentSwaps := tree.GetNodesInSameElement(parent);
    var out: seq<int> := [];
    var todo := possibleParentSwaps;
    ghost var done: set<int> := {};
    while todo != {}
      invariant todo <= possibleParentSwaps && done == possibleParentSwaps - todo
      invariant Collected(ns, node, out, done)
      decreases |todo|
    {
      var newParent :| newParent in todo;
      todo := todo - {newParent};
      out := VisitParent(ns, node, newParent, out, done);
      done := done + {newParent};
    }
    return Ok(out);
  }

  /** The body of the loop of getPossibleExchanges for one node of the
    * element: its children that pass the guards are added. */
  method VisitParent(ns: seq<NodeState>, node: int, newParent: int, out: seq<int>, ghost done: set<int>)
    returns (out': seq<int>)
    requires Linked(ns) && 0 <= node < |ns| && ns[node].parent != -1
    requires 0 <= newParent < |ns| && newParent !in done
    requires ns[newParent].element == ns[ns[node].parent].element
    requires Collected(ns, node, out, done)
    ensures Collected(ns, node, out', done + {newParent})
  {
    var parent := ns[node].parent;
    out' := out;
    if !IsLeaf(ns[newParent]) && newParent != parent {
      assert Binary(ns[newParent]);
      for k := 0 to 2
        invariant Distinct(out')
        invariant forall c :: c in out' <==> (Candidate(ns, node, c) &&
          (ns[c].parent in done || c in ns[newParent].children[..k]))
      {
        var candidate := ns[newParent].children[k];
        FreshChild(ns, newParent, k, done);
        if candidate != parent && node != newParent &&
           ns[candidate].height < ns[parent].height &&
           ns[node].height < ns[newParent].height
        {
          assert candidate !in out' && candidate != node;
          out' := out' + [candidate];
        }
        assert ns[newParent].children[..k + 1] == ns[newParent].children[..k] + [candidate];
      }
      assert ns[newParent].children[..2] == ns[newParent].children;
    } else {
      forall c | 0 <= c < |ns| && ns[c].parent == newParent ensures !Candidate(ns, node, c) {
        assert c in ns[newParent].children;
      }
    }
  }

  /** The k-th child of a node not yet visited hangs from that node, not
    * from a visited one, and is not among the children before it. */
  lemma FreshChild(ns: seq<NodeState>, p: int, k: int, done: set<int>)
    requires Linked(ns) && 0 <= p < |ns| && |ns[p].children| == 2 && 0 <= k < 2 && p !in done
    ensures var c := ns[p].children[k];
      0 <= c < |ns| && ns[c].parent == p && c !in ns[p].children[..k]
  {
    assert Binary(ns[p]);
  }

  /** Being a candidate is symmetric: if j may take i's place, i may take
    * j's. */
  lemma CandidateSymmetric(ns: seq<NodeState>, i: int, j: int)
    requires Linked(ns) && 0 <= i < |ns| && ns[i].parent != -1 && Candidate(ns, i, j)
    ensures Candidate(ns, j, i)
  {
  }

  /**
   * The move can be undone by the same operator: when i and j sit strictly
   * below their parents, after the exchange each is again a candidate for
   * the other, and exchanging them again restores the tree.  So the two
   * reverse counts of the Hastings ratio are at least one.
   */
  lemma ExchangeReversible(ns: seq<NodeState>, root: int, i: int, j: int)
    requires Tree(ns, root) && HeightsOrdered(ns)
    requires 0 <= i < |ns| && ns[i].parent != -1 && Candidate(ns, i, j)
    requires ns[i].height < ns[ns[i].parent].height && ns[j].height < ns[ns[j].parent].height
    ensures var r := Exchanged(ns, i, j, ns[i].parent, ns[j].parent);
      Linked(r) && r[i].parent != -1 && r[j].parent != -1 &&
      Candidate(r, i, j) && Candidate(r, j, i) &&
      Exchanged(r, i, j, r[i].parent, r[j].parent) == ns
  {
    var iP, jP := ns[i].parent, ns[j].parent;
    ExchangeTwiceRestores(ns, i, j);
    ExchangedNodeAt(ns, i, j, iP, jP, i);
    ExchangedNodeAt(ns, i, j, iP, jP, j);
    ExchangedNodeAt(ns, i, j, iP, jP, iP);
    ExchangedNodeAt(ns, i, j, iP, jP, jP);
    ChildNotAbove(ns, i, 0);
    ChildNotAbove(ns, j, 0);
  }

  /** The check made after the move: the partition rules as the first
    * version checks them, the partition rules as evidently intended, or the
    * node times (the second version). */
  datatype FinalCheck = PartitionIntegrity | IntendedPartitionIntegrity | TimesValid

  /** When the final check accepts the tree.  The partition check as written
    * accepts only when creep is disallowed and every node, tips included,
    * has a child of its own element. */
  predicate Passes(check: FinalCheck, ns: seq<NodeState>, root: int, allowCreep: Option<bool>)
    requires Linked(ns)
  {
    match check
    case PartitionIntegrity =>
      allowCreep == Some(false) && forall x :: 0 <= x < |ns| ==> HasSameElementChild(ns, x)
    case IntendedPartitionIntegrity => IntendedIntegrity(ns, root, allowCreep == Some(true))
    case TimesValid => forall y :: 0 <= y < |ns| ==> ChildrenNotHigher(ns, y)
  }

  /** The partition check as written never accepts a tree: a tip has no child. */
  lemma AsWrittenNeverPasses(ns: seq<NodeState>, root: int, allowCreep: Option<bool>)
    requires Tree(ns, root)
    ensures !Passes(PartitionIntegrity, ns, root, allowCreep)
  {
    var x := SomeNodeLacksSameElementChild(ns, root);
  }

  /** The four candidate counts the Hastings ratio is built from. */
  datatype Counts = Counts(iFirst: nat, jFirst: nat, reverseIFirst: nat, reverseJFirst: nat)

  /**
   * operate, for a drawn non-root node i and a draw for the choice of j
   * among i's candidates.  With no candidate the draw itself fails and
   * nothing changes; otherwise i and j are exchanged, the four candidate
   * counts are taken, and the tree is checked.  The time check never fails;
   * the partition check as written never lets a move through.
   */
  method Operate(tree: PartitionedTree, i: int, jDraw: nat, check: FinalCheck) returns (j: int, r: Result<Counts>)
    requires tree.Valid() && HeightsOrdered(tree.nodes[..])
    requires 0 <= i < tree.nodes.Length && tree.nodes[i].parent != -1
    modifies tree.nodes
    ensures tree.Valid() && HeightsOrdered(tree.nodes[..])
    ensures j == -1 <==> CandidateSet(old(tree.nodes[..]), i) == {}
    ensures j == -1 ==> r == Err("no candidate") && tree.nodes[..] == old(tree.nodes[..])
    ensures j != -1 ==> (Candidate(old(tree.nodes[..]), i, j) &&
      tree.nodes[..] == Exchanged(old(tree.nodes[..]), i, j, old(tree.nodes[i].parent), old(tree.nodes[j].parent)))
    ensures j != -1 ==> (r.Ok? <==> Passes(check, tree.nodes[..], tree.root, tree.allowCreep))
    ensures j != -1 && check == TimesValid ==> r.Ok?
    ensures check == PartitionIntegrity ==> r.Err?
    ensures j != -1 && check == PartitionIntegrity && tree.allowCreep.None? ==> r == Err("NullPointerException")
    ensures r.Err? && j != -1 && (check != PartitionIntegrity || tree.allowCreep == Some(false)) ==>
      r.error == "TEA isn't working properly"
    ensures r.Ok? ==> (j != -1 && tree.nodes[i].parent != -1 && tree.nodes[j].parent != -1 &&
      r.value == Counts(|CandidateSet(old(tree.nodes[..]), i)|, |CandidateSet(old(tree.nodes[..]), j)|,
                        |CandidateSet(tree.nodes[..], i)|, |CandidateSet(tree.nodes[..], j)|) &&
      r.value.jFirst >= 1)
  {
    ghost var ns := tree.nodes[..];
    var candidates := GetPossibleExchanges(tree, i);
    var list := candidates.value;
    DistinctSize(list, CandidateSet(ns, i));
    if |list| == 0 {
      return -1, Err("no candidate");
    }
    j := list[jDraw % |list|];
    CandidateSymmetric(ns, i, j);
    var jFirst := GetPossibleExchanges(tree, j);
    DistinctSize(jFirst.value, CandidateSet(ns, j));
    assert i in CandidateSet(ns, j);
    var reverse := ExchangeAndCheck(tree, i, j, check);
    if reverse.Err? {
      return j, Err(reverse.error);
    }
    return j, Ok(Counts(|list|, |jFirst.value|, reverse.value.0, reverse.value.1));
  }

  /** The second half of operate: the exchange, the two reverse counts and
    * the final check. */
  method ExchangeAndCheck(tree: PartitionedTree, i: int, j: int, check: FinalCheck) returns (r: Result<(nat, nat)>)
    requires tree.Valid() && HeightsOrdered(tree.nodes[..])
    requires 0 <= i < tree.nodes.Length && tree.nodes[i].parent != -1 && Candidate(tree.nodes[..], i, j)
    modifies tree.nodes
    ensures tree.Valid() && HeightsOrdered(tree.nodes[..])
    ensures tree.nodes[..] == Exchanged(old(tree.nodes[..]), i, j, old(tree.nodes[i].parent), old(tree.nodes[j].parent))
    ensures tree.nodes[i].parent != -1 && tree.nodes[j].parent != -1
    ensures r.Ok? <==> Passes(check, tree.nodes[..], tree.root, tree.allowCreep)
    ensures check == TimesValid ==> r.Ok?
    ensures check == PartitionIntegrity ==> r.Err?
    ensures check == PartitionIntegrity && tree.allowCreep.None? ==> r == Err("NullPointerException")
    ensures check == PartitionIntegrity && tree.allowCreep == Some(true) ==>
      (r == Err("NullPointerException") <==> forall x :: 0 <= x < tree.root ==>
         HasSameElementChild(tree.nodes[..], x) || ParentSameElement(tree.nodes[..], x))
    ensures r.Err? && (check != PartitionIntegrity || tree.allowCreep == Some(false)) ==>
      r.error == "TEA isn't working properly"
    ensures r.Ok? ==> r.value == (|CandidateSet(tree.nodes[..], i)|, |CandidateSet(tree.nodes[..], j)|)
  {
    GuardedExchange(tree, i, j);
    ghost var e := tree.nodes[..];
    var reverseI := GetPossibleExchanges(tree, i);
    var reverseJ := GetPossibleExchanges(tree, j);
    DistinctSize(reverseI.value, CandidateSet(e, i));
    DistinctSize(reverseJ.value, CandidateSet(e, j));
    var ok := RunFinalCheck(tree, check);
    if ok.Err? {
      return Err(ok.error);
    }
    if !ok.value {
      return Err("TEA isn't working properly");
    }
    return Ok((|reverseI.value|, |reverseJ.value|));
  }

  /** The final check, which changes nothing.  The partition check as
    * written may throw, and never accepts. */
  method RunFinalCheck(tree: PartitionedTree, check: FinalCheck) returns (r: Result<bool>)
    requires tree.Valid() && HeightsOrdered(tree.nodes[..])
    ensures r.Ok? ==> (r.value <==> Passes(check, tree.nodes[..], tree.root, tree.allowCreep))
    ensures r.Err? ==> r == Err("NullPointerException") && check == PartitionIntegrity
    ensures check == TimesValid ==> r == Ok(true)
    ensures check == PartitionIntegrity ==> r != Ok(true)
    ensures check == PartitionIntegrity && tree.allowCreep.None? ==> r == Err("NullPointerException")
    ensures check == PartitionIntegrity && tree.allowCreep == Some(false) ==> r == Ok(false)
    ensures check == PartitionIntegrity && tree.allowCreep == Some(true) ==>
      (r == Err("NullPointerException") <==> forall x :: 0 <= x < tree.root ==>
         HasSameElementChild(tree.nodes[..], x) || ParentSameElement(tree.nodes[..], x))
  {
    if check == PartitionIntegrity {
      AsWrittenNeverPasses(tree.nodes[..], tree.root, tree.allowCreep);
      r := tree.CheckPartitionIntegrity();
      ghost var ns := tree.nodes[..];
      match tree.allowCreep {
        case None =>
        case Some(creep) =>
          if r.Ok? && !creep {
            assert r.value <==> forall x :: 0 <= x < |ns| ==> HasSameElementChild(ns, x);
          }
          if r.Ok? && creep {
            assert !r.value;
          }
      }
      assert r.Ok? ==> (r.value <==> Passes(check, ns, tree.root, tree.allowCreep));
    } else if check == IntendedPartitionIntegrity {
      var ok := tree.CheckPartitionIntegrityCorrected();
      r := Ok(ok);
    } else {
      HeightsOrderedMeans(tree.nodes[..]);
      var ok := tree.IsValid();
      r := Ok(ok);
    }
  }
}
