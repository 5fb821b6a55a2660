// The epidemiological partitioned tree: a partitioned tree whose elements
// are the clinical cases of an outbreak, with optional per-case q
// parameters (where on its infection branch a case was infected), a cache
// of infection heights, and the bookkeeping of which treelets must be
// re-extracted after a proposal.

module EpidemiologicalTrees {
  import opened TreeCore
  import opened PartitionedTrees
  import opened Outbreaks

  /** One entry of the q parameter: its value and whether the current
    * proposal changed it. */
  datatype QEntry = QEntry(value: real, dirty: bool)

  /** Heights and times extended with the two infinities, which stand in
    * for "no element". */
  datatype Extended = NegInf | Finite(v: real) | PosInf

  const WrongDimension := "q has the wrong dimension"
  const QMismatch := "q present iff third-type rules"

  /**
   * The checks of initAndValidate, in their order: a q parameter must have
   * one entry per element, and it must be present under DIDELOT rules and
   * absent under COTTAM rules. On success, the flags saying which
   * elements' intervals need recalculating: all set under DIDELOT rules,
   * absent (null) otherwise.
   */
  function InitCheck(rules: Rules, q: Option<seq<QEntry>>, nElements: nat): (r: Result<Option<seq<bool>>>)
    ensures r.Err? <==> (q.Some? && |q.value| != nElements) || (rules == Didelot && q.None?) || (rules == Cottam && q.Some?)
    ensures q.Some? && |q.value| != nElements ==> r == Err(WrongDimension)
    ensures r.Ok? ==> (r.value.Some? <==> rules == Didelot)
    ensures r.Ok? && r.value.Some? ==> |r.value.value| == nElements && forall i :: 0 <= i < nElements ==> r.value.value[i]
  {
    if q.Some? && |q.value| != nElements then Err(WrongDimension)
    else if (rules == Didelot && q.None?) || (rules == Cottam && q.Some?) then Err(QMismatch)
    else if rules == Didelot then Ok(Some(seq(nElements, i => true)))
    else Ok(None)
  }

  /** The case an element number names: the element's name looked up among
    * the cases' IDs. An element outside the list, or a name no case
    * carries, has no case. */
  function CaseOfElement(elementNo: int, elementList: seq<string>, cases: seq<ClinicalCase>): (r: Result<ClinicalCase>)
    ensures r.Ok? <==> 0 <= elementNo < |elementList| && exists i :: 0 <= i < |cases| && cases[i].id == elementList[elementNo]
    ensures r.Ok? ==> r.value in cases && r.value.id == elementList[elementNo]
  {
    if 0 <= elementNo < |elementList| then FirstWithId(cases, elementList[elementNo])
    else Err("element outside the list")
  }

  /** getInfectionHeightByNr: element -1 (no element) is infinitely high;
    * any other element has the infection height of its case, which
    * `heightOf` gives. */
  function InfectionHeightByNr(elementNo: int, elementList: seq<string>, cases: seq<ClinicalCase>,
                               heightOf: ClinicalCase -> Extended): (r: Result<Extended>)
    ensures elementNo == -1 ==> r == Ok(PosInf)
    ensures elementNo != -1 ==> (r.Ok? <==> CaseOfElement(elementNo, elementList, cases).Ok?)
    ensures elementNo != -1 && r.Ok? ==> r.value == heightOf(CaseOfElement(elementNo, elementList, cases).value)
  {
    if elementNo == -1 then Ok(PosInf)
    else
      var c := CaseOfElement(elementNo, elementList, cases);
      if c.Ok? then Ok(heightOf(c.value)) else Err(c.error)
  }

  /** getInfectionTimeByNr: element -1 (no element) was infected infinitely
    * long ago; any other element has the infection time of its case, which
    * `timeOf` gives. */
  function InfectionTimeByNr(elementNo: int, elementList: seq<string>, cases: seq<ClinicalCase>,
                             timeOf: ClinicalCase -> Extended): (r: Result<Extended>)
    ensures elementNo == -1 ==> r == Ok(NegInf)
    ensures elementNo != -1 ==> (r.Ok? <==> CaseOfElement(elementNo, elementList, cases).Ok?)
    ensures elementNo != -1 && r.Ok? ==> r.value == timeOf(CaseOfElement(elementNo, elementList, cases).value)
  {
    if elementNo == -1 then Ok(NegInf)
    else
      var c := CaseOfElement(elementNo, elementList, cases);
      if c.Ok? then Ok(timeOf(c.value)) else Err(c.error)
  }

  /** getInfector: a case that was never infected, or whose element has no
    * ancestor element (`ancestorOf`), has no infector; otherwise the
    * infector is the case carrying the ancestor element's name. */
  function GetInfector(c: ClinicalCase, ancestorOf: string -> Option<string>, cases: seq<ClinicalCase>): (r: Result<Option<ClinicalCase>>)
    reads c
    ensures !c.everInfected || ancestorOf(c.id).None? ==> r == Ok(None)
    ensures c.everInfected && ancestorOf(c.id).Some? ==>
      (r.Ok? <==> exists i :: 0 <= i < |cases| && cases[i].id == ancestorOf(c.id).value)
    ensures r.Ok? && r.value.Some? ==> r.value.value in cases && r.value.value.id == ancestorOf(c.id).value
  {
    if !c.everInfected then Ok(None)
    else match ancestorOf(c.id)
      case None => Ok(None)
      case Some(a) =>
        var found := FirstWithId(cases, a);
        if found.Ok? then Ok(Some(found.value)) else Err(found.error)
  }

  /** With unique case IDs, the infector of an infected case is exactly the
    * case whose ID is the ancestor element. */
  lemma InfectorIsAncestorCase(c: ClinicalCase, ancestorOf: string -> Option<string>, cases: seq<ClinicalCase>, j: int)
    requires UniqueIds(cases) && 0 <= j < |cases|
    requires c.everInfected && ancestorOf(c.id) == Some(cases[j].id)
    ensures GetInfector(c, ancestorOf, cases) == Ok(Some(cases[j]))
  {
    CaseByIdFinds(cases, j);
  }

  /** Among the first k entries of q, a dirty one is element e itself or has
    * e as its ancestor element (`ancestor`). */
  predicate QMarked(q: seq<QEntry>, ancestor: int -> int, e: int, k: nat)
    requires k <= |q|
  {
    k > 0 && (QMarked(q, ancestor, e, k - 1) || (q[k - 1].dirty && (k - 1 == e || ancestor(k - 1) == e)))
  }

  /** Among the first k nodes, a partition-dirty one carries element e. */
  predicate NodeMarked(ns: seq<NodeState>, e: int, k: nat)
    requires k <= |ns|
  {
    k > 0 && (NodeMarked(ns, e, k - 1) || (ns[k - 1].partitionDirty && ns[k - 1].element == e))
  }

  /** QMarked is "some dirty entry among the first k marks e". */
  lemma {:induction false} QMarkedMeans(q: seq<QEntry>, ancestor: int -> int, e: int, k: nat)
    requires k <= |q|
    ensures QMarked(q, ancestor, e, k) <==> exists i :: 0 <= i < k && q[i].dirty && (i == e || ancestor(i) == e)
  {
    if k > 0 {
      QMarkedMeans(q, ancestor, e, k - 1);
      if q[k - 1].dirty && (k - 1 == e || ancestor(k - 1) == e) {
        assert QMarked(q, ancestor, e, k);
      }
    }
  }

  /** NodeMarked is "some partition-dirty node among the first k carries e". */
  lemma {:induction false} NodeMarkedMeans(ns: seq<NodeState>, e: int, k: nat)
    requires k <= |ns|
    ensures NodeMarked(ns, e, k) <==> exists x :: 0 <= x < k && ns[x].partitionDirty && ns[x].element == e
  {
    if k > 0 {
      NodeMarkedMeans(ns, e, k - 1);
      if ns[k - 1].partitionDirty && ns[k - 1].element == e {
        assert NodeMarked(ns, e, k);
      }
    }
  }

  /** Every index the q loop of identifyChangedTreelets writes lies inside
    * an array of n flags. */
  predicate QIndicesFit(q: seq<QEntry>, ancestor: int -> int, n: int, k: nat)
    requires k <= |q|
  {
    forall i :: 0 <= i < k && q[i].dirty ==> i < n && (ancestor(i) == -1 || 0 <= ancestor(i) < n)
  }

  /** Every index the node loop of identifyChangedTreelets writes lies
    * inside an array of n flags. */
  predicate NodeIndicesFit(ns: seq<NodeState>, n: int, k: nat)
    requires k <= |ns|
  {
    forall x :: 0 <= x < k && ns[x].partitionDirty ==> 0 <= ns[x].element < n
  }

  /** The internal nodes carrying an element. */
  function InternalNodesWith(ns: seq<NodeState>, elementNo: int): set<int>
  {
    set x | 0 <= x < |ns| && !IsLeaf(ns[x]) && ns[x].element == elementNo
  }

  /** An epidemiological partitioned tree. `base` is the partitioned tree it
    * extends; the q parameter is present only under third-type rules. */
  class EpidemiologicalTree {
    const base: PartitionedTree
    var q: Option<seq<QEntry>>
    var infectionHeights: array<Option<real>>
    var storedInfectionHeights: array<Option<real>>
    var intervalsRequireRecalculation: Option<seq<bool>>

    /** A tree over an initialised partitioned tree, before initAndValidate. */
    constructor (base: PartitionedTree)
      ensures this.base == base && q.None? && intervalsRequireRecalculation.None?
      ensures infectionHeights.Length == 0 && storedInfectionHeights.Length == 0
    {
      this.base := base;
      q := None;
      infectionHeights := new Option<real>[0];
      storedInfectionHeights := new Option<real>[0];
      intervalsRequireRecalculation := None;
    }

    /** initAndValidate: keep q, run the checks of InitCheck, and on success
      * start both height caches empty (all null) with one slot per element. */
    method InitAndValidate(qIn: Option<seq<QEntry>>) returns (r: Result<bool>)
      modifies this
      ensures q == qIn
      ensures var check := InitCheck(base.rules, qIn, |base.elementList|);
        (r.Ok? <==> check.Ok?) && (r.Err? ==> r.error == check.error) &&
        (r.Ok? ==> intervalsRequireRecalculation == check.value)
      ensures r.Ok? ==> fresh(infectionHeights) && fresh(storedInfectionHeights) && infectionHeights != storedInfectionHeights
      ensures r.Ok? ==> infectionHeights.Length == |base.elementList| && storedInfectionHeights.Length == |base.elementList|
      ensures r.Ok? ==> forall i :: 0 <= i < infectionHeights.Length ==> infectionHeights[i].None? && storedInfectionHeights[i].None?
    {
      q := qIn;
      var check := InitCheck(base.rules, qIn, |base.elementList|);
      if check.Err? {
        return Err(check.error);
      }
      var n := |base.elementList|;
      infectionHeights := new Option<real>[n](i => None);
      storedInfectionHeights := new Option<real>[n](i => None);
      intervalsRequireRecalculation := check.value;
      r := Ok(true);
    }

    /**
     * identifyChangedTreelets: one flag per element, set for every element
     * whose q entry is dirty, for that element's ancestor element (when it
     * has one), and for the element of every partition-dirty node; nothing
     * else is set. Without a q parameter, or when an index to set lies
     * outside the flags, the source fails.
     */
    method IdentifyChangedTreelets(ancestor: int -> int) returns (r: Result<seq<bool>>)
      ensures r.Ok? <==> q.Some? && QIndicesFit(q.value, ancestor, |base.elementList|, |q.value|) &&
                         NodeIndicesFit(base.nodes[..], |base.elementList|, base.nodes.Length)
      ensures r.Ok? ==> |r.value| == |base.elementList| && forall e :: 0 <= e < |r.value| ==>
        (r.value[e] <==> QMarked(q.value, ancestor, e, |q.value|) || NodeMarked(base.nodes[..], e, base.nodes.Length))
    {
      var n := |base.elementList|;
      if q.None? {
        return Err("no q parameter");
      }
      var qs := q.value;
      var out := new bool[n](i => false);
      for i := 0 to |qs|
        invariant QIndicesFit(qs, ancestor, n, i)
        invariant forall e :: 0 <= e < n ==> (out[e] <==> QMarked(qs, ancestor, e, i))
      {
        if qs[i].dirty {
          if i >= n {
            return Err("element outside the flags");
          }
          out[i] := true;
          var p := ancestor(i);
          if p != -1 {
            if !(0 <= p < n) {
              return Err("element outside the flags");
            }
            out[p] := true;
          }
        }
      }
      var ns := base.nodes;
      for x := 0 to ns.Length
        invariant NodeIndicesFit(ns[..], n, x)
        invariant forall e :: 0 <= e < n ==> (out[e] <==> QMarked(qs, ancestor, e, |qs|) || NodeMarked(ns[..], e, x))
      {
        var node := ns[x];
        if node.partitionDirty {
          if !(0 <= node.element < n) {
            return Err("element outside the flags");
          }
          out[node.element] := true;
        }
      }
      r := Ok(out[..]);
    }

    /**
     * countNodesInPartition: for a within-host phylogeny counting every
     * node, twice the element's internal nodes plus one (a binary tree's
     * tips are one more than its internal nodes); every other request goes
     * to the partitioned tree's own count (None here).
     */
    method CountNodesInPartition(elementNo: int, internalOnly: bool, forWithinHostPhylogeny: bool) returns (r: Option<int>)
      ensures r.Some? <==> forWithinHostPhylogeny && !internalOnly
      ensures r.Some? ==> r.value == 2 * |InternalNodesWith(base.nodes[..], elementNo)| + 1
    {
      if !(forWithinHostPhylogeny && !internalOnly) {
        return None;
      }
      var ns := base.nodes;
      var count := 0;
      ghost var seen: set<int> := {};
      for x := 0 to ns.Length
        invariant seen == set y | 0 <= y < x && !IsLeaf(ns[y]) && ns[y].element == elementNo
        invariant count == |seen|
      {
        var node := ns[x];
        if !IsLeaf(node) && node.element == elementNo {
          seen := seen + {x};
          count := count + 1;
        }
      }
      assert seen == InternalNodesWith(ns[..], elementNo);
      r := Some(count + count + 1);
    }

    /** store: the partitioned tree stores its nodes, and the stored height
      * cache becomes a fresh copy of the live one. */
    method Store()
      requires base.Valid()
      modifies this, base, base.storedNodes
      ensures base.storedRoot == base.root && base.nodes == old(base.nodes) && base.root == old(base.root)
      ensures base.storedNodes == old(base.storedNodes)
      ensures base.storedNodes[..] == StoredArray(old(base.storedNodes[..]), base.nodes[..], base.root)
      ensures q == old(q) && infectionHeights == old(infectionHeights)
      ensures intervalsRequireRecalculation == old(intervalsRequireRecalculation)
      ensures fresh(storedInfectionHeights) && storedInfectionHeights[..] == infectionHeights[..]
    {
      base.Store();
      var live := infectionHeights;
      storedInfectionHeights := new Option<real>[live.Length](i reads live requires 0 <= i < live.Length => live[i]);
    }

    /** restore: the partitioned tree restores its stored nodes, and the live
      * height cache becomes the stored one, the very same array rather than
      * a copy. */
    method Restore()
      requires base.Valid() && Tree(base.storedNodes[..], base.storedRoot)
      modifies this, base
      ensures base.Valid()
      ensures base.nodes == old(base.storedNodes) && base.storedNodes == old(base.nodes)
      ensures base.root == old(base.storedRoot) && base.storedRoot == old(base.storedRoot)
      ensures infectionHeights == old(storedInfectionHeights) && storedInfectionHeights == old(storedInfectionHeights)
      ensures q == old(q) && intervalsRequireRecalculation == old(intervalsRequireRecalculation)
    {
      base.Restore();
      infectionHeights := storedInfectionHeights;
    }
  }
}
