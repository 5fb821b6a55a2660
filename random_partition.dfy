// The deterministic part of the random starting partition: which element
// the tree's topology forces on an internal node, and filling an element
// down through the unassigned part of a subtree.

module RandomPartition {
  import opened TreeCore
  import PartitionedTrees

  /** A node that carries no element yet. */
  predicate Unassigned(ns: seq<NodeState>, z: int)
  {
    0 <= z < |ns| && ns[z].element == -1
  }

  /** The nodes fillDownTree reaches from x: x itself when it is unassigned
    * and, below an unassigned internal node, what its children reach. */
  ghost function Region(ns: seq<NodeState>, x: int, d: nat): (R: set<int>)
    requires Downward(ns) && Acyclic(ns) && 0 <= x < |ns| && Up(ns, x, d) != -1
    ensures forall y :: y in R ==> Unassigned(ns, y)
    ensures R != {} <==> Unassigned(ns, x)
    decreases |ns| - d
  {
    UpDefinedBelow(ns, x, d);
    if ns[x].element != -1 then {}
    else if IsLeaf(ns[x]) then {x}
    else
      assert Binary(ns[x]);
      var c0 := ns[x].children[0];
      var c1 := ns[x].children[1];
      UpAdd(ns, c0, 1, d);
      UpAdd(ns, c1, 1, d);
      {x} + Region(ns, c0, d + 1) + Region(ns, c1, d + 1)
  }

  /** y hangs below x on a path of unassigned nodes, both ends included. */
  ghost predicate Reachable(ns: seq<NodeState>, x: int, y: int)
  {
    exists k: nat :: Up(ns, y, k) == x && forall j :: 0 <= j <= k ==> Unassigned(ns, Up(ns, y, j))
  }

  /** The nodes of a set get the element; all else stays as it was. */
  function Fill(ns: seq<NodeState>, R: set<int>, e: int): (out: seq<NodeState>)
    ensures |out| == |ns| && SameShape(ns, out)
    ensures forall y :: 0 <= y < |ns| ==> out[y].element == (if y in R then e else ns[y].element)
  {
    seq(|ns|, i requires 0 <= i < |ns| => if i in R then ns[i].(element := e) else ns[i])
  }

  /** Filling one set and then another fills their union. */
  lemma FillUnion(ns: seq<NodeState>, A: set<int>, B: set<int>, e: int)
    ensures Fill(Fill(ns, A, e), B, e) == Fill(ns, A + B, e)
  {
    var lhs := Fill(Fill(ns, A, e), B, e);
    var rhs := Fill(ns, A + B, e);
    forall i | 0 <= i < |ns| ensures lhs[i] == rhs[i] {
    }
  }

  /** Links decide the tree structure, so relinking-free edits keep it. */
  lemma ShapeKeeps(ns: seq<NodeState>, ms: seq<NodeState>)
    requires SameShape(ns, ms) && Downward(ns) && Acyclic(ns)
    ensures Downward(ms) && Acyclic(ms)
  {
    forall x, k | 0 <= x < |ms| && 0 <= k < |ms[x].children|
      ensures 0 <= ms[x].children[k] < |ms| && ms[ms[x].children[k]].parent == x
    {
      assert ms[x].children == ns[x].children;
      assert ns[ns[x].children[k]].parent == x;
    }
    forall x | 0 <= x < |ms| ensures Binary(ms[x]) && -1 <= ms[x].parent < |ms| {
      assert ms[x].children == ns[x].children && Binary(ns[x]) && ms[x].parent == ns[x].parent;
    }
    forall x | 0 <= x < |ms| ensures Up(ms, x, |ms|) == -1 {
      UpSameShape(ns, ms, x, |ns|);
    }
  }

  /** Every reached node hangs below x on an unassigned path. */
  lemma {:induction false} RegionSound(ns: seq<NodeState>, x: int, d: nat, y: int)
    requires Downward(ns) && Acyclic(ns) && 0 <= x < |ns| && Up(ns, x, d) != -1
    requires y in Region(ns, x, d)
    ensures Reachable(ns, x, y)
    decreases |ns| - d
  {
    UpDefinedBelow(ns, x, d);
    if y == x {
      assert Up(ns, y, 0) == x;
      assert forall j :: 0 <= j <= 0 ==> Unassigned(ns, Up(ns, y, j));
    } else {
      assert Binary(ns[x]) && !IsLeaf(ns[x]);
      var c0 := ns[x].children[0];
      var c1 := ns[x].children[1];
      UpAdd(ns, c0, 1, d);
      UpAdd(ns, c1, 1, d);
      var c := if y in Region(ns, c0, d + 1) then c0 else c1;
      assert y in Region(ns, c, d + 1);
      RegionSound(ns, c, d + 1, y);
      var k: nat :| Up(ns, y, k) == c && forall j :: 0 <= j <= k ==> Unassigned(ns, Up(ns, y, j));
      UpAdd(ns, y, k, 1);
      UpOne(ns, c);
      assert Up(ns, y, k + 1) == x;
      forall j | 0 <= j <= k + 1 ensures Unassigned(ns, Up(ns, y, j)) {
      }
    }
  }

  /** Every node below x on an unassigned path is reached. */
  lemma {:induction false} RegionComplete(ns: seq<NodeState>, x: int, d: nat, y: int, k: nat)
    requires Linked(ns) && Acyclic(ns) && 0 <= x < |ns| && Up(ns, x, d) != -1
    requires Up(ns, y, k) == x && forall j :: 0 <= j <= k ==> Unassigned(ns, Up(ns, y, j))
    ensures y in Region(ns, x, d)
    decreases k
  {
    assert Unassigned(ns, Up(ns, y, k));
    if k > 0 {
      var c := Up(ns, y, k - 1);
      assert Unassigned(ns, c);
      UpAdd(ns, y, k - 1, 1);
      UpOne(ns, c);
      assert ns[c].parent == x;
      assert c in ns[x].children;
      assert Binary(ns[x]);
      UpAdd(ns, c, 1, d);
      RegionComplete(ns, c, d + 1, y, k - 1);
      UpDefinedBelow(ns, x, d);
      var c0 := ns[x].children[0];
      var c1 := ns[x].children[1];
      assert Region(ns, x, d) == {x} + Region(ns, c0, d + 1) + Region(ns, c1, d + 1);
    }
  }

  /** What fillDownTree reaches is exactly the unassigned paths down from x. */
  lemma RegionMeans(ns: seq<NodeState>, x: int, d: nat, y: int)
    requires Linked(ns) && Acyclic(ns) && 0 <= x < |ns| && Up(ns, x, d) != -1
    ensures y in Region(ns, x, d) <==> Reachable(ns, x, y)
  {
    if y in Region(ns, x, d) {
      RegionSound(ns, x, d, y);
    }
    if Reachable(ns, x, y) {
      var k: nat :| Up(ns, y, k) == x && forall j :: 0 <= j <= k ==> Unassigned(ns, Up(ns, y, j));
      RegionComplete(ns, x, d, y, k);
    }
  }

  /** Reached nodes lie in x's subtree. */
  lemma RegionBelow(ns: seq<NodeState>, x: int, d: nat, y: int)
    requires Downward(ns) && Acyclic(ns) && 0 <= x < |ns| && Up(ns, x, d) != -1
    requires y in Region(ns, x, d)
    ensures PartitionedTrees.Below(ns, y, x)
  {
    RegionSound(ns, x, d, y);
    var k: nat :| Up(ns, y, k) == x && forall j :: 0 <= j <= k ==> Unassigned(ns, Up(ns, y, j));
  }

  /** The region depends only on the elements inside x's subtree. */
  lemma {:induction false} RegionLocal(ns: seq<NodeState>, ms: seq<NodeState>, x: int, d: nat)
    requires Downward(ns) && Acyclic(ns) && 0 <= x < |ns| && Up(ns, x, d) != -1
    requires SameShape(ns, ms)
    requires forall y :: 0 <= y < |ns| && PartitionedTrees.Below(ns, y, x) ==> ns[y].element == ms[y].element
    ensures Downward(ms) && Acyclic(ms) && Up(ms, x, d) != -1
    ensures Region(ns, x, d) == Region(ms, x, d)
    decreases |ns| - d
  {
    ShapeKeeps(ns, ms);
    UpSameShape(ns, ms, x, d);
    UpDefinedBelow(ns, x, d);
    assert PartitionedTrees.Below(ns, x, x) by {
      assert Up(ns, x, 0) == x;
    }
    if ns[x].element == -1 && !IsLeaf(ns[x]) {
      assert Binary(ns[x]) && ms[x].children == ns[x].children;
      var c0 := ns[x].children[0];
      var c1 := ns[x].children[1];
      UpAdd(ns, c0, 1, d);
      UpAdd(ns, c1, 1, d);
      forall y | 0 <= y < |ns| && PartitionedTrees.Below(ns, y, c0)
        ensures ns[y].element == ms[y].element
      {
        PartitionedTrees.BelowChild(ns, x, c0, y);
      }
      forall y | 0 <= y < |ns| && PartitionedTrees.Below(ns, y, c1)
        ensures ns[y].element == ms[y].element
      {
        PartitionedTrees.BelowChild(ns, x, c1, y);
      }
      RegionLocal(ns, ms, c0, d + 1);
      RegionLocal(ns, ms, c1, d + 1);
    }
  }

  /** No node of R is a tip. */
  predicate NoTipIn(ns: seq<NodeState>, R: set<int>)
  {
    forall y :: y in R ==> 0 <= y < |ns| && !IsLeaf(ns[y])
  }

  /** ms agrees with ns outside R. */
  predicate SameOutside(ns: seq<NodeState>, ms: seq<NodeState>, R: set<int>)
  {
    |ns| == |ms| && forall y :: 0 <= y < |ns| && y !in R ==> ms[y] == ns[y]
  }

  lemma NoTipInShape(ns: seq<NodeState>, ms: seq<NodeState>, R: set<int>)
    requires SameShape(ns, ms)
    ensures NoTipIn(ns, R) <==> NoTipIn(ms, R)
  {
    forall y | 0 <= y < |ns| ensures IsLeaf(ns[y]) == IsLeaf(ms[y]) {
      assert ns[y].children == ms[y].children;
    }
  }

  lemma NoTipInUnion(ns: seq<NodeState>, A: set<int>, B: set<int>)
    ensures NoTipIn(ns, A + B) <==> NoTipIn(ns, A) && NoTipIn(ns, B)
  {
  }

  lemma SameOutsideTrans(ns: seq<NodeState>, ms: seq<NodeState>, ls: seq<NodeState>, A: set<int>, B: set<int>, C: set<int>)
    requires SameOutside(ns, ms, A) && SameOutside(ms, ls, B) && A + B <= C
    ensures SameOutside(ns, ls, C)
  {
  }

  /** The region of an unassigned internal node splits over its children. */
  lemma RegionSplit(ns: seq<NodeState>, x: int, d: nat) returns (c0: int, c1: int)
    requires Downward(ns) && Acyclic(ns) && 0 <= x < |ns| && Up(ns, x, d) != -1
    requires ns[x].element == -1 && !IsLeaf(ns[x])
    ensures 0 <= c0 < |ns| && 0 <= c1 < |ns| && c0 != c1 && ns[x].children == [c0, c1]
    ensures ns[c0].parent == x && ns[c1].parent == x
    ensures Up(ns, c0, d + 1) != -1 && Up(ns, c1, d + 1) != -1 && d + 1 < |ns|
    ensures Region(ns, x, d) == {x} + Region(ns, c0, d + 1) + Region(ns, c1, d + 1)
  {
    UpDefinedBelow(ns, x, d);
    assert Binary(ns[x]);
    c0 := ns[x].children[0];
    c1 := ns[x].children[1];
    UpAdd(ns, c0, 1, d);
    UpAdd(ns, c1, 1, d);
    UpDefinedBelow(ns, c0, d + 1);
  }

  /** After the first child is filled, the second child's region is as it was. */
  lemma SecondRegionKept(ns0: seq<NodeState>, ns2: seq<NodeState>, x: int, d: nat, c0: int, c1: int)
    requires Downward(ns0) && Acyclic(ns0) && 0 <= x < |ns0| && Up(ns0, x, d) != -1
    requires 0 <= c0 < |ns0| && 0 <= c1 < |ns0| && c0 != c1 && ns0[c0].parent == x && ns0[c1].parent == x
    requires Up(ns0, c0, d + 1) != -1 && Up(ns0, c1, d + 1) != -1
    requires SameShape(ns0, ns2) && SameOutside(ns0, ns2, {x} + Region(ns0, c0, d + 1))
    ensures Downward(ns2) && Acyclic(ns2) && Up(ns2, c1, d + 1) != -1
    ensures Region(ns0, c1, d + 1) == Region(ns2, c1, d + 1)
  {
    PartitionedTrees.NotBelowChild(ns0, x, c1);
    forall y | 0 <= y < |ns0| && PartitionedTrees.Below(ns0, y, c1)
      ensures ns0[y].element == ns2[y].element
    {
      PartitionedTrees.SubtreesDisjoint(ns0, x, c0, c1, y);
      if y in Region(ns0, c0, d + 1) {
        RegionBelow(ns0, c0, d + 1, y);
      }
    }
    RegionLocal(ns0, ns2, c1, d + 1);
  }

  /** fillDownTree: an unassigned node takes the element and passes it to
    * both children; an assigned node stops the descent. Reaching an
    * unassigned tip fails (the tip has no children to visit), leaving the
    * nodes visited so far filled. */
  method FillDownTree(a: array<NodeState>, x: int, e: int, ghost d: nat) returns (ok: bool)
    requires Downward(a[..]) && Acyclic(a[..]) && 0 <= x < a.Length && Up(a[..], x, d) != -1
    modifies a
    ensures FillOutcome(old(a[..]), a[..], Region(old(a[..]), x, d), e, ok)
    decreases a.Length - d, 1
  {
    ghost var ns0 := a[..];
    if a[x].element == -1 {
      a[x] := a[x].(element := e);
      assert a[..] == Fill(ns0, {x}, e);
      if IsLeaf(a[x]) {
        assert Region(ns0, x, d) == {x};
        return false;
      }
      ok := FillChildren(a, x, e, d, ns0);
    } else {
      ok := true;
      assert a[..] == Fill(ns0, {}, e);
    }
  }

  /** What one fillDownTree call leaves behind when R is the region it
    * reaches: ms is ns with R filled, or, on failure, ns with part of R
    * changed. */
  predicate FillOutcome(ns: seq<NodeState>, ms: seq<NodeState>, R: set<int>, e: int, ok: bool)
  {
    SameShape(ns, ms) &&
    (ok <==> NoTipIn(ns, R)) &&
    (ok ==> ms == Fill(ns, R, e)) &&
    SameOutside(ns, ms, R)
  }

  /** Before the first child call: the state is a tree and the first
    * child's region is what it was before x was assigned. */
  lemma FirstCallReady(ns0: seq<NodeState>, ns1: seq<NodeState>, x: int, d: nat, e: int) returns (c0: int, c1: int)
    requires Downward(ns0) && Acyclic(ns0) && 0 <= x < |ns0| && Up(ns0, x, d) != -1
    requires Unassigned(ns0, x) && !IsLeaf(ns0[x]) && ns1 == Fill(ns0, {x}, e)
    ensures 0 <= c0 < |ns0| && 0 <= c1 < |ns0| && d + 1 < |ns0|
    ensures ns1[x].children == [c0, c1] && ns0[c0].parent == x && ns0[c1].parent == x && c0 != c1
    ensures Up(ns0, c0, d + 1) != -1 && Up(ns0, c1, d + 1) != -1
    ensures Region(ns0, x, d) == {x} + Region(ns0, c0, d + 1) + Region(ns0, c1, d + 1)
    ensures Downward(ns1) && Acyclic(ns1) && Up(ns1, c0, d + 1) != -1
    ensures Region(ns1, c0, d + 1) == Region(ns0, c0, d + 1)
  {
    c0, c1 := RegionSplit(ns0, x, d);
    assert ns1[x].children == ns0[x].children;
    PartitionedTrees.NotBelowChild(ns0, x, c0);
    RegionLocal(ns0, ns1, c0, d + 1);
  }

  /** A failed first child call fails the whole fill. */
  lemma FirstCallFailed(ns0: seq<NodeState>, ns1: seq<NodeState>, ns2: seq<NodeState>, x: int, R0: set<int>, R1: set<int>, e: int)
    requires 0 <= x < |ns0| && ns1 == Fill(ns0, {x}, e)
    requires FillOutcome(ns1, ns2, R0, e, false)
    ensures FillOutcome(ns0, ns2, {x} + R0 + R1, e, false)
  {
    SameShapeTrans(ns0, ns1, ns2);
    NoTipInShape(ns0, ns1, R0);
    NoTipInUnion(ns0, {x} + R0, R1);
    NoTipInUnion(ns0, {x}, R0);
    SameOutsideTrans(ns0, ns1, ns2, {x}, R0, {x} + R0 + R1);
  }

  /** Before the second child call: the state is still a tree and the
    * second child's region is what it was at the start. */
  lemma SecondCallReady(ns0: seq<NodeState>, ns1: seq<NodeState>, ns2: seq<NodeState>, x: int, d: nat, e: int, c0: int, c1: int)
    requires Downward(ns0) && Acyclic(ns0) && 0 <= x < |ns0| && Up(ns0, x, d) != -1
    requires ns1 == Fill(ns0, {x}, e)
    requires 0 <= c0 < |ns0| && 0 <= c1 < |ns0| && c0 != c1 && ns0[c0].parent == x && ns0[c1].parent == x
    requires Up(ns0, c0, d + 1) != -1 && Up(ns0, c1, d + 1) != -1
    requires FillOutcome(ns1, ns2, Region(ns0, c0, d + 1), e, true)
    ensures Downward(ns2) && Acyclic(ns2) && Up(ns2, c1, d + 1) != -1
    ensures Region(ns2, c1, d + 1) == Region(ns0, c1, d + 1)
    ensures ns2 == Fill(ns0, {x} + Region(ns0, c0, d + 1), e)
  {
    var R0 := Region(ns0, c0, d + 1);
    SameShapeTrans(ns0, ns1, ns2);
    SameOutsideTrans(ns0, ns1, ns2, {x}, R0, {x} + R0);
    SecondRegionKept(ns0, ns2, x, d, c0, c1);
    FillUnion(ns0, {x}, R0, e);
  }

  /** The second child call decides the outcome of the whole fill. */
  lemma SecondCallDone(ns0: seq<NodeState>, ns2: seq<NodeState>, ns3: seq<NodeState>, x: int, R0: set<int>, R1: set<int>, e: int, ok: bool)
    requires 0 <= x < |ns0| && !IsLeaf(ns0[x]) && NoTipIn(ns0, R0)
    requires ns2 == Fill(ns0, {x} + R0, e)
    requires FillOutcome(ns2, ns3, R1, e, ok)
    ensures FillOutcome(ns0, ns3, {x} + R0 + R1, e, ok)
  {
    SameShapeTrans(ns0, ns2, ns3);
    SameOutsideTrans(ns0, ns2, ns3, {x} + R0, R1, {x} + R0 + R1);
    NoTipInShape(ns0, ns2, R1);
    NoTipInUnion(ns0, {x} + R0, R1);
    NoTipInUnion(ns0, {x}, R0);
    if ok {
      FillUnion(ns0, {x} + R0, R1, e);
    }
  }

  /** The loop over the two children of a node fillDownTree has just
    * assigned, stopping at the first failure. */
  method FillChildren(a: array<NodeState>, x: int, e: int, ghost d: nat, ghost ns0: seq<NodeState>) returns (ok: bool)
    requires Downward(ns0) && Acyclic(ns0) && 0 <= x < |ns0| && Up(ns0, x, d) != -1
    requires Unassigned(ns0, x) && !IsLeaf(ns0[x])
    requires a[..] == Fill(ns0, {x}, e)
    modifies a
    ensures FillOutcome(ns0, a[..], Region(ns0, x, d), e, ok)
    decreases a.Length - d, 0
  {
    ghost var ns1 := a[..];
    var node := a[x];
    assert node == ns1[x];
    ghost var g0, g1 := FirstCallReady(ns0, ns1, x, d, e);
    var c0 := node.children[0];
    var c1 := node.children[1];
    assert c0 == g0 && c1 == g1;
    ghost var R0 := Region(ns0, c0, d + 1);
    ghost var R1 := Region(ns0, c1, d + 1);
    ok := FillDownTree(a, c0, e, d + 1);
    ghost var ns2 := a[..];
    if !ok {
      FirstCallFailed(ns0, ns1, ns2, x, R0, R1, e);
      return;
    }
    SecondCallReady(ns0, ns1, ns2, x, d, e, c0, c1);
    ok := FillDownTree(a, c1, e, d + 1);
    SecondCallDone(ns0, ns2, a[..], x, R0, R1, e, ok);
  }

  /** Element e is forced on node by the topology: node descends from e's
    * MRCA and some tip of e descends from node. `descends(y, z)` says that
    * y is a descendant of z. */
  ghost predicate Forces(ns: seq<NodeState>, node: int, mrca: seq<int>, descends: (int, int) -> bool, e: int)
    requires 0 <= e < |mrca|
  {
    descends(node, mrca[e]) && exists t :: t in PartitionedTrees.NodesWith(ns, e, true) && descends(t, node)
  }

  /** The elements among the first k that the topology forces, in element order. */
  ghost function Forcing(ns: seq<NodeState>, node: int, mrca: seq<int>, descends: (int, int) -> bool, k: nat): (f: seq<int>)
    requires k <= |mrca|
    ensures forall e :: e in f <==> 0 <= e < k && Forces(ns, node, mrca, descends, e)
    ensures forall i, j :: 0 <= i < j < |f| ==> f[i] < f[j]
  {
    if k == 0 then []
    else
      var earlier := Forcing(ns, node, mrca, descends, k - 1);
      assert forall i :: 0 <= i < |earlier| ==> earlier[i] in earlier;
      earlier + (if Forces(ns, node, mrca, descends, k - 1) then [k - 1] else [])
  }

  /** More than one forced element means two elements each claim the node. */
  lemma {:induction false} IncompatibleMeans(ns: seq<NodeState>, node: int, mrca: seq<int>, descends: (int, int) -> bool)
    ensures |Forcing(ns, node, mrca, descends, |mrca|)| > 1 <==>
      exists e0, e1 :: 0 <= e0 < e1 < |mrca| && Forces(ns, node, mrca, descends, e0) && Forces(ns, node, mrca, descends, e1)
  {
    var f := Forcing(ns, node, mrca, descends, |mrca|);
    if |f| > 1 {
      assert f[0] in f && f[1] in f && f[0] < f[1];
      assert 0 <= f[0] < f[1] < |mrca|;
      assert Forces(ns, node, mrca, descends, f[0]) && Forces(ns, node, mrca, descends, f[1]);
    }
    if exists e0, e1 :: 0 <= e0 < e1 < |mrca| && Forces(ns, node, mrca, descends, e0) && Forces(ns, node, mrca, descends, e1) {
      var e0, e1 :| 0 <= e0 < e1 < |mrca| && Forces(ns, node, mrca, descends, e0) && Forces(ns, node, mrca, descends, e1);
      assert e0 in f && e1 in f;
      var i0 :| 0 <= i0 < |f| && f[i0] == e0;
      var i1 :| 0 <= i1 < |f| && f[i1] == e1;
      assert i0 != i1;
    }
  }

  /** The loop of randomlyAssignNode that lists, in element order and each
    * once, the elements whose tips force the node. */
  method ForcedByTopology(a: array<NodeState>, node: int, mrca: seq<int>, descends: (int, int) -> bool) returns (forced: seq<int>)
    ensures forced == Forcing(a[..], node, mrca, descends, |mrca|)
  {
    forced := [];
    for e := 0 to |mrca|
      invariant forced == Forcing(a[..], node, mrca, descends, e)
    {
      var m := mrca[e];
      var caseTips := PartitionedTrees.NodesWith(a[..], e, true);
      var rest := caseTips;
      ghost var hit := false;
      while rest != {}
        invariant rest <= caseTips
        invariant hit <==> exists t :: t in caseTips - rest && descends(node, m) && descends(t, node)
        invariant forced == Forcing(a[..], node, mrca, descends, e) + (if hit then [e] else [])
        decreases rest
      {
        var t :| t in rest;
        if descends(node, m) && descends(t, node) {
          if e !in forced {
            forced := forced + [e];
          }
          hit := true;
        }
        rest := rest - {t};
      }
      assert hit <==> Forces(a[..], node, mrca, descends, e);
    }
  }

  /** The outcome of randomlyAssignNode's deterministic first step. */
  datatype Assignment = TipElement(element: int) | ForcedTo(element: int) | Unforced

  /** The deterministic first step of randomlyAssignNode: a tip reports its
    * element; an internal node that two elements force is an incompatible
    * starting tree; one that exactly one element forces takes it. */
  method AssignByTopology(a: array<NodeState>, node: int, mrca: seq<int>, descends: (int, int) -> bool) returns (r: Result<Assignment>)
    requires 0 <= node < a.Length
    modifies a
    ensures IsLeaf(old(a[node])) ==> r == Ok(TipElement(old(a[node]).element)) && a[..] == old(a[..])
    ensures !IsLeaf(old(a[node])) ==>
      var f := Forcing(old(a[..]), node, mrca, descends, |mrca|);
      (|f| > 1 ==> r.Err? && a[..] == old(a[..])) &&
      (|f| == 1 ==> r == Ok(ForcedTo(f[0])) && a[..] == old(a[..])[node := old(a[node]).(element := f[0])]) &&
      (|f| == 0 ==> r == Ok(Unforced) && a[..] == old(a[..]))
  {
    if IsLeaf(a[node]) {
      return Ok(TipElement(a[node].element));
    }
    var forced := ForcedByTopology(a, node, mrca, descends);
    if |forced| > 1 {
      r := Err("Starting phylogeny is incompatible with this tip partition");
    } else if |forced| == 1 {
      a[node] := a[node].(element := forced[0]);
      r := Ok(ForcedTo(forced[0]));
    } else {
      r := Ok(Unforced);
    }
  }

  /** The choice randomlyAssignNode makes at an unforced node from what its
    * two children offered and the random draw: at the root the draw picks
    * a child and an empty pick falls over to the other child; elsewhere
    * draw 0 or 1 picks a child and draw 2 defers to the parent. */
  function Winner(c0: Option<int>, c1: Option<int>, selection: nat, isRoot: bool): (w: Option<int>)
    ensures w.Some? ==> w == c0 || w == c1
    ensures isRoot && selection < 2 && (c0.Some? || c1.Some?) ==> w.Some?
    ensures selection < 2 && (if selection == 0 then c0 else c1).Some? ==> w == (if selection == 0 then c0 else c1)
    ensures !isRoot && selection >= 2 ==> w.None?
  {
    var pick := if selection == 0 then c0 else if selection == 1 then c1 else None;
    if isRoot && pick.None? then (if selection == 0 then c1 else c0) else pick
  }

  /** The last step of randomlyAssignNode at an unforced node: the winner is
    * filled down from the node; a missing pick clears the node's element;
    * deferring to the parent leaves everything alone. */
  method SettleUnforced(a: array<NodeState>, x: int, c0: Option<int>, c1: Option<int>, selection: nat, allowCreep: bool) returns (r: Result<Option<int>>)
    requires Downward(a[..]) && Acyclic(a[..]) && 0 <= x < a.Length
    requires a[x].parent == -1 ==> selection < 2 && (c0.Some? || c1.Some?)
    requires a[x].parent != -1 ==> selection < (if allowCreep then 3 else 2)
    modifies a
    ensures var w := Winner(c0, c1, selection, old(a[x]).parent == -1);
      var R := Region(old(a[..]), x, 0);
      w.Some? ==> (r.Ok? <==> NoTipIn(old(a[..]), R)) && (r.Ok? ==> r.value == w && a[..] == Fill(old(a[..]), R, w.value))
    ensures Winner(c0, c1, selection, old(a[x]).parent == -1).None? ==> r == Ok(None)
    ensures Winner(c0, c1, selection, old(a[x]).parent == -1).None? && selection < 2 ==>
      a[..] == old(a[..])[x := old(a[x]).(element := -1)]
    ensures selection == 2 ==> a[..] == old(a[..])
  {
    var isRoot := a[x].parent == -1;
    var w := Winner(c0, c1, selection, isRoot);
    if selection == 2 {
      r := Ok(None);
    } else if w.Some? {
      var ok := FillDownTree(a, x, w.value, 0);
      if ok {
        r := Ok(w);
      } else {
        r := Err("fillDownTree reached an unassigned tip");
      }
    } else {
      a[x] := a[x].(element := -1);
      r := Ok(None);
    }
  }
}
