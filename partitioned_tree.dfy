/**
 * The partitioned tree itself: the node array and its stored copy, the
 * element list, the partition-rule flag, and the tree-level queries and
 * checks (height validity, partition integrity, blocked roots, the nodes
 * of one element) together with `store`.
 */
module PartitionedTrees {
  import opened TreeCore
  import ElementList
  import Decimal

  /** The partition rules a tree can be declared with. */
  datatype Rules = Cottam | Didelot | SecondType | ThirdType

  /** Some child of x carries x's element. */
  predicate HasSameElementChild(ns: seq<NodeState>, x: int)
    requires Linked(ns) && 0 <= x < |ns|
  {
    exists k :: 0 <= k < |ns[x].children| && ns[ns[x].children[k]].element == ns[x].element
  }

  /** x has a parent and the parent carries x's element. */
  predicate ParentSameElement(ns: seq<NodeState>, x: int)
    requires ParentsInRange(ns) && 0 <= x < |ns|
  {
    ns[x].parent != -1 && ns[ns[x].parent].element == ns[x].element
  }

  /** No child of y is strictly higher than y. */
  predicate ChildrenNotHigher(ns: seq<NodeState>, y: int)
    requires Linked(ns) && 0 <= y < |ns|
  {
    forall k :: 0 <= k < |ns[y].children| ==> ns[ns[y].children[k]].height <= ns[y].height
  }

  /** timesAreValid: recursively, no child is higher than its parent.  The fuel
    * bounds the depth of the recursion. */
  function TimesAreValid(ns: seq<NodeState>, x: int, fuel: nat): (r: bool)
    requires Linked(ns) && 0 <= x < |ns|
    ensures IsLeaf(ns[x]) ==> r
    ensures r && fuel > 0 ==> ChildrenNotHigher(ns, x)
    decreases fuel
  {
    fuel == 0 ||
    forall k :: 0 <= k < |ns[x].children| ==>
      ns[ns[x].children[k]].height <= ns[x].height && TimesAreValid(ns, ns[x].children[k], fuel - 1)
  }

  /** Every node less than `fuel` levels below x keeps its children no higher than itself. */
  ghost predicate OrderedBelow(ns: seq<NodeState>, x: int, fuel: nat)
    requires Linked(ns)
  {
    forall y, k: nat :: 0 <= y < |ns| && k < fuel && Up(ns, y, k) == x ==> ChildrenNotHigher(ns, y)
  }

  lemma TimesAreValidMeans(ns: seq<NodeState>, x: int, fuel: nat)
    requires Linked(ns) && 0 <= x < |ns|
    ensures TimesAreValid(ns, x, fuel) <==> OrderedBelow(ns, x, fuel)
  {
    if TimesAreValid(ns, x, fuel) {
      ValidTimesOrdered(ns, x, fuel);
    }
    if OrderedBelow(ns, x, fuel) {
      OrderedTimesValid(ns, x, fuel);
    }
  }

  lemma {:induction false} ValidTimesOrdered(ns: seq<NodeState>, x: int, fuel: nat)
    requires Linked(ns) && 0 <= x < |ns| && TimesAreValid(ns, x, fuel)
    ensures OrderedBelow(ns, x, fuel)
    decreases fuel
  {
    forall y, k: nat | 0 <= y < |ns| && k < fuel && Up(ns, y, k) == x
      ensures ChildrenNotHigher(ns, y)
    {
      if k > 0 {
        var c := Up(ns, y, k - 1);
        UpAdd(ns, y, k - 1, 1);
        assert c in ns[x].children;
        var j :| 0 <= j < |ns[x].children| && ns[x].children[j] == c;
        ValidTimesOrdered(ns, c, fuel - 1);
      }
    }
  }

  lemma {:induction false} OrderedTimesValid(ns: seq<NodeState>, x: int, fuel: nat)
    requires Linked(ns) && 0 <= x < |ns| && OrderedBelow(ns, x, fuel)
    ensures TimesAreValid(ns, x, fuel)
    decreases fuel
  {
    if fuel > 0 {
      forall j | 0 <= j < |ns[x].children|
        ensures TimesAreValid(ns, ns[x].children[j], fuel - 1)
      {
        var c := ns[x].children[j];
        forall y, k: nat | 0 <= y < |ns| && k < fuel - 1 && Up(ns, y, k) == c
          ensures ChildrenNotHigher(ns, y)
        {
          UpAdd(ns, y, k, 1);
          assert Up(ns, y, k + 1) == x;
        }
        OrderedTimesValid(ns, c, fuel - 1);
      }
      assert Up(ns, x, 0) == x;
    }
  }

  /** In a tree every node reaches the root in fewer than |ns| steps. */
  lemma ReachesRoot(ns: seq<NodeState>, root: int, y: int) returns (k: nat)
    requires Tree(ns, root) && 0 <= y < |ns|
    ensures k < |ns| && Up(ns, y, k) == root
  {
    k := 0;
    while ns[Up(ns, y, k)].parent != -1
      invariant k < |ns| && 0 <= Up(ns, y, k) < |ns|
      decreases |ns| - k
    {
      UpAdd(ns, y, k, 1);
      UpInRange(ns, y, k + 1);
      UpDefinedBelow(ns, y, k + 1);
      k := k + 1;
    }
  }

  /** Following first children from the root k times, when no node were a leaf. */
  lemma {:induction false} DescendFromRoot(ns: seq<NodeState>, root: int, k: nat) returns (x: int)
    requires Tree(ns, root) && forall y :: 0 <= y < |ns| ==> !IsLeaf(ns[y])
    ensures 0 <= x < |ns| && Up(ns, x, k) == root
  {
    if k == 0 {
      x := root;
    } else {
      var y := DescendFromRoot(ns, root, k - 1);
      x := ns[y].children[0];
      UpAdd(ns, x, 1, k - 1);
    }
  }

  /** Every tree has a leaf. */
  lemma ExistsLeaf(ns: seq<NodeState>, root: int) returns (x: int)
    requires Tree(ns, root)
    ensures 0 <= x < |ns| && IsLeaf(ns[x])
  {
    if forall y :: 0 <= y < |ns| ==> !IsLeaf(ns[y]) {
      var z := DescendFromRoot(ns, root, |ns|);
      assert false;
    }
    x :| 0 <= x < |ns| && IsLeaf(ns[x]);
  }

  /** Partition integrity as evidently intended: every internal node shares its
    * element with a child, or (only when creep is allowed, and never for the
    * root) with its parent; tips need no partner. */
  predicate IntendedIntegrity(ns: seq<NodeState>, root: int, allowCreep: bool)
    requires Linked(ns)
  {
    forall x :: 0 <= x < |ns| ==> IntendedAt(ns, root, allowCreep, x)
  }

  /** The intended rule at one node. */
  predicate IntendedAt(ns: seq<NodeState>, root: int, allowCreep: bool, x: int)
    requires Linked(ns) && 0 <= x < |ns|
  {
    IsLeaf(ns[x]) || HasSameElementChild(ns, x) || (allowCreep && x != root && ParentSameElement(ns, x))
  }

  /** Under the intended rule without creep, every node's element reaches down
    * to a tip of that element in its subtree. */
  lemma IntegrityGivesTip(ns: seq<NodeState>, root: int, x: int) returns (tip: int, k: nat)
    requires Tree(ns, root) && IntendedIntegrity(ns, root, false) && 0 <= x < |ns|
    ensures 0 <= tip < |ns| && IsLeaf(ns[tip]) && Up(ns, tip, k) == x
    ensures ns[tip].element == ns[x].element
  {
    tip, k := x, 0;
    while !IsLeaf(ns[tip])
      invariant 0 <= tip < |ns| && Up(ns, tip, k) == x && ns[tip].element == ns[x].element
      invariant k < |ns|
      decreases |ns| - k
    {
      assert IntendedAt(ns, root, false, tip);
      var j :| 0 <= j < |ns[tip].children| && ns[ns[tip].children[j]].element == ns[tip].element;
      var c := ns[tip].children[j];
      UpAdd(ns, c, 1, k);
      UpDefinedBelow(ns, c, k + 1);
      tip, k := c, k + 1;
    }
  }

  /** There is always a node the as-written integrity check rejects: any tip. */
  lemma SomeNodeLacksSameElementChild(ns: seq<NodeState>, root: int) returns (x: int)
    requires Tree(ns, root)
    ensures 0 <= x < |ns| && !HasSameElementChild(ns, x)
  {
    x := ExistsLeaf(ns, root);
  }

  /** A three-node tree: a root of element 0 over tips of elements 0 and 1. */
  function Example(): seq<NodeState>
  {
    [NodeState(0.0, 2, [], 0, -1, false),
     NodeState(0.0, 2, [], 1, -1, false),
     NodeState(1.0, -1, [0, 1], 0, -1, false)]
  }

  lemma ExampleLinked()
    ensures Linked(Example())
  {
    var ns := Example();
    forall x | 0 <= x < |ns| ensures Binary(ns[x]) && -1 <= ns[x].parent < |ns| {
      assert x == 0 || x == 1 || x == 2;
    }
    forall x, k | 0 <= x < |ns| && 0 <= k < |ns[x].children|
      ensures 0 <= ns[x].children[k] < |ns| && ns[ns[x].children[k]].parent == x
    {
      assert x == 2 && (k == 0 || k == 1);
    }
    forall x | 0 <= x < |ns| && ns[x].parent != -1 ensures x in ns[ns[x].parent].children {
      assert ns[2].children == [0, 1];
    }
  }

  lemma ExampleIsTree()
    ensures Tree(Example(), 2)
  {
    var ns := Example();
    ExampleLinked();
    forall x | 0 <= x < |ns| ensures Up(ns, x, |ns|) == -1 {
      assert Up(ns, 2, 3) == -1;
      assert Up(ns, 0, 3) == -1;
      assert Up(ns, 1, 3) == -1;
    }
  }

  /** The example obeys the partition rules, yet the as-written check cannot
    * accept it: tip 0 has no child of its element. */
  lemma IntegrityCounterexample()
    ensures Tree(Example(), 2) && IntendedIntegrity(Example(), 2, false)
    ensures !HasSameElementChild(Example(), 0)
  {
    var ns := Example();
    ExampleIsTree();
    assert ns[ns[2].children[0]].element == ns[2].element;
    forall x | 0 <= x < |ns| ensures IsLeaf(ns[x]) || HasSameElementChild(ns, x) {
      assert x == 0 || x == 1 || x == 2;
    }
  }

  /** isRootBlockedBy: walking strictly upward from e's MRCA meets b's MRCA
    * (a null MRCA, -1, is met when the walk leaves the root). */
  ghost predicate RootBlockedBy(ns: seq<NodeState>, mrcaE: int, mrcaB: int)
  {
    mrcaE != -1 && exists k: nat :: 1 <= k <= |ns| && Up(ns, mrcaE, k) == mrcaB
  }

  /** A non-null MRCA never blocks itself. */
  lemma NotBlockedBySelf(ns: seq<NodeState>, m: int)
    requires Acyclic(ns) && 0 <= m < |ns|
    ensures !RootBlockedBy(ns, m, m)
  {
    forall k: nat | 1 <= k <= |ns| ensures Up(ns, m, k) != m {
      UpDistinct(ns, m, 0, k);
    }
  }

  /** Sets of node numbers built by the element queries. */
  function NodesWith(ns: seq<NodeState>, elementNo: int, tipsOnly: bool): set<int>
  {
    set x | 0 <= x < |ns| && ns[x].element == elementNo && (!tipsOnly || IsLeaf(ns[x]))
  }

  /** What `store` writes into a stored node from the live node: height,
    * parent (none for the root), children (a live tip leaves the stored
    * node's children alone), cache index and element. */
  function StoredFrom(sink: NodeState, src: NodeState, isRoot: bool): NodeState
  {
    sink.(height := src.height,
          parent := if isRoot then -1 else src.parent,
          children := if isRoot || !IsLeaf(src) then src.children else sink.children,
          cacheIndex := src.cacheIndex,
          element := src.element)
  }

  /** The whole stored array after a store, from its previous contents. */
  function StoredArray(before: seq<NodeState>, ns: seq<NodeState>, root: int): (st: seq<NodeState>)
    requires |before| == |ns|
    ensures |st| == |ns|
  {
    seq(|ns|, i requires 0 <= i < |ns| => StoredFrom(before[i], ns[i], i == root))
  }

  /** After a store the stored array is the same tree as the live one. */
  lemma StoredIsSameTree(ns: seq<NodeState>, before: seq<NodeState>, root: int)
    requires Tree(ns, root) && |before| == |ns|
    requires forall x :: 0 <= x < |ns| && IsLeaf(ns[x]) ==> IsLeaf(before[x])
    ensures var st := StoredArray(before, ns, root);
      (forall x :: 0 <= x < |ns| ==>
         st[x].parent == ns[x].parent && st[x].children == ns[x].children &&
         st[x].height == ns[x].height && st[x].element == ns[x].element &&
         st[x].cacheIndex == ns[x].cacheIndex) &&
      Tree(st, root)
  {
    var st := StoredArray(before, ns, root);
    assert SameShape(st, ns);
    SameShapeTree(st, ns, root);
  }

  // ---------------------------------------------------------------------
  // Numbering the internal nodes

  /** The internal nodes of x's subtree in post-order: the left child's
    * subtree, the right child's, then x.  d only bounds the recursion: x is
    * still inside the tree d steps up. */
  function PostOrderInternal(ns: seq<NodeState>, x: int, d: nat): (post: seq<int>)
    requires Downward(ns) && Acyclic(ns) && 0 <= x < |ns| && Up(ns, x, d) != -1
    ensures forall i :: 0 <= i < |post| ==> 0 <= post[i] < |ns|
    decreases |ns| - d
  {
    UpDefinedBelow(ns, x, d);
    if IsLeaf(ns[x]) then []
    else
      assert Binary(ns[x]);
      var c0 := ns[x].children[0];
      var c1 := ns[x].children[1];
      UpAdd(ns, c0, 1, d);
      UpAdd(ns, c1, 1, d);
      PostOrderInternal(ns, c0, d + 1) + PostOrderInternal(ns, c1, d + 1) + [x]
  }

  /** Node y lies in x's subtree. */
  ghost predicate Below(ns: seq<NodeState>, y: int, x: int)
  {
    exists k: nat :: Up(ns, y, k) == x
  }

  /** The post-order lists internal nodes of x's subtree only. */
  lemma {:induction false} PostOrderSound(ns: seq<NodeState>, x: int, d: nat)
    requires Downward(ns) && Acyclic(ns) && 0 <= x < |ns| && Up(ns, x, d) != -1
    ensures forall y :: y in PostOrderInternal(ns, x, d) ==> 0 <= y < |ns| && !IsLeaf(ns[y]) && Below(ns, y, x)
    decreases |ns| - d
  {
    UpDefinedBelow(ns, x, d);
    if !IsLeaf(ns[x]) {
      var c0, c1 := PostOrderUnfold(ns, x, d);
      var p0 := PostOrderInternal(ns, c0, d + 1);
      var p1 := PostOrderInternal(ns, c1, d + 1);
      PostOrderSound(ns, c0, d + 1);
      ListBelowChild(ns, x, c0, p0);
      PostOrderSound(ns, c1, d + 1);
      ListBelowChild(ns, x, c1, p1);
      assert Below(ns, x, x) by {
        assert Up(ns, x, 0) == x;
      }
      assert PostOrderInternal(ns, x, d) == p0 + p1 + [x];
    }
  }

  /** Nodes below a child of x are below x. */
  lemma ListBelowChild(ns: seq<NodeState>, x: int, c: int, p: seq<int>)
    requires 0 <= c < |ns| && ns[c].parent == x
    requires forall y :: y in p ==> 0 <= y < |ns| && !IsLeaf(ns[y]) && Below(ns, y, c)
    ensures forall y :: y in p ==> 0 <= y < |ns| && !IsLeaf(ns[y]) && Below(ns, y, x)
  {
    forall y | y in p ensures Below(ns, y, x) {
      BelowChild(ns, x, c, y);
    }
  }

  /** An internal node is numbered after its whole subtree: it comes last. */
  lemma PostOrderLast(ns: seq<NodeState>, x: int, d: nat)
    requires Downward(ns) && Acyclic(ns) && 0 <= x < |ns| && Up(ns, x, d) != -1 && !IsLeaf(ns[x])
    ensures var post := PostOrderInternal(ns, x, d); |post| > 0 && post[|post| - 1] == x
  {
    var c0, c1 := PostOrderUnfold(ns, x, d);
  }

  /** One level of the post-order: the two children, still inside the tree
    * one step further down, and their lists followed by x. */
  lemma PostOrderUnfold(ns: seq<NodeState>, x: int, d: nat) returns (c0: int, c1: int)
    requires Downward(ns) && Acyclic(ns) && 0 <= x < |ns| && Up(ns, x, d) != -1 && !IsLeaf(ns[x])
    ensures ns[x].children == [c0, c1] && c0 != c1
    ensures 0 <= c0 < |ns| && 0 <= c1 < |ns| && ns[c0].parent == x && ns[c1].parent == x
    ensures Up(ns, c0, d + 1) != -1 && Up(ns, c1, d + 1) != -1
    ensures PostOrderInternal(ns, x, d) ==
      PostOrderInternal(ns, c0, d + 1) + PostOrderInternal(ns, c1, d + 1) + [x]
  {
    assert Binary(ns[x]);
    c0, c1 := ns[x].children[0], ns[x].children[1];
    UpAdd(ns, c0, 1, d);
    UpAdd(ns, c1, 1, d);
  }

  /** Every internal node of x's subtree is listed. */
  lemma {:induction false} PostOrderComplete(ns: seq<NodeState>, x: int, d: nat, y: int, k: nat)
    requires Linked(ns) && Acyclic(ns) && 0 <= x < |ns| && Up(ns, x, d) != -1
    requires 0 <= y < |ns| && !IsLeaf(ns[y]) && Up(ns, y, k) == x
    ensures y in PostOrderInternal(ns, x, d)
    decreases k
  {
    UpDefinedBelow(ns, x, d);
    if k == 0 {
      PostOrderLast(ns, x, d);
    } else {
      var c := Up(ns, y, k - 1);
      UpAdd(ns, y, k - 1, 1);
      UpInRange(ns, y, k - 1);
      assert c != -1 && ns[c].parent == x;
      assert c in ns[x].children;
      var c0, c1 := PostOrderUnfold(ns, x, d);
      var p0, p1 := PostOrderInternal(ns, c0, d + 1), PostOrderInternal(ns, c1, d + 1);
      PostOrderComplete(ns, c, d + 1, y, k - 1);
      assert c == c0 || c == c1;
      assert PostOrderInternal(ns, x, d) == p0 + p1 + [x];
    }
  }

  /** No node is listed twice: the two children's subtrees are disjoint and
    * neither contains x. */
  lemma {:induction false} PostOrderDistinct(ns: seq<NodeState>, x: int, d: nat)
    requires Downward(ns) && Acyclic(ns) && 0 <= x < |ns| && Up(ns, x, d) != -1
    ensures var post := PostOrderInternal(ns, x, d);
      forall i, j :: 0 <= i < j < |post| ==> post[i] != post[j]
    decreases |ns| - d
  {
    UpDefinedBelow(ns, x, d);
    if !IsLeaf(ns[x]) {
      var c0, c1 := PostOrderSplit(ns, x, d);
      PostOrderDistinct(ns, c0, d + 1);
      PostOrderDistinct(ns, c1, d + 1);
      DistinctConcat(PostOrderInternal(ns, c0, d + 1), PostOrderInternal(ns, c1, d + 1), x);
    }
  }

  /** The two children's lists share no node and neither holds x. */
  lemma PostOrderSplit(ns: seq<NodeState>, x: int, d: nat) returns (c0: int, c1: int)
    requires Downward(ns) && Acyclic(ns) && 0 <= x < |ns| && Up(ns, x, d) != -1 && !IsLeaf(ns[x])
    ensures ns[x].children == [c0, c1] && 0 <= c0 < |ns| && 0 <= c1 < |ns|
    ensures Up(ns, c0, d + 1) != -1 && Up(ns, c1, d + 1) != -1
    ensures var p0 := PostOrderInternal(ns, c0, d + 1);
      var p1 := PostOrderInternal(ns, c1, d + 1);
      PostOrderInternal(ns, x, d) == p0 + p1 + [x] &&
      (forall y :: y in p0 ==> y !in p1 && y != x) && x !in p1
  {
    c0, c1 := PostOrderUnfold(ns, x, d);
    var p0 := PostOrderInternal(ns, c0, d + 1);
    var p1 := PostOrderInternal(ns, c1, d + 1);
    PostOrderSound(ns, c0, d + 1);
    PostOrderSound(ns, c1, d + 1);
    forall y | y in p0 ensures y !in p1 && y != x {
      SubtreesDisjoint(ns, x, c0, c1, y);
      NotBelowChild(ns, x, c0);
    }
    NotBelowChild(ns, x, c1);
  }

  /** Joining two repetition-free lists with no common member, then a new one. */
  lemma DistinctConcat(p0: seq<int>, p1: seq<int>, x: int)
    requires forall i, j :: 0 <= i < j < |p0| ==> p0[i] != p0[j]
    requires forall i, j :: 0 <= i < j < |p1| ==> p1[i] != p1[j]
    requires (forall y :: y in p0 ==> y !in p1 && y != x) && x !in p1
    ensures var s := p0 + p1 + [x]; forall i, j :: 0 <= i < j < |s| ==> s[i] != s[j]
  {
    var s := p0 + p1 + [x];
    forall i, j | 0 <= i < j < |s| ensures s[i] != s[j] {
      if j < |p0| {
      } else if i < |p0| {
        assert s[i] in p0;
        if j < |p0| + |p1| { assert s[j] == p1[j - |p0|]; }
      } else if j < |p0| + |p1| {
        assert s[i] == p1[i - |p0|] && s[j] == p1[j - |p0|];
      } else {
        assert s[i] == p1[i - |p0|];
      }
    }
  }

  /** A parent is not in its child's subtree. */
  lemma NotBelowChild(ns: seq<NodeState>, x: int, c: int)
    requires Acyclic(ns) && 0 <= c < |ns| && ns[c].parent == x && 0 <= x < |ns|
    ensures !Below(ns, x, c)
  {
    forall k: nat ensures Up(ns, x, k) != c {
      ChildNotAbove(ns, c, k);
    }
  }

  /** A walk up from y that meets one child of x never meets its sibling. */
  lemma SiblingChains(ns: seq<NodeState>, x: int, c0: int, c1: int, y: int, a: nat, b: nat)
    requires Acyclic(ns) && 0 <= x < |ns| && 0 <= c0 < |ns| && 0 <= c1 < |ns| && c0 != c1
    requires ns[c0].parent == x && ns[c1].parent == x && Up(ns, y, a) == c0
    ensures Up(ns, y, b) != c1
  {
    UpOne(ns, c0);
    UpOne(ns, c1);
    if a <= b {
      UpAdd(ns, y, a, b - a);
      if b > a {
        UpAdd(ns, c0, b - a, 1);
        UpDistinct(ns, c0, 1, b - a + 1);
      }
    } else {
      UpAdd(ns, y, b, a - b);
      UpAdd(ns, c1, a - b, 1);
      UpDistinct(ns, c1, 1, a - b + 1);
    }
  }

  /** The subtrees of two distinct children of x share no node. */
  lemma SubtreesDisjoint(ns: seq<NodeState>, x: int, c0: int, c1: int, y: int)
    requires Acyclic(ns) && 0 <= x < |ns| && 0 <= c0 < |ns| && 0 <= c1 < |ns| && c0 != c1
    requires ns[c0].parent == x && ns[c1].parent == x
    ensures !(Below(ns, y, c0) && Below(ns, y, c1))
  {
    if Below(ns, y, c0) {
      var a: nat :| Up(ns, y, a) == c0;
      forall b: nat ensures Up(ns, y, b) != c1 {
        SiblingChains(ns, x, c0, c1, y, a, b);
      }
    }
  }

  /** The subtree of a child lies in the parent's subtree. */
  lemma BelowChild(ns: seq<NodeState>, x: int, c: int, y: int)
    requires 0 <= c < |ns| && ns[c].parent == x && Below(ns, y, c)
    ensures Below(ns, y, x)
  {
    var k: nat :| Up(ns, y, k) == c;
    UpAdd(ns, y, k, 1);
    UpOne(ns, c);
  }

  /** A node's number and its ID string. */
  datatype Label = Label(nr: int, id: string)

  /** The label numbering writes: the number and its decimal text. */
  function LabelFor(nr: int): Label
  {
    Label(nr, Decimal.IntToString(nr))
  }

  /** From `before` to `after`, the listed nodes get the labels for nextNr,
    * nextNr + 1, ... in list order, and every other node keeps its label. */
  ghost predicate Renumbered(before: seq<Label>, after: seq<Label>, post: seq<int>, nextNr: int)
  {
    |after| == |before| &&
    (forall i :: 0 <= i < |post| ==> 0 <= post[i] < |after| && after[post[i]] == LabelFor(nextNr + i)) &&
    (forall y :: 0 <= y < |before| && y !in post ==> after[y] == before[y])
  }

  /** Numbering the left subtree, then the right one, then x numbers the
    * whole post-order list. */
  lemma RenumberingComposes(l0: seq<Label>, l1: seq<Label>, l2: seq<Label>, p0: seq<int>, p1: seq<int>, x: int, nextNr: int, n0: int, n1: int)
    requires n0 == nextNr + |p0| && n1 == n0 + |p1|
    requires Renumbered(l0, l1, p0, nextNr) && Renumbered(l1, l2, p1, n0) && 0 <= x < |l2|
    requires (forall y :: y in p0 ==> y !in p1 && y != x) && x !in p1
    ensures Renumbered(l0, l2[x := LabelFor(n1)], p0 + p1 + [x], nextNr)
  {
    var post := p0 + p1 + [x];
    var l3 := l2[x := LabelFor(n1)];
    forall i | 0 <= i < |post|
      ensures 0 <= post[i] < |l3| && l3[post[i]] == LabelFor(nextNr + i)
    {
      if i < |p0| {
        assert post[i] == p0[i] && p0[i] in p0;
      } else if i < |p0| + |p1| {
        assert post[i] == p1[i - |p0|] && p1[i - |p0|] in p1;
      }
    }
  }

  /** node.setNr(nr) and node.setID(String.valueOf(nr)). */
  method SetNumber(labels: array<Label>, x: int, nr: int)
    requires 0 <= x < labels.Length
    modifies labels
    ensures labels[..] == old(labels[..])[x := LabelFor(nr)]
  {
    labels[x] := LabelFor(nr);
  }

  /** The recursion of numberInternalNodes over the node records; the loop
    * over the children is written out for the two children of a bifurcating
    * node. */
  method NumberSubtree(ns: seq<NodeState>, x: int, nextNr: int, ghost d: nat, labels: array<Label>)
    returns (next: int)
    requires Downward(ns) && Acyclic(ns) && 0 <= x < |ns| && Up(ns, x, d) != -1
    requires labels.Length == |ns|
    modifies labels
    decreases |ns| - d
    ensures var post := PostOrderInternal(ns, x, d);
      next == nextNr + |post| && Renumbered(old(labels[..]), labels[..], post, nextNr)
  {
    ghost var l0 := labels[..];
    UpDefinedBelow(ns, x, d);
    if IsLeaf(ns[x]) {
      return nextNr;
    }
    ghost var c0, c1 := PostOrderSplit(ns, x, d);
    ghost var p0, p1 := PostOrderInternal(ns, c0, d + 1), PostOrderInternal(ns, c1, d + 1);
    var n0 := NumberSubtree(ns, ns[x].children[0], nextNr, d + 1, labels);
    ghost var l1 := labels[..];
    assert n0 == nextNr + |p0| && Renumbered(l0, l1, p0, nextNr);
    var n1 := NumberSubtree(ns, ns[x].children[1], n0, d + 1, labels);
    ghost var l2 := labels[..];
    assert n1 == n0 + |p1| && Renumbered(l1, l2, p1, n0);
    SetNumber(labels, x, n1);
    next := n1 + 1;
    ghost var post := PostOrderInternal(ns, x, d);
    assert post == p0 + p1 + [x];
    RenumberingComposes(l0, l1, l2, p0, p1, x, nextNr, n0, n1);
  }

  class PartitionedTree {
    var nodes: array<NodeState>
    var root: int
    var storedNodes: array<NodeState>
    var storedRoot: int
    var elementList: seq<string>
    /** A boxed Boolean: None is Java's null. */
    var allowCreep: Option<bool>
    var rules: Rules

    ghost predicate Valid()
      reads this, nodes
    {
      Tree(nodes[..], root) && nodes != storedNodes && storedNodes.Length == nodes.Length
    }

    /** A tree over the given nodes; the stored array starts as a copy of the
      * live one (initArrays). */
    constructor (ns: seq<NodeState>, r: int, elements: seq<string>, creep: Option<bool>, rs: Rules)
      requires Tree(ns, r)
      ensures Valid() && fresh(nodes) && fresh(storedNodes)
      ensures nodes[..] == ns && storedNodes[..] == ns && root == r && storedRoot == r
      ensures elementList == elements && allowCreep == creep && rules == rs
    {
      nodes := new NodeState[|ns|](i requires 0 <= i < |ns| => ns[i]);
      storedNodes := new NodeState[|ns|](i requires 0 <= i < |ns| => ns[i]);
      root, storedRoot := r, r;
      elementList, allowCreep, rules := elements, creep, rs;
      new;
      assert nodes[..] == ns;
    }

    /** processTraits: the element list becomes the sorted distinct trait values. */
    method ProcessTraits(traitValues: seq<string>)
      modifies this
      ensures ElementList.StrictlySorted(elementList)
      ensures forall v :: v in elementList <==> v in traitValues
      ensures nodes == old(nodes) && root == old(root) && storedNodes == old(storedNodes)
      ensures storedRoot == old(storedRoot) && allowCreep == old(allowCreep) && rules == old(rules)
    {
      elementList := ElementList.SortedDistinct(traitValues);
    }

    /** isValid: no node of the tree has a child strictly higher than itself. */
    function IsValid(): (r: bool)
      reads this, nodes
      requires Valid()
      ensures r <==> forall y :: 0 <= y < nodes.Length ==> ChildrenNotHigher(nodes[..], y)
    {
      var ns := nodes[..];
      TimesAreValidMeans(ns, root, |ns|);
      assert OrderedBelow(ns, root, |ns|) <==> forall y :: 0 <= y < |ns| ==> ChildrenNotHigher(ns, y) by {
        forall y | 0 <= y < |ns| && OrderedBelow(ns, root, |ns|) ensures ChildrenNotHigher(ns, y) {
          var k := ReachesRoot(ns, root, y);
        }
      }
      TimesAreValid(ns, root, |ns|)
    }

    /** getTipsInElement: exactly the tips carrying the element. */
    method GetTipsInElement(elementNo: int) returns (out: set<int>)
      ensures out == NodesWith(nodes[..], elementNo, true)
    {
      out := {};
      var i := 0;
      while i < nodes.Length
        invariant 0 <= i <= nodes.Length
        invariant out == set x | 0 <= x < i && nodes[x].element == elementNo && IsLeaf(nodes[x])
      {
        if IsLeaf(nodes[i]) && nodes[i].element == elementNo {
          out := out + {i};
        }
        i := i + 1;
      }
    }

    /** getNodesInElement: exactly the nodes carrying the element. */
    method GetNodesInElement(elementNo: int) returns (out: set<int>)
      ensures out == NodesWith(nodes[..], elementNo, false)
    {
      out := {};
      var i := 0;
      while i < nodes.Length
        invariant 0 <= i <= nodes.Length
        invariant out == set x | 0 <= x < i && nodes[x].element == elementNo
      {
        if nodes[i].element == elementNo {
          out := out + {i};
        }
        i := i + 1;
      }
    }

    /** getNodesInSameElement: the nodes sharing x's element, x among them. */
    method GetNodesInSameElement(x: int) returns (out: set<int>)
      requires 0 <= x < nodes.Length
      ensures out == NodesWith(nodes[..], nodes[x].element, false) && x in out
    {
      out := GetNodesInElement(nodes[x].element);
    }

    /** Whether some child of node i carries i's element (the inner loop of
      * checkPartitionIntegrity). */
    method ChildLinked(i: int) returns (linked: bool)
      requires Valid() && 0 <= i < nodes.Length
      ensures linked == HasSameElementChild(nodes[..], i)
    {
      var ns := nodes[..];
      linked := false;
      var c := 0;
      while c < |nodes[i].children|
        invariant 0 <= c <= |ns[i].children|
        invariant linked <==> exists k :: 0 <= k < c && ns[ns[i].children[k]].element == ns[i].element
      {
        if nodes[nodes[i].children[c]].element == nodes[i].element {
          linked := true;
        }
        c := c + 1;
      }
    }

    /**
     * checkPartitionIntegrity as written.  An unset allowCreep is unboxed on
     * the first node and throws; with allowCreep false every node needs a
     * child of its own element, so any tip fails; with allowCreep true the
     * root's missing parent is dereferenced and throws.
     */
    method CheckPartitionIntegrity() returns (r: Result<bool>)
      requires Valid()
      ensures r.Err? ==> r == Err("NullPointerException")
      ensures allowCreep.None? ==> r == Err("NullPointerException")
      ensures allowCreep == Some(false) ==>
        r.Ok? && (r.value <==> forall x :: 0 <= x < nodes.Length ==> HasSameElementChild(nodes[..], x))
      ensures allowCreep == Some(true) ==>
        r != Ok(true) &&
        (r.Err? <==> forall x :: 0 <= x < root ==>
           HasSameElementChild(nodes[..], x) || ParentSameElement(nodes[..], x))
    {
      var ns := nodes[..];
      var i := 0;
      while i < nodes.Length
        invariant 0 <= i <= nodes.Length
        invariant allowCreep.None? ==> i == 0
        invariant allowCreep == Some(true) ==> i <= root
        invariant forall x :: 0 <= x < i ==>
          HasSameElementChild(ns, x) || (allowCreep == Some(true) && ParentSameElement(ns, x))
      {
        var linked := ChildLinked(i);
        match allowCreep {
          case None =>
            return Err("NullPointerException");
          case Some(creep) =>
            if creep {
              var p := nodes[i].parent;
              if p == -1 {
                return Err("NullPointerException");
              }
              if nodes[p].element == nodes[i].element {
                linked := true;
              }
            }
        }
        if !linked {
          return Ok(false);
        }
        i := i + 1;
      }
      return Ok(true);
    }

    /** The integrity check as evidently intended: tips are exempt, and the
      * parent is consulted only when creep is allowed and a parent exists. */
    method CheckPartitionIntegrityCorrected() returns (ok: bool)
      requires Valid()
      ensures ok == IntendedIntegrity(nodes[..], root, allowCreep == Some(true))
    {
      ghost var ns := nodes[..];
      ghost var creep := allowCreep == Some(true);
      var i := 0;
      while i < nodes.Length
        invariant 0 <= i <= nodes.Length
        invariant forall x :: 0 <= x < i ==> IntendedAt(ns, root, creep, x)
      {
        var linked := NodeIntegrity(i);
        if !linked {
          return false;
        }
        i := i + 1;
      }
      return true;
    }

    /** The corrected per-node test. */
    method NodeIntegrity(i: int) returns (linked: bool)
      requires Valid() && 0 <= i < nodes.Length
      ensures linked == IntendedAt(nodes[..], root, allowCreep == Some(true), i)
    {
      linked := ChildLinked(i);
      if IsLeaf(nodes[i]) {
        linked := true;
      }
      var p := nodes[i].parent;
      if allowCreep == Some(true) && p != -1 && nodes[p].element == nodes[i].element {
        linked := true;
      }
    }

    /** isRootBlockedBy, with the two element MRCAs as inputs (-1 for none):
      * walking strictly upward from the first meets the second. */
    method IsRootBlockedBy(mrcaE: int, mrcaB: int) returns (r: bool)
      requires Valid() && -1 <= mrcaE < nodes.Length && -1 <= mrcaB < nodes.Length
      ensures r == RootBlockedBy(nodes[..], mrcaE, mrcaB)
    {
      var ns := nodes[..];
      var current := mrcaE;
      ghost var k: nat := 0;
      while current != -1
        invariant -1 <= current < |ns| && current == Up(ns, mrcaE, k) && k <= |ns|
        invariant forall m: nat :: 1 <= m <= k ==> Up(ns, mrcaE, m) != mrcaB
        decreases |ns| - k
      {
        UpDefinedBelow(ns, mrcaE, k);
        UpAdd(ns, mrcaE, k, 1);
        current := nodes[current].parent;
        k := k + 1;
        if current == mrcaB {
          return true;
        }
      }
      if mrcaE != -1 {
        assert Up(ns, mrcaE, k) != mrcaB;
        forall m: nat | k < m ensures Up(ns, mrcaE, m) != mrcaB {
          UpAdd(ns, mrcaE, k, m - k);
          UpOfOutside(ns, -1, m - k);
        }
      }
      r := false;
    }

    /** isRootBlocked: some element's MRCA blocks this one's (mrcas holds the
      * MRCA of every element of the list). */
    method IsRootBlocked(mrcaE: int, mrcas: seq<int>) returns (r: bool)
      requires Valid() && -1 <= mrcaE < nodes.Length
      requires |mrcas| == |elementList| && forall i :: 0 <= i < |mrcas| ==> -1 <= mrcas[i] < nodes.Length
      ensures r <==> exists i :: 0 <= i < |mrcas| && RootBlockedBy(nodes[..], mrcaE, mrcas[i])
    {
      var i := 0;
      while i < |elementList|
        invariant 0 <= i <= |mrcas|
        invariant forall j :: 0 <= j < i ==> !RootBlockedBy(nodes[..], mrcaE, mrcas[j])
      {
        var b := IsRootBlockedBy(mrcaE, mrcas[i]);
        if b {
          return true;
        }
        i := i + 1;
      }
      return false;
    }

    /** storeNodes: copy the nodes numbered lo .. hi-1 into the stored array.
      * Every one of them must have a parent (the source dereferences it). */
    method StoreNodes(lo: int, hi: int)
      requires nodes != storedNodes && storedNodes.Length == nodes.Length && 0 <= lo <= hi <= nodes.Length
      requires forall x :: lo <= x < hi ==> nodes[x].parent != -1
      modifies storedNodes
      ensures forall x :: 0 <= x < storedNodes.Length ==>
        storedNodes[x] == if lo <= x < hi then StoredFrom(old(storedNodes[x]), nodes[x], false) else old(storedNodes[x])
    {
      var i := lo;
      while i < hi
        invariant lo <= i <= hi
        invariant forall x :: 0 <= x < storedNodes.Length ==>
          storedNodes[x] == if lo <= x < i then StoredFrom(old(storedNodes[x]), nodes[x], false) else old(storedNodes[x])
      {
        storedNodes[i] := StoredFrom(storedNodes[i], nodes[i], false);
        i := i + 1;
      }
    }

    /** store: the stored array becomes a copy of the live tree's links,
      * heights, cache indices and elements, rooted at the same node. */
    method Store()
      requires Valid()
      modifies this, storedNodes
      ensures storedRoot == root
      ensures nodes == old(nodes) && root == old(root) && storedNodes == old(storedNodes)
      ensures elementList == old(elementList) && allowCreep == old(allowCreep) && rules == old(rules)
      ensures storedNodes[..] == StoredArray(old(storedNodes[..]), nodes[..], root)
    {
      ghost var before := storedNodes[..];
      assert forall x :: 0 <= x < nodes.Length && x != root ==> nodes[x].parent != -1;
      StoreNodes(0, root);
      storedNodes[root] := StoredFrom(storedNodes[root], nodes[root], true);
      StoreNodes(root + 1, nodes.Length);
      storedRoot := root;
      assert storedNodes[..] == StoredArray(before, nodes[..], root);
    }

    /** restore, inherited from BEAST's Tree: the live and stored node
      * arrays change places, so the tree saved by the last store becomes
      * the live tree, rooted where it was stored. */
    method Restore()
      requires Valid() && Tree(storedNodes[..], storedRoot)
      modifies this
      ensures Valid() && Tree(storedNodes[..], old(root))
      ensures nodes == old(storedNodes) && storedNodes == old(nodes)
      ensures root == old(storedRoot) && storedRoot == old(storedRoot)
      ensures elementList == old(elementList) && allowCreep == old(allowCreep) && rules == old(rules)
    {
      nodes, storedNodes := storedNodes, nodes;
      root := storedRoot;
    }

    /**
     * numberInternalNodes: the internal nodes of x's subtree get the numbers
     * nextNr, nextNr + 1, ... in post-order, each with its number as ID; tips
     * keep theirs.  Returns the next free number.  `labels` holds each
     * node's number and ID.
     */
    method NumberInternalNodes(x: int, nextNr: int, labels: array<Label>) returns (next: int)
      requires Valid() && 0 <= x < nodes.Length && labels.Length == nodes.Length
      modifies labels
      ensures var post := PostOrderInternal(nodes[..], x, 0);
        next == nextNr + |post| && Renumbered(old(labels[..]), labels[..], post, nextNr)
    {
      next := NumberSubtree(nodes[..], x, nextNr, 0, labels);
    }
  }
}
