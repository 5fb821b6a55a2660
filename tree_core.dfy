/**
 * The node-partitioned phylogeny as an array of node records indexed by node
 * number.  A parent of -1 stands for Java's null parent (the root), a child
 * list holds node numbers, and `element` is the partition element (host
 * index) the node belongs to, -1 when unassigned.
 */
module TreeCore {

  datatype Result<T> = Ok(value: T) | Err(error: string)

  /** A Java reference or boxed value that may be null. */
  datatype Option<T> = None | Some(value: T)

  datatype NodeState = NodeState(
    height: real,
    parent: int,
    children: seq<int>,
    element: int,
    cacheIndex: int,
    partitionDirty: bool)

  predicate IsLeaf(n: NodeState) { |n.children| == 0 }

  /** A node of a bifurcating tree: a leaf, or exactly two distinct children. */
  predicate Binary(n: NodeState)
  {
    |n.children| == 0 || (|n.children| == 2 && n.children[0] != n.children[1])
  }

  predicate ParentsInRange(ns: seq<NodeState>)
  {
    forall x {:trigger ns[x].parent} :: 0 <= x < |ns| ==> -1 <= ns[x].parent < |ns|
  }

  /** Every child link points at a node whose parent link points back, and
    * every parent link is matched by a child link; nodes have 0 or 2
    * distinct children. */
  predicate Linked(ns: seq<NodeState>)
  {
    ParentsInRange(ns) && Downward(ns) &&
    (forall x {:trigger ns[x].parent} :: 0 <= x < |ns| && ns[x].parent != -1 ==> x in ns[ns[x].parent].children)
  }

  /** The child links alone: every child is a node whose parent link points
    * back, and every node is a leaf or has two distinct children. */
  predicate Downward(ns: seq<NodeState>)
  {
    (forall x, k :: 0 <= x < |ns| && 0 <= k < |ns[x].children| ==>
       0 <= ns[x].children[k] < |ns| && ns[ns[x].children[k]].parent == x) &&
    (forall x {:trigger Binary(ns[x])} :: 0 <= x < |ns| ==> Binary(ns[x]))
  }

  /** The k-th ancestor of x: x itself for k = 0, -1 once the walk leaves the root. */
  function Up(ns: seq<NodeState>, x: int, k: nat): int
    decreases k
  {
    if k == 0 then x
    else if 0 <= x < |ns| then Up(ns, ns[x].parent, k - 1)
    else -1
  }

  /** No parent chain returns to where it started: |ns| steps up from any node
    * leave the tree. */
  predicate Acyclic(ns: seq<NodeState>)
  {
    ParentsInRange(ns) && forall x :: 0 <= x < |ns| ==> Up(ns, x, |ns|) == -1
  }

  predicate Tree(ns: seq<NodeState>, root: int)
  {
    Linked(ns) && Acyclic(ns) &&
    0 <= root < |ns| && ns[root].parent == -1 &&
    (forall x {:trigger ns[x].parent} :: 0 <= x < |ns| && ns[x].parent == -1 ==> x == root)
  }

  /** x lies on the parent chain of `from` (including `from` itself). */
  ghost predicate OnPath(ns: seq<NodeState>, from: int, x: int)
  {
    exists k: nat :: Up(ns, from, k) == x
  }

  // ---------------------------------------------------------------------
  // Lemmas about parent chains

  lemma UpInRange(ns: seq<NodeState>, x: int, k: nat)
    requires ParentsInRange(ns) && -1 <= x < |ns|
    ensures -1 <= Up(ns, x, k) < |ns|
    decreases k
  {
    if k > 0 && 0 <= x < |ns| {
      UpInRange(ns, ns[x].parent, k - 1);
    }
  }

  lemma {:induction false} UpAdd(ns: seq<NodeState>, x: int, a: nat, b: nat)
    ensures Up(ns, x, a + b) == Up(ns, Up(ns, x, a), b)
    decreases a
  {
    if a > 0 {
      if 0 <= x < |ns| {
        UpAdd(ns, ns[x].parent, a - 1, b);
      } else {
        UpOfOutside(ns, x, a + b);
        UpOfOutside(ns, x, a);
        UpOfOutside(ns, -1, b);
      }
    }
  }

  lemma UpOfOutside(ns: seq<NodeState>, x: int, k: nat)
    requires !(0 <= x < |ns|) && (k > 0 || x == -1)
    ensures Up(ns, x, k) == -1
  {
  }

  lemma UpOne(ns: seq<NodeState>, x: int)
    requires 0 <= x < |ns|
    ensures Up(ns, x, 1) == ns[x].parent
  {
  }

  /** In an acyclic tree every walk of |ns| or more steps has left the tree. */
  lemma UpExhausted(ns: seq<NodeState>, x: int, k: nat)
    requires Acyclic(ns) && -1 <= x < |ns| && k >= |ns|
    ensures Up(ns, x, k) == -1
  {
    UpAdd(ns, x, |ns|, k - |ns|);
    if x == -1 {
      UpOfOutside(ns, x, |ns|);
    }
    UpOfOutside(ns, -1, k - |ns|);
  }

  /** A walk that is still inside the tree after k steps took fewer than |ns| steps. */
  lemma UpDefinedBelow(ns: seq<NodeState>, x: int, k: nat)
    requires Acyclic(ns) && -1 <= x < |ns| && Up(ns, x, k) != -1
    ensures k < |ns|
  {
    if k >= |ns| {
      UpExhausted(ns, x, k);
    }
  }

  lemma {:induction false} UpCycle(ns: seq<NodeState>, y: int, d: nat, m: nat)
    requires Up(ns, y, d) == y
    ensures Up(ns, y, m * d) == y
    decreases m
  {
    if m > 0 {
      calc {
        Up(ns, y, m * d);
        { assert m * d == d + (m - 1) * d; }
        Up(ns, y, d + (m - 1) * d);
        { UpAdd(ns, y, d, (m - 1) * d); }
        Up(ns, Up(ns, y, d), (m - 1) * d);
        { UpCycle(ns, y, d, m - 1); }
        y;
      }
    }
  }

  /** The nodes on a parent chain are pairwise distinct until it leaves the tree. */
  lemma UpDistinct(ns: seq<NodeState>, x: int, a: nat, b: nat)
    requires Acyclic(ns) && -1 <= x < |ns| && a < b && Up(ns, x, a) != -1
    ensures Up(ns, x, a) != Up(ns, x, b)
  {
    var y := Up(ns, x, a);
    var d := b - a;
    UpInRange(ns, x, a);
    UpAdd(ns, x, a, d);
    if Up(ns, y, d) == y {
      UpCycle(ns, y, d, |ns|);
      MulAtLeast(|ns|, d);
      UpExhausted(ns, y, |ns| * d);
    }
  }

  lemma MulAtLeast(m: nat, d: nat)
    requires d >= 1
    ensures m * d >= m
  {
  }

  /** A child never lies on its parent's chain of ancestors. */
  lemma ChildNotAbove(ns: seq<NodeState>, c: int, k: nat)
    requires Acyclic(ns) && 0 <= c < |ns| && 0 <= ns[c].parent
    ensures Up(ns, ns[c].parent, k) != c
  {
    UpAdd(ns, c, 1, k);
    UpDistinct(ns, c, 0, 1 + k);
  }

  // ---------------------------------------------------------------------
  // Recolouring a run of ancestors

  function Painted(n: NodeState, newElement: int, markDirty: bool): NodeState
  {
    n.(element := newElement, partitionDirty := markDirty || n.partitionDirty)
  }

  /** Length of the run of nodes, starting at `cur` and going upward, that carry
    * `oldElement`; the run stops above the root, at `limit`, or at a node of
    * another element (or when the fuel is spent). */
  function RunLen(ns: seq<NodeState>, cur: int, oldElement: int, limit: int, fuel: nat): nat
    decreases fuel
  {
    if fuel == 0 || !(0 <= cur < |ns|) || cur == limit || ns[cur].element != oldElement then 0
    else 1 + RunLen(ns, ns[cur].parent, oldElement, limit, fuel - 1)
  }

  /** `ns` with the first k nodes of the chain above `start` painted. */
  function PaintedUpTo(ns: seq<NodeState>, start: int, k: nat, newElement: int, markDirty: bool): (r: seq<NodeState>)
    ensures |r| == |ns|
    ensures forall x :: 0 <= x < |ns| ==> r[x].element == ns[x].element || r[x].element == newElement
    decreases k
  {
    if k == 0 then ns
    else
      var prev := PaintedUpTo(ns, start, k - 1, newElement, markDirty);
      var x := Up(ns, start, k - 1);
      if 0 <= x < |ns| then prev[x := Painted(ns[x], newElement, markDirty)] else prev
  }

  /** The tree after the maximal run of `oldElement` nodes from `start` upward
    * (stopping before `limit`) has been recoloured to `newElement`. */
  function Repainted(ns: seq<NodeState>, start: int, oldElement: int, newElement: int, limit: int, markDirty: bool): (r: seq<NodeState>)
    ensures |r| == |ns|
    ensures forall x :: 0 <= x < |ns| ==> r[x].element == ns[x].element || r[x].element == newElement
  {
    PaintedUpTo(ns, start, RunLen(ns, start, oldElement, limit, |ns|), newElement, markDirty)
  }

  /** Splitting a run after k of its nodes. */
  lemma {:induction false} RunLenSplit(ns: seq<NodeState>, start: int, oldElement: int, limit: int, fuel: nat, k: nat)
    requires k <= RunLen(ns, start, oldElement, limit, fuel)
    ensures k <= fuel
    ensures RunLen(ns, start, oldElement, limit, fuel) == k + RunLen(ns, Up(ns, start, k), oldElement, limit, fuel - k)
    decreases k
  {
    if k > 0 {
      RunLenSplit(ns, ns[start].parent, oldElement, limit, fuel - 1, k - 1);
    }
  }

  /** What the run is: its first L nodes are in the tree, differ from `limit`
    * and carry `oldElement`, and the walk stops right after them. */
  lemma RunCharacterization(ns: seq<NodeState>, start: int, oldElement: int, limit: int)
    requires Acyclic(ns) && -1 <= start < |ns|
    ensures var L := RunLen(ns, start, oldElement, limit, |ns|);
      (forall m: nat :: m < L ==>
         0 <= Up(ns, start, m) < |ns| && Up(ns, start, m) != limit &&
         ns[Up(ns, start, m)].element == oldElement) &&
      (var stop := Up(ns, start, L);
         -1 <= stop < |ns| && (stop == -1 || stop == limit || ns[stop].element != oldElement))
  {
    var L := RunLen(ns, start, oldElement, limit, |ns|);
    forall m: nat | m < L
      ensures 0 <= Up(ns, start, m) < |ns| && Up(ns, start, m) != limit &&
              ns[Up(ns, start, m)].element == oldElement
    {
      RunLenSplit(ns, start, oldElement, limit, |ns|, m);
    }
    RunLenSplit(ns, start, oldElement, limit, |ns|, L);
    var stop := Up(ns, start, L);
    UpInRange(ns, start, L);
    if |ns| - L == 0 {
      UpExhausted(ns, start, L);
    }
  }

  /** x is one of the first k nodes of the chain above `start`. */
  ghost predicate InRun(ns: seq<NodeState>, start: int, k: nat, x: int)
  {
    exists m: nat :: m < k && Up(ns, start, m) == x
  }

  lemma {:induction false} PaintedUpToAt(ns: seq<NodeState>, start: int, k: nat, newElement: int, markDirty: bool, x: int)
    requires Acyclic(ns) && -1 <= start < |ns| && 0 <= x < |ns|
    ensures PaintedUpTo(ns, start, k, newElement, markDirty)[x] ==
      if InRun(ns, start, k, x) then Painted(ns[x], newElement, markDirty) else ns[x]
    decreases k
  {
    if k > 0 {
      PaintedUpToAt(ns, start, k - 1, newElement, markDirty, x);
      if Up(ns, start, k - 1) == x {
        assert Up(ns, start, k - 1) == x;
      }
    }
  }

  /** Recolouring touches exactly the run: its nodes take the new element (and
    * the dirty mark when asked), every other node is unchanged. */
  lemma RepaintedAt(ns: seq<NodeState>, start: int, oldElement: int, newElement: int, limit: int, markDirty: bool)
    requires Acyclic(ns) && -1 <= start < |ns|
    ensures forall m: nat :: m < RunLen(ns, start, oldElement, limit, |ns|) ==>
      0 <= Up(ns, start, m) < |ns| &&
      Repainted(ns, start, oldElement, newElement, limit, markDirty)[Up(ns, start, m)] ==
        Painted(ns[Up(ns, start, m)], newElement, markDirty)
    ensures forall x :: 0 <= x < |ns| && !InRun(ns, start, RunLen(ns, start, oldElement, limit, |ns|), x) ==>
      Repainted(ns, start, oldElement, newElement, limit, markDirty)[x] == ns[x]
  {
    var L := RunLen(ns, start, oldElement, limit, |ns|);
    RunCharacterization(ns, start, oldElement, limit);
    forall m: nat | m < L
      ensures Repainted(ns, start, oldElement, newElement, limit, markDirty)[Up(ns, start, m)] ==
              Painted(ns[Up(ns, start, m)], newElement, markDirty)
    {
      PaintedUpToAt(ns, start, L, newElement, markDirty, Up(ns, start, m));
    }
    forall x | 0 <= x < |ns| && !InRun(ns, start, L, x)
      ensures Repainted(ns, start, oldElement, newElement, limit, markDirty)[x] == ns[x]
    {
      PaintedUpToAt(ns, start, L, newElement, markDirty, x);
    }
  }

  /** Painting changes no parent or child link, so chains of ancestors are the same. */
  lemma PaintedUpToKeepsLinks(ns: seq<NodeState>, start: int, k: nat, newElement: int, markDirty: bool)
    ensures var r := PaintedUpTo(ns, start, k, newElement, markDirty);
      forall x :: 0 <= x < |ns| ==> r[x].parent == ns[x].parent && r[x].children == ns[x].children && r[x].height == ns[x].height
  {
  }

  /**
   * The shared ancestor-recolouring loop: starting at `start`, while the node
   * exists, is not `limit` and carries `oldElement`, give it `newElement`
   * (and mark it partition-dirty when `markDirty`) and move to its parent.
   */
  method PaintRun(a: array<NodeState>, start: int, oldElement: int, newElement: int, limit: int, markDirty: bool)
    requires Acyclic(a[..]) && -1 <= start < a.Length
    modifies a
    ensures a[..] == Repainted(old(a[..]), start, oldElement, newElement, limit, markDirty)
  {
    ghost var ns := a[..];
    ghost var L := RunLen(ns, start, oldElement, limit, |ns|);
    var cur := start;
    ghost var k: nat := 0;
    RunLenSplit(ns, start, oldElement, limit, |ns|, L);
    while cur != -1 && cur != limit && a[cur].element == oldElement
      invariant k <= L <= |ns| && cur == Up(ns, start, k) && -1 <= cur < a.Length
      invariant a[..] == PaintedUpTo(ns, start, k, newElement, markDirty)
      invariant RunLen(ns, cur, oldElement, limit, |ns| - k) == L - k
      decreases L - k
    {
      PaintStep(ns, start, k, newElement, markDirty);
      if |ns| - k == 0 {
        UpExhausted(ns, start, k);
      }
      a[cur] := Painted(a[cur], newElement, markDirty);
      cur := a[cur].parent;
      k := k + 1;
    }
    if cur != -1 {
      PaintStep(ns, start, k, newElement, markDirty);
    }
  }

  /** One step of the recolouring walk: the k-th node of the chain is still
    * unpainted, painting it gives the next stage, and its parent is the next
    * node of the chain. */
  lemma PaintStep(ns: seq<NodeState>, start: int, k: nat, newElement: int, markDirty: bool)
    requires Acyclic(ns) && -1 <= start < |ns| && 0 <= Up(ns, start, k) < |ns|
    ensures var cur := Up(ns, start, k);
      var p := PaintedUpTo(ns, start, k, newElement, markDirty);
      p[cur] == ns[cur] &&
      PaintedUpTo(ns, start, k + 1, newElement, markDirty) == p[cur := Painted(p[cur], newElement, markDirty)] &&
      Up(ns, start, k + 1) == ns[cur].parent && -1 <= ns[cur].parent < |ns|
  {
    var cur := Up(ns, start, k);
    PaintedUpToAt(ns, start, k, newElement, markDirty, cur);
    forall m: nat | m < k ensures Up(ns, start, m) != cur {
      UpAdd(ns, start, m, k - m);
      UpOfOutside(ns, -1, k - m);
      UpDistinct(ns, start, m, k);
    }
    UpAdd(ns, start, k, 1);
  }

  /** Recolouring changes no link: the tree keeps its shape. */
  lemma RepaintedSameShape(ns: seq<NodeState>, start: int, oldElement: int, newElement: int, limit: int, markDirty: bool)
    ensures SameShape(Repainted(ns, start, oldElement, newElement, limit, markDirty), ns)
  {
    PaintedUpToKeepsLinks(ns, start, RunLen(ns, start, oldElement, limit, |ns|), newElement, markDirty);
  }

  /** A run whose first L nodes carry `oldElement` and whose walk stops right
    * after them has length exactly L. */
  lemma {:induction false} RunLenExact(ns: seq<NodeState>, start: int, oldElement: int, limit: int, fuel: nat, L: nat)
    requires L <= fuel
    requires forall m: nat :: m < L ==>
      0 <= Up(ns, start, m) < |ns| && Up(ns, start, m) != limit && ns[Up(ns, start, m)].element == oldElement
    requires var s := Up(ns, start, L); !(0 <= s < |ns|) || s == limit || ns[s].element != oldElement
    ensures RunLen(ns, start, oldElement, limit, fuel) == L
    decreases L
  {
    if L > 0 {
      assert Up(ns, start, 0) == start;
      forall m: nat | m < L - 1
        ensures 0 <= Up(ns, ns[start].parent, m) < |ns| && Up(ns, ns[start].parent, m) != limit &&
                ns[Up(ns, ns[start].parent, m)].element == oldElement
      {
        assert Up(ns, start, m + 1) == Up(ns, ns[start].parent, m);
      }
      assert Up(ns, start, L) == Up(ns, ns[start].parent, L - 1);
      RunLenExact(ns, ns[start].parent, oldElement, limit, fuel - 1, L - 1);
    }
  }

  /** Two node arrays with the same parent and child links. */
  predicate SameShape(a: seq<NodeState>, b: seq<NodeState>)
  {
    |a| == |b| &&
    forall x {:trigger a[x].parent} {:trigger b[x].parent} :: 0 <= x < |a| ==> a[x].parent == b[x].parent && a[x].children == b[x].children
  }

  /** Ancestor walks depend only on the links. */
  lemma SameShapeTrans(ns: seq<NodeState>, ms: seq<NodeState>, ls: seq<NodeState>)
    requires SameShape(ns, ms) && SameShape(ms, ls)
    ensures SameShape(ns, ls)
  {
    forall y | 0 <= y < |ns| ensures ns[y].parent == ls[y].parent && ns[y].children == ls[y].children {
      assert ms[y].parent == ls[y].parent && ms[y].children == ls[y].children;
    }
  }

  lemma {:induction false} UpSameShape(a: seq<NodeState>, b: seq<NodeState>, x: int, k: nat)
    requires SameShape(a, b)
    ensures Up(a, x, k) == Up(b, x, k)
    decreases k
  {
    if k > 0 && 0 <= x < |a| {
      assert a[x].parent == b[x].parent;
      UpSameShape(a, b, a[x].parent, k - 1);
    }
  }

  lemma SameShapeLinked(a: seq<NodeState>, b: seq<NodeState>)
    requires SameShape(a, b) && Linked(b)
    ensures Linked(a)
  {
    forall x | 0 <= x < |a| ensures Binary(a[x]) && -1 <= a[x].parent < |a| {
      assert Binary(b[x]) && a[x].children == b[x].children && a[x].parent == b[x].parent;
    }
    forall x, k | 0 <= x < |a| && 0 <= k < |a[x].children|
      ensures 0 <= a[x].children[k] < |a| && a[a[x].children[k]].parent == x
    {
      assert a[x].children == b[x].children;
      var c := b[x].children[k];
      assert a[c].parent == b[c].parent;
    }
    forall x | 0 <= x < |a| && a[x].parent != -1 ensures x in a[a[x].parent].children {
      var p := b[x].parent;
      assert a[p].children == b[p].children;
    }
  }

  /** Being a tree depends only on the links. */
  lemma SameShapeTree(a: seq<NodeState>, b: seq<NodeState>, root: int)
    requires SameShape(a, b) && Tree(b, root)
    ensures Tree(a, root)
  {
    SameShapeLinked(a, b);
    forall x | 0 <= x < |a| ensures Up(a, x, |a|) == -1 {
      UpSameShape(a, b, x, |a|);
    }
    forall x | 0 <= x < |a| && a[x].parent == -1 ensures x == root {
      assert b[x].parent == -1;
    }
  }
}
