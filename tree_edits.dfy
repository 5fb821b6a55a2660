/**
 * The edits the tree operators share: replacing a child of a node,
 * exchanging two subtrees between their parents, the other child of a
 * node, the eligibility test of the transmission-preserving moves, and the
 * check every operator makes of the tree it is given.
 */
module TreeEdits {
  import opened TreeCore
  import opened PartitionedTrees

  /** What an operator's tree input can be: a plain tree, or a partitioned
    * tree with its rules. */
  datatype TreeInput = PlainTree | Partitioned(rules: Rules)

  /** initAndValidate of an operator: the tree must be partitioned and,
    * when the operator names rules, follow them; the messages name the
    * second-type rules or, for Didelot's and the third-type rules, the
    * third type. */
  function CheckTree(t: TreeInput, required: Option<Rules>): (r: Result<bool>)
    ensures r.Ok? <==> t.Partitioned? && (required.Some? ==> t.rules == required.value)
    ensures r.Ok? ==> r.value
    ensures r.Err? && !t.Partitioned? ==> r.error == "This operator is designed for partitioned trees only"
    ensures r.Err? && t.Partitioned? ==> r.error == RulesMessage(required.value)
  {
    if !t.Partitioned? then Err("This operator is designed for partitioned trees only")
    else if required.Some? && t.rules != required.value then Err(RulesMessage(required.value))
    else Ok(true)
  }

  function RulesMessage(required: Rules): string
  {
    if required == SecondType then "This operator is designed for trees with partition rules of the second type"
    else "This operator is designed for trees with partition rules of the third type"
  }

  /** A child list with `child` replaced by `repl` where it stood. */
  function SwapIn(cs: seq<int>, child: int, repl: int): (ds: seq<int>)
    ensures |ds| == |cs|
    ensures forall k :: 0 <= k < |cs| ==> ds[k] == if cs[k] == child then repl else cs[k]
  {
    seq(|cs|, k requires 0 <= k < |cs| => if cs[k] == child then repl else cs[k])
  }

  /** replace(node, child, repl): repl takes child's place under node. */
  function Replaced(ns: seq<NodeState>, node: int, child: int, repl: int): (r: seq<NodeState>)
    requires 0 <= node < |ns| && 0 <= repl < |ns|
    ensures |r| == |ns|
  {
    var ns1 := ns[node := ns[node].(children := SwapIn(ns[node].children, child, repl))];
    ns1[repl := ns1[repl].(parent := node)]
  }

  method Replace(a: array<NodeState>, node: int, child: int, repl: int)
    requires 0 <= node < a.Length && 0 <= repl < a.Length && child in a[node].children
    modifies a
    ensures a[..] == Replaced(old(a[..]), node, child, repl)
  {
    a[node] := a[node].(children := SwapIn(a[node].children, child, repl));
    a[repl] := a[repl].(parent := node);
  }

  /** exchangeNodes(i, j, iP, jP): j goes under iP in i's place and i under
    * jP in j's place. */
  function Exchanged(ns: seq<NodeState>, i: int, j: int, iP: int, jP: int): (r: seq<NodeState>)
    requires 0 <= i < |ns| && 0 <= j < |ns| && 0 <= iP < |ns| && 0 <= jP < |ns|
    ensures |r| == |ns|
    ensures forall x :: 0 <= x < |ns| && x != i && x != j && x != iP && x != jP ==> r[x] == ns[x]
  {
    Replaced(Replaced(ns, iP, i, j), jP, j, i)
  }

  method ExchangeNodes(a: array<NodeState>, i: int, j: int, iP: int, jP: int)
    requires 0 <= i < a.Length && 0 <= j < a.Length && 0 <= iP < a.Length && 0 <= jP < a.Length
    requires i in a[iP].children && j in a[jP].children && iP != jP
    modifies a
    ensures a[..] == Exchanged(old(a[..]), i, j, iP, jP)
  {
    Replace(a, iP, i, j);
    Replace(a, jP, j, i);
  }

  /** The two nodes hang from different parents, neither is the other's
    * parent: what the exchanging operators make sure of. */
  predicate Exchangeable(ns: seq<NodeState>, i: int, j: int)
    requires ParentsInRange(ns)
  {
    0 <= i < |ns| && 0 <= j < |ns| && ns[i].parent != -1 && ns[j].parent != -1 &&
    ns[i].parent != ns[j].parent && i != ns[j].parent && j != ns[i].parent
  }

  /** The exchange swaps exactly the two parent links and the two child
    * slots; heights and elements stay. */
  lemma ExchangedAt(ns: seq<NodeState>, i: int, j: int, iP: int, jP: int)
    requires 0 <= i < |ns| && 0 <= j < |ns| && 0 <= iP < |ns| && 0 <= jP < |ns| && iP != jP
    ensures var r := Exchanged(ns, i, j, iP, jP);
      forall x :: 0 <= x < |ns| ==>
        r[x].parent == (if x == i then jP else if x == j then iP else ns[x].parent) &&
        r[x].children == (if x == iP then SwapIn(ns[iP].children, i, j)
                          else if x == jP then SwapIn(ns[jP].children, j, i) else ns[x].children) &&
        r[x].height == ns[x].height && r[x].element == ns[x].element
  {
  }

  /** ExchangedAt for one node, as the whole record. */
  lemma ExchangedNodeAt(ns: seq<NodeState>, i: int, j: int, iP: int, jP: int, x: int)
    requires 0 <= i < |ns| && 0 <= j < |ns| && 0 <= iP < |ns| && 0 <= jP < |ns| && iP != jP
    requires 0 <= x < |ns|
    ensures Exchanged(ns, i, j, iP, jP)[x] ==
      ns[x].(parent := if x == i then jP else if x == j then iP else ns[x].parent,
             children := if x == iP then SwapIn(ns[iP].children, i, j)
                         else if x == jP then SwapIn(ns[jP].children, j, i) else ns[x].children)
  {
    var ns1 := Replaced(ns, iP, i, j);
    assert ns1[x] == ns[x].(parent := if x == j then iP else ns[x].parent,
                            children := if x == iP then SwapIn(ns[iP].children, i, j) else ns[x].children);
    assert ns1[jP].children == ns[jP].children;
  }

  /** The exchange of two exchangeable nodes leaves a linked bifurcating
    * tree, i under j's old parent and j under i's. */
  lemma ExchangeLinks(ns: seq<NodeState>, i: int, j: int)
    requires Linked(ns) && Exchangeable(ns, i, j)
    ensures var r := Exchanged(ns, i, j, ns[i].parent, ns[j].parent);
      r[i].parent == ns[j].parent && r[j].parent == ns[i].parent && Linked(r)
  {
    var r := Exchanged(ns, i, j, ns[i].parent, ns[j].parent);
    ExchangedAt(ns, i, j, ns[i].parent, ns[j].parent);
    ExchangeLinked(ns, r, i, j);
  }

  /** The links after an exchange, as ExchangedAt describes them. */
  ghost predicate SwappedLinks(ns: seq<NodeState>, r: seq<NodeState>, i: int, j: int)
    requires ParentsInRange(ns) && Exchangeable(ns, i, j)
  {
    var iP, jP := ns[i].parent, ns[j].parent;
    |r| == |ns| &&
    forall x :: 0 <= x < |ns| ==>
      r[x].parent == (if x == i then jP else if x == j then iP else ns[x].parent) &&
      r[x].children == (if x == iP then SwapIn(ns[iP].children, i, j)
                        else if x == jP then SwapIn(ns[jP].children, j, i) else ns[x].children)
  }

  lemma ExchangeLinked(ns: seq<NodeState>, r: seq<NodeState>, i: int, j: int)
    requires Linked(ns) && Exchangeable(ns, i, j) && SwappedLinks(ns, r, i, j)
    ensures Linked(r)
  {
    assert ParentsInRange(r) by {
      forall x | 0 <= x < |r| ensures -1 <= r[x].parent < |r| {
        assert -1 <= ns[x].parent < |ns|;
      }
    }
    ExchangeDownward(ns, r, i, j);
    ExchangeUpward(ns, r, i, j);
  }

  /** A child that is not the one replaced stays in the list. */
  lemma StaysChild(cs: seq<int>, x: int, child: int, repl: int)
    requires x in cs && x != child
    ensures x in SwapIn(cs, child, repl)
  {
    var k :| 0 <= k < |cs| && cs[k] == x;
    assert SwapIn(cs, child, repl)[k] == x;
  }

  /** The replacement takes the replaced child's slot. */
  lemma TakesSlot(cs: seq<int>, child: int, repl: int)
    requires child in cs
    ensures repl in SwapIn(cs, child, repl)
  {
    var k :| 0 <= k < |cs| && cs[k] == child;
    assert SwapIn(cs, child, repl)[k] == repl;
  }

  lemma ExchangeUpward(ns: seq<NodeState>, r: seq<NodeState>, i: int, j: int)
    requires Linked(ns) && Exchangeable(ns, i, j) && SwappedLinks(ns, r, i, j)
    ensures forall x {:trigger r[x].parent} :: 0 <= x < |r| && r[x].parent != -1 ==> x in r[r[x].parent].children
  {
    var iP, jP := ns[i].parent, ns[j].parent;
    forall x | 0 <= x < |r| && r[x].parent != -1 ensures x in r[r[x].parent].children {
      if x == i {
        assert r[jP].children == SwapIn(ns[jP].children, j, i);
        TakesSlot(ns[jP].children, j, i);
      } else if x == j {
        assert r[iP].children == SwapIn(ns[iP].children, i, j);
        TakesSlot(ns[iP].children, i, j);
      } else {
        var p := ns[x].parent;
        assert r[x].parent == p && x in ns[p].children;
        if p == iP {
          assert r[p].children == SwapIn(ns[iP].children, i, j);
          StaysChild(ns[iP].children, x, i, j);
        } else if p == jP {
          assert r[p].children == SwapIn(ns[jP].children, j, i);
          StaysChild(ns[jP].children, x, j, i);
        } else {
          assert r[p].children == ns[p].children;
        }
      }
    }
  }

  lemma ExchangeDownward(ns: seq<NodeState>, r: seq<NodeState>, i: int, j: int)
    requires Linked(ns) && Exchangeable(ns, i, j) && SwappedLinks(ns, r, i, j)
    ensures Downward(r)
  {
    ExchangeChildLinks(ns, r, i, j);
    ExchangeBinary(ns, r, i, j);
  }

  lemma ExchangeChildLinks(ns: seq<NodeState>, r: seq<NodeState>, i: int, j: int)
    requires Linked(ns) && Exchangeable(ns, i, j) && SwappedLinks(ns, r, i, j)
    ensures forall x, k :: 0 <= x < |r| && 0 <= k < |r[x].children| ==>
       0 <= r[x].children[k] < |r| && r[r[x].children[k]].parent == x
  {
    var iP, jP := ns[i].parent, ns[j].parent;
    forall x, k | 0 <= x < |r| && 0 <= k < |r[x].children|
      ensures 0 <= r[x].children[k] < |r| && r[r[x].children[k]].parent == x
    {
      var c := ns[x].children[k];
      assert 0 <= c < |ns| && ns[c].parent == x;
      if x == iP {
        assert r[x].children == SwapIn(ns[iP].children, i, j);
      } else if x == jP {
        assert r[x].children == SwapIn(ns[jP].children, j, i);
      } else {
        assert r[x].children == ns[x].children;
      }
    }
  }

  lemma ExchangeBinary(ns: seq<NodeState>, r: seq<NodeState>, i: int, j: int)
    requires Linked(ns) && Exchangeable(ns, i, j) && SwappedLinks(ns, r, i, j)
    ensures forall x {:trigger Binary(r[x])} :: 0 <= x < |r| ==> Binary(r[x])
  {
    var iP, jP := ns[i].parent, ns[j].parent;
    forall x | 0 <= x < |r| ensures Binary(r[x]) {
      assert Binary(ns[x]);
      if x == iP || x == jP {
        var c0, c1 := ns[x].children[0], ns[x].children[1];
        assert ns[c0].parent == x && ns[c1].parent == x;
      }
    }
  }

  /** An exchange that leaves no cycle leaves a tree with the same root. */
  lemma ExchangeKeepsTree(ns: seq<NodeState>, i: int, j: int, root: int)
    requires Tree(ns, root) && Exchangeable(ns, i, j)
    requires Acyclic(Exchanged(ns, i, j, ns[i].parent, ns[j].parent))
    ensures Tree(Exchanged(ns, i, j, ns[i].parent, ns[j].parent), root)
  {
    var iP, jP := ns[i].parent, ns[j].parent;
    var r := Exchanged(ns, i, j, iP, jP);
    ExchangedAt(ns, i, j, iP, jP);
    ExchangeLinks(ns, i, j);
    forall x | 0 <= x < |r| && r[x].parent == -1 ensures x == root {
      assert ns[x].parent == -1;
    }
  }

  /** Walks that avoid a set of nodes whose parent links agree are the same
    * in both arrays. */
  lemma {:induction false} UpAgree(a: seq<NodeState>, b: seq<NodeState>, x: int, m: nat)
    requires |a| == |b|
    requires forall t: nat :: t < m && 0 <= Up(a, x, t) < |a| ==> a[Up(a, x, t)].parent == b[Up(a, x, t)].parent
    ensures Up(a, x, m) == Up(b, x, m)
    decreases m
  {
    if m > 0 {
      UpAgree(a, b, x, m - 1);
      UpAdd(a, x, m - 1, 1);
      UpAdd(b, x, m - 1, 1);
    }
  }

  /** After an exchange that leaves a tree, the walk up from either old
    * parent meets neither exchanged node: the walk from jP would have to
    * pass through i, whose parent is now jP, or reach j along old links,
    * whose parent was jP; symmetrically from iP. */
  lemma ExchangedWalksAvoid(ns: seq<NodeState>, i: int, j: int, k: nat)
    requires Linked(ns) && Acyclic(ns) && Exchangeable(ns, i, j)
    requires Acyclic(Exchanged(ns, i, j, ns[i].parent, ns[j].parent))
    ensures var r := Exchanged(ns, i, j, ns[i].parent, ns[j].parent);
      Up(r, ns[j].parent, k) != i && Up(r, ns[j].parent, k) != j &&
      Up(r, ns[i].parent, k) != i && Up(r, ns[i].parent, k) != j
    decreases k
  {
    var iP, jP := ns[i].parent, ns[j].parent;
    var r := Exchanged(ns, i, j, iP, jP);
    ExchangedAt(ns, i, j, iP, jP);
    ExchangeLinks(ns, i, j);
    forall t: nat | t < k ensures Up(r, jP, t) != i && Up(r, jP, t) != j && Up(r, iP, t) != i && Up(r, iP, t) != j {
      ExchangedWalksAvoid(ns, i, j, t);
    }
    UpAgree(r, ns, jP, k);
    UpAgree(r, ns, iP, k);
    ChildNotAbove(r, i, k);
    ChildNotAbove(r, j, k);
    ChildNotAbove(ns, i, k);
    ChildNotAbove(ns, j, k);
  }

  /** getOtherChild: the child of p that is not c. */
  function OtherChild(ns: seq<NodeState>, p: int, c: int): (s: int)
    requires 0 <= p < |ns| && |ns[p].children| == 2
    ensures s in ns[p].children
    ensures c in ns[p].children && ns[p].children[0] != ns[p].children[1] ==> s != c
  {
    if ns[p].children[0] == c then ns[p].children[1] else ns[p].children[0]
  }

  /** eligibleForMove: x has a parent, and the parent shares its element with
    * the grandparent, when there is one, or with x's sibling; removing the
    * parent then leaves the transmission tree as it was. */
  predicate Eligible(ns: seq<NodeState>, x: int): (r: bool)
    requires Linked(ns) && 0 <= x < |ns|
    ensures r <==> (ns[x].parent != -1 &&
      exists y :: 0 <= y < |ns| && ns[y].element == ns[ns[x].parent].element &&
        (y == ns[ns[x].parent].parent || (y != x && y in ns[ns[x].parent].children)))
  {
    var p := ns[x].parent;
    p != -1 &&
    assert x in ns[p].children && Binary(ns[p]);
    ((ns[p].parent != -1 && ns[p].element == ns[ns[p].parent].element) ||
     ns[p].element == ns[OtherChild(ns, p, x)].element)
  }

  /** getEligibleNodes: the eligible nodes in node-number order. */
  method GetEligibleNodes(a: array<NodeState>) returns (out: seq<int>)
    requires Linked(a[..])
    ensures forall x :: x in out <==> 0 <= x < a.Length && Eligible(a[..], x)
    ensures forall s, t :: 0 <= s < t < |out| ==> out[s] < out[t]
  {
    out := [];
    for x := 0 to a.Length
      invariant forall y :: y in out <==> 0 <= y < x && Eligible(a[..], y)
      invariant forall s, t :: 0 <= s < t < |out| ==> out[s] < out[t]
      invariant forall s :: 0 <= s < |out| ==> out[s] < x
    {
      if Eligible(a[..], x) {
        out := out + [x];
      }
    }
  }

  /** The ratio of eligible-node counts, before and after a move, that the
    * transplant operators take the logarithm of, as written: a division of
    * two ints, which truncates. */
  function EligibleRatioAsWritten(forward: nat, reverse: nat): (q: int)
    requires reverse > 0
    ensures q * reverse <= forward < q * reverse + reverse
  {
    forward / reverse
  }

  /** A move that adds an eligible node makes the truncated ratio 0, whose
    * logarithm is minus infinity: the proposal is then always rejected. */
  lemma EligibleRatioVanishes(forward: nat, reverse: nat)
    requires 0 < forward < reverse
    ensures EligibleRatioAsWritten(forward, reverse) == 0
    ensures EligibleRatio(forward, reverse) > 0.0
  {
  }

  /** The ratio as intended: the quotient of the counts as real numbers,
    * positive whenever some node was eligible before the move. */
  function EligibleRatio(forward: nat, reverse: nat): (q: real)
    requires reverse > 0
    ensures q * (reverse as real) == forward as real
    ensures forward > 0 ==> q > 0.0
  {
    forward as real / reverse as real
  }

  // ---------------------------------------------------------------------
  // Exchanges guarded by heights

  /** No parent is lower than its child: what a tree with valid times
    * promises. */
  predicate HeightsOrdered(ns: seq<NodeState>)
    requires ParentsInRange(ns)
  {
    forall x {:trigger ns[x].parent} :: 0 <= x < |ns| && ns[x].parent != -1 ==> ns[x].height <= ns[ns[x].parent].height
  }

  /** Heights ordered along parent links is the same as no node having a
    * child higher than itself. */
  lemma HeightsOrderedMeans(ns: seq<NodeState>)
    requires Linked(ns)
    ensures HeightsOrdered(ns) <==> forall y :: 0 <= y < |ns| ==> ChildrenNotHigher(ns, y)
  {
    if forall y :: 0 <= y < |ns| ==> ChildrenNotHigher(ns, y) {
      forall x | 0 <= x < |ns| && ns[x].parent != -1 ensures ns[x].height <= ns[ns[x].parent].height {
        var p := ns[x].parent;
        assert x in ns[p].children;
        var k :| 0 <= k < |ns[p].children| && ns[p].children[k] == x;
        assert ChildrenNotHigher(ns, p);
      }
    }
  }

  predicate Distinct(s: seq<int>)
  {
    forall a, b :: 0 <= a < b < |s| ==> s[a] != s[b]
  }

  /** A sequence without repeats is as long as the set of its values. */
  lemma {:induction false} DistinctSize(s: seq<int>, S: set<int>)
    requires Distinct(s) && forall c :: c in s <==> c in S
    ensures |s| == |S|
    decreases |s|
  {
    if |s| == 0 {
      assert forall c :: c !in S;
      assert S == {};
    } else {
      var t := s[1..];
      assert Distinct(t);
      forall c ensures c in t <==> c in S - {s[0]} {
        if c in S - {s[0]} {
          var k :| 0 <= k < |s| && s[k] == c;
          assert t[k - 1] == c;
        }
        if c in t {
          var k :| 0 <= k < |t| && t[k] == c;
          assert s[k + 1] == c;
        }
      }
      DistinctSize(t, S - {s[0]});
    }
  }

  /** s with the value v dropped. */
  function Without(s: seq<int>, v: int): (r: seq<int>)
    ensures forall x :: x in r ==> x in s && x != v
  {
    if |s| == 0 then [] else (if s[0] == v then [] else [s[0]]) + Without(s[1..], v)
  }

  lemma {:induction false} WithoutDistinct(s: seq<int>, v: int)
    requires Distinct(s)
    ensures Distinct(Without(s, v))
    ensures |Without(s, v)| + 1 >= |s|
    ensures v !in s ==> |Without(s, v)| == |s|
  {
    if |s| > 0 {
      DistinctTail(s);
      WithoutDistinct(s[1..], v);
      if s[0] != v {
        ConsDistinct(s[0], Without(s[1..], v));
      }
    }
  }

  /** The head of a sequence without repeats is not in its tail, which has
    * no repeats either. */
  lemma DistinctTail(s: seq<int>)
    requires Distinct(s) && |s| > 0
    ensures Distinct(s[1..]) && s[0] !in s[1..]
  {
    forall k | 0 <= k < |s| - 1 ensures s[1..][k] != s[0] {
      assert s[1..][k] == s[k + 1];
    }
  }

  /** Putting a new value in front keeps a sequence free of repeats. */
  lemma ConsDistinct(h: int, t: seq<int>)
    requires Distinct(t) && h !in t
    ensures Distinct([h] + t)
  {
    var w := [h] + t;
    forall a, b | 0 <= a < b < |w| ensures w[a] != w[b] {
      assert w[b] == t[b - 1];
      if a > 0 {
        assert w[a] == t[a - 1];
      }
    }
  }

  /** Pigeonholes: distinct values below n are at most n many. */
  lemma {:induction false} DistinctBounded(s: seq<int>, n: nat)
    requires Distinct(s)
    requires forall k :: 0 <= k < |s| ==> 0 <= s[k] < n
    ensures |s| <= n
    decreases n
  {
    if |s| > 0 {
      assert 0 <= s[0] < n;
      var w := Without(s, n - 1);
      WithoutDistinct(s, n - 1);
      forall k | 0 <= k < |w| ensures 0 <= w[k] < n - 1 {
        assert w[k] in w;
        var m :| 0 <= m < |s| && s[m] == w[k];
      }
      DistinctBounded(w, n - 1);
    }
  }

  /** A walk still inside the tree after b steps was inside at every step
    * before. */
  lemma StillInside(ns: seq<NodeState>, x: int, a: nat, b: nat)
    requires ParentsInRange(ns) && 0 <= x < |ns| && a <= b && Up(ns, x, b) != -1
    ensures 0 <= Up(ns, x, a) < |ns|
  {
    UpInRange(ns, x, a);
    UpAdd(ns, x, a, b - a);
  }

  /** Along a walk up a tree whose parents are never lower than their
    * children, heights do not fall; they rise strictly past i and past j,
    * so a stretch of the walk that ends as high as it starts avoids both. */
  lemma {:induction false} ChainHeights(r: seq<NodeState>, x: int, a: nat, b: nat, i: int, j: int)
    requires ParentsInRange(r) && HeightsOrdered(r) && 0 <= x < |r|
    requires 0 <= i < |r| && 0 <= j < |r| && r[i].parent != -1 && r[j].parent != -1
    requires r[i].height < r[r[i].parent].height && r[j].height < r[r[j].parent].height
    requires a <= b && 0 <= Up(r, x, b) < |r|
    ensures 0 <= Up(r, x, a) < |r| && r[Up(r, x, a)].height <= r[Up(r, x, b)].height
    ensures r[Up(r, x, a)].height == r[Up(r, x, b)].height ==>
      forall t :: a <= t < b ==> Up(r, x, t) != i && Up(r, x, t) != j
    decreases b - a
  {
    StillInside(r, x, a, b);
    if a < b {
      var c := Up(r, x, a);
      UpAdd(r, x, a, 1);
      UpOne(r, c);
      ChainHeights(r, x, a + 1, b, i, j);
    }
  }

  /** The exchanged tree keeps parents no lower than children, and i and j
    * sit strictly below their new parents. */
  lemma ExchangedHeights(ns: seq<NodeState>, i: int, j: int)
    requires Linked(ns) && HeightsOrdered(ns) && Exchangeable(ns, i, j)
    requires ns[i].height < ns[ns[j].parent].height && ns[j].height < ns[ns[i].parent].height
    ensures var r := Exchanged(ns, i, j, ns[i].parent, ns[j].parent);
      ParentsInRange(r) && HeightsOrdered(r) &&
      r[i].height < r[r[i].parent].height && r[j].height < r[r[j].parent].height
  {
    var iP, jP := ns[i].parent, ns[j].parent;
    ExchangedAt(ns, i, j, iP, jP);
    ExchangeLinks(ns, i, j);
  }

  /** A walk that is still inside the tree after |ns| steps has visited
    * some node twice. */
  lemma WalkRepeats(r: seq<NodeState>, x: int)
    requires ParentsInRange(r) && 0 <= x < |r| && Up(r, x, |r|) != -1
    ensures exists a: nat, b: nat :: a < b <= |r| && Up(r, x, a) == Up(r, x, b)
  {
    var n := |r|;
    var s := seq(n + 1, k requires 0 <= k <= n => Up(r, x, k));
    forall k | 0 <= k < |s| ensures 0 <= s[k] < n {
      StillInside(r, x, k, n);
    }
    if Distinct(s) {
      DistinctBounded(s, n);
      assert false;
    }
    var a, b :| 0 <= a < b < |s| && s[a] == s[b];
    assert Up(r, x, a) == Up(r, x, b);
  }

  /** A walk of d >= 1 steps along links that agree with those of an
    * acyclic tree does not come back to where it started. */
  lemma OldLinksNoCycle(ns: seq<NodeState>, r: seq<NodeState>, c: int, d: nat)
    requires Acyclic(ns) && |r| == |ns| && 0 <= c < |ns| && d >= 1
    requires forall t: nat :: t < d && 0 <= Up(r, c, t) < |r| ==> r[Up(r, c, t)].parent == ns[Up(r, c, t)].parent
    ensures Up(r, c, d) != c
  {
    UpAgree(r, ns, c, d);
    if Up(ns, c, d) == c {
      UpCycle(ns, c, d, |ns|);
      MulAtLeast(|ns|, d);
      UpExhausted(ns, c, |ns| * d);
      assert false;
    }
  }

  /** The parent links of r are those of the acyclic ns except at i and j;
    * r keeps parents no lower than children, strictly so above i and j. */
  predicate Regrafted(ns: seq<NodeState>, r: seq<NodeState>, i: int, j: int)
  {
    Acyclic(ns) && |r| == |ns| && ParentsInRange(r) && HeightsOrdered(r) &&
    0 <= i < |r| && 0 <= j < |r| && r[i].parent != -1 && r[j].parent != -1 &&
    r[i].height < r[r[i].parent].height && r[j].height < r[r[j].parent].height &&
    forall y {:trigger r[y].parent} :: 0 <= y < |r| && y != i && y != j ==> r[y].parent == ns[y].parent
  }

  /** The walk up r from any node leaves the tree within |r| steps:
    * otherwise it repeats a node, the stretch between the two visits ends
    * as high as it starts, so it avoids i and j, follows the links of ns,
    * and makes a cycle there. */
  lemma RegraftedWalkLeaves(ns: seq<NodeState>, r: seq<NodeState>, i: int, j: int, x: int)
    requires Regrafted(ns, r, i, j) && 0 <= x < |r|
    ensures Up(r, x, |r|) == -1
  {
    if Up(r, x, |r|) != -1 {
      WalkRepeats(r, x);
      var a: nat, b: nat :| a < b <= |r| && Up(r, x, a) == Up(r, x, b);
      var c, d := Up(r, x, a), b - a;
      StillInside(r, x, b, |r|);
      ChainHeights(r, x, a, b, i, j);
      forall t: nat | t < d && 0 <= Up(r, c, t) < |r| ensures r[Up(r, c, t)].parent == ns[Up(r, c, t)].parent {
        UpAdd(r, x, a, t);
      }
      UpAdd(r, x, a, d);
      OldLinksNoCycle(ns, r, c, d);
      assert false;
    }
  }

  /**
   * The height guards of the exchange operators make the exchange safe:
   * when no parent is lower than its child, and each node goes under a
   * parent strictly higher than itself, the exchange leaves no cycle.
   */
  lemma ExchangeByHeightAcyclic(ns: seq<NodeState>, i: int, j: int)
    requires Linked(ns) && Acyclic(ns) && HeightsOrdered(ns) && Exchangeable(ns, i, j)
    requires ns[i].height < ns[ns[j].parent].height && ns[j].height < ns[ns[i].parent].height
    ensures Acyclic(Exchanged(ns, i, j, ns[i].parent, ns[j].parent))
  {
    var iP, jP := ns[i].parent, ns[j].parent;
    var r := Exchanged(ns, i, j, iP, jP);
    ExchangedHeights(ns, i, j);
    forall y | 0 <= y < |r| && y != i && y != j ensures r[y].parent == ns[y].parent {
      ExchangedNodeAt(ns, i, j, iP, jP, y);
    }
    assert Regrafted(ns, r, i, j);
    forall x | 0 <= x < |r| ensures Up(r, x, |r|) == -1 {
      RegraftedWalkLeaves(ns, r, i, j, x);
    }
  }

  /**
   * In a tree whose parents are never lower than their children, an
   * exchange that puts each node under a strictly higher parent leaves a
   * tree with the same root whose parents are still never lower, with
   * every node keeping its element and height.
   */
  lemma GuardedExchangeKeepsTree(ns: seq<NodeState>, root: int, i: int, j: int)
    requires Tree(ns, root) && HeightsOrdered(ns) && Exchangeable(ns, i, j)
    requires ns[i].height < ns[ns[j].parent].height && ns[j].height < ns[ns[i].parent].height
    ensures var r := Exchanged(ns, i, j, ns[i].parent, ns[j].parent);
      Tree(r, root) && HeightsOrdered(r) &&
      forall x :: 0 <= x < |ns| ==> r[x].element == ns[x].element && r[x].height == ns[x].height
  {
    ExchangeByHeightAcyclic(ns, i, j);
    ExchangeKeepsTree(ns, i, j, root);
    ExchangedHeights(ns, i, j);
    ExchangedAt(ns, i, j, ns[i].parent, ns[j].parent);
  }

  /** exchangeNodes on a partitioned tree, for an exchange the height
    * guards allow: the tree stays valid with its heights ordered, and i
    * and j have traded parents. */
  method GuardedExchange(tree: PartitionedTree, i: int, j: int)
    requires tree.Valid() && HeightsOrdered(tree.nodes[..]) && Exchangeable(tree.nodes[..], i, j)
    requires tree.nodes[i].height < tree.nodes[tree.nodes[j].parent].height
    requires tree.nodes[j].height < tree.nodes[tree.nodes[i].parent].height
    modifies tree.nodes
    ensures tree.Valid() && HeightsOrdered(tree.nodes[..])
    ensures tree.nodes[..] == Exchanged(old(tree.nodes[..]), i, j, old(tree.nodes[i].parent), old(tree.nodes[j].parent))
    ensures tree.nodes[i].parent == old(tree.nodes[j].parent) && tree.nodes[j].parent == old(tree.nodes[i].parent)
  {
    ghost var ns := tree.nodes[..];
    var iP, jP := tree.nodes[i].parent, tree.nodes[j].parent;
    GuardedExchangeKeepsTree(ns, tree.root, i, j);
    ExchangedNodeAt(ns, i, j, iP, jP, i);
    ExchangedNodeAt(ns, i, j, iP, jP, j);
    assert i in ns[iP].children && j in ns[jP].children;
    ExchangeNodes(tree.nodes, i, j, iP, jP);
  }

  lemma SwapBack(cs: seq<int>, a: int, b: int)
    requires b !in cs
    ensures SwapIn(SwapIn(cs, a, b), b, a) == cs
  {
    var ds := SwapIn(SwapIn(cs, a, b), b, a);
    forall k | 0 <= k < |cs| ensures ds[k] == cs[k] {
      assert cs[k] != b;
    }
  }

  lemma ExchangeBackAt(ns: seq<NodeState>, i: int, j: int, x: int)
    requires Linked(ns) && Exchangeable(ns, i, j) && 0 <= x < |ns|
    ensures var r := Exchanged(ns, i, j, ns[i].parent, ns[j].parent);
      Exchanged(r, i, j, ns[j].parent, ns[i].parent)[x] == ns[x]
  {
    var iP, jP := ns[i].parent, ns[j].parent;
    var r := Exchanged(ns, i, j, iP, jP);
    ExchangedNodeAt(ns, i, j, iP, jP, x);
    ExchangedNodeAt(ns, i, j, iP, jP, iP);
    ExchangedNodeAt(ns, i, j, iP, jP, jP);
    ExchangedNodeAt(r, i, j, jP, iP, x);
    if x == iP {
      assert j !in ns[iP].children;
      SwapBack(ns[iP].children, i, j);
    } else if x == jP {
      assert i !in ns[jP].children;
      SwapBack(ns[jP].children, j, i);
    }
  }

  /** Exchanging the same two nodes again, with their new parents, puts the
    * tree back as it was. */
  lemma ExchangeTwiceRestores(ns: seq<NodeState>, i: int, j: int)
    requires Linked(ns) && Acyclic(ns) && Exchangeable(ns, i, j)
    ensures var r := Exchanged(ns, i, j, ns[i].parent, ns[j].parent);
      Linked(r) && Exchangeable(r, i, j) && Exchanged(r, i, j, r[i].parent, r[j].parent) == ns
  {
    var iP, jP := ns[i].parent, ns[j].parent;
    var r := Exchanged(ns, i, j, iP, jP);
    ExchangeLinks(ns, i, j);
    ExchangedNodeAt(ns, i, j, iP, jP, i);
    ExchangedNodeAt(ns, i, j, iP, jP, j);
    ChildNotAbove(ns, i, 0);
    ChildNotAbove(ns, j, 0);
    var q := Exchanged(r, i, j, jP, iP);
    forall x | 0 <= x < |ns| ensures q[x] == ns[x] {
      ExchangeBackAt(ns, i, j, x);
    }
  }
}
