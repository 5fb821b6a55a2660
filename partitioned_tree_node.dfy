/**
 * One node of a partitioned phylogeny as an object: the scalar fields it
 * shares with an ordinary tree node (height, label number, metadata string,
 * ID), its parent and child links, and the two fields a partitioned node adds,
 * the partition element number and the cache index, both -1 until set.
 */
module PartitionedTreeNodes {

  /** The scalar contents of a subtree, with the children's subtrees in order. */
  datatype NodeValue = NodeValue(
    height: real,
    labelNr: int,
    metaDataString: string,
    id: string,
    cacheIndex: int,
    partitionElementNumber: int,
    kids: seq<NodeValue>)

  class PartitionedTreeNode {
    var height: real
    var labelNr: int
    var metaDataString: string
    var id: string
    var parent: PartitionedTreeNode?
    /** getLeft()/getRight(): the first and second child, if any. */
    var left: PartitionedTreeNode?
    var right: PartitionedTreeNode?
    var partitionElementNumber: int
    var cacheIndex: int

    /** The nodes strictly below this one. */
    ghost var Repr: set<PartitionedTreeNode>
    /** The contents of the subtree rooted here. */
    ghost var Value: NodeValue

    /**
     * A well-formed bifurcating subtree: a right child only beside a left
     * one, each child below this node together with its own subtree, the two
     * subtrees apart, every child's parent link pointing back, and Value
     * describing the contents.  The node's own parent link is not part of its
     * subtree.
     */
    ghost predicate Valid()
      reads this`left, this`right, this`Repr, this`Value, this`height, this`labelNr
      reads this`metaDataString, this`id, this`cacheIndex, this`partitionElementNumber, Repr
      decreases Repr
    {
      this !in Repr &&
      (right != null ==> left != null) &&
      (left != null ==>
         left in Repr && left.Repr <= Repr && left !in left.Repr && left.parent == this && left.Valid()) &&
      (right != null ==>
         right in Repr && right.Repr <= Repr && right !in right.Repr && right.parent == this && right.Valid()) &&
      (left != null && right != null ==>
         left != right && left !in right.Repr && right !in left.Repr && left.Repr !! right.Repr) &&
      Value == NodeValue(height, labelNr, metaDataString, id, cacheIndex, partitionElementNumber, KidValues())
    }

    /** The contents of the children's subtrees, in order. */
    ghost function KidValues(): seq<NodeValue>
      reads this`left, this`right, left, right
    {
      if left == null then []
      else if right == null then [left.Value]
      else [left.Value, right.Value]
    }

    /**
     * A fresh node without parent or children.  The partition element number
     * and the cache index start at -1; the fields inherited from the plain
     * tree node are given by the caller.
     */
    constructor (h: real, nr: int, meta: string, name: string)
      ensures Valid() && Repr == {}
      ensures height == h && labelNr == nr && metaDataString == meta && id == name
      ensures parent == null && left == null && right == null
      ensures partitionElementNumber == -1 && cacheIndex == -1
    {
      height := h;
      labelNr := nr;
      metaDataString := meta;
      id := name;
      parent := null;
      left := null;
      right := null;
      partitionElementNumber := -1;
      cacheIndex := -1;
      Repr := {};
      Value := NodeValue(h, nr, meta, name, -1, -1, []);
    }

    function GetCacheIndex(): int
      reads this
    {
      cacheIndex
    }

    /** Stores the cache index that GetCacheIndex then returns; nothing else changes. */
    method SetCacheIndex(v: int)
      requires Valid()
      modifies this
      ensures GetCacheIndex() == v
      ensures Valid() && Repr == old(Repr) && Value == old(Value).(cacheIndex := v)
      ensures partitionElementNumber == old(partitionElementNumber) && height == old(height)
      ensures labelNr == old(labelNr) && metaDataString == old(metaDataString) && id == old(id)
      ensures parent == old(parent) && left == old(left) && right == old(right)
    {
      cacheIndex := v;
      Value := Value.(cacheIndex := v);
    }

    function GetPartitionElementNumber(): int
      reads this
    {
      partitionElementNumber
    }

    /** Stores the element that GetPartitionElementNumber then returns; nothing else changes. */
    method SetPartitionElementNumber(v: int)
      requires Valid()
      modifies this
      ensures GetPartitionElementNumber() == v
      ensures Valid() && Repr == old(Repr) && Value == old(Value).(partitionElementNumber := v)
      ensures cacheIndex == old(cacheIndex) && height == old(height)
      ensures labelNr == old(labelNr) && metaDataString == old(metaDataString) && id == old(id)
      ensures parent == old(parent) && left == old(left) && right == old(right)
    {
      partitionElementNumber := v;
      Value := Value.(partitionElementNumber := v);
    }

    /**
     * shallowCopy: a fresh node with this node's scalar fields that shares this
     * node's parent and children (the children's parent links still point
     * here).
     */
    method ShallowCopy() returns (node: PartitionedTreeNode)
      ensures fresh(node)
      ensures node.height == height && node.labelNr == labelNr && node.metaDataString == metaDataString && node.id == id
      ensures node.partitionElementNumber == partitionElementNumber && node.cacheIndex == cacheIndex
      ensures node.parent == parent && node.left == left && node.right == right
    {
      node := new PartitionedTreeNode(height, labelNr, metaDataString, id);
      node.parent := parent;
      node.left := left;
      node.right := right;
      node.partitionElementNumber := partitionElementNumber;
      node.cacheIndex := cacheIndex;
    }

    /**
     * A node with the scalar fields h, nr, meta, name, ci and pe, no parent,
     * and l and r (when present) as its left and right child, whose parent
     * links are set to it: new, followed by setLeft/setRight and setParent.
     */
    constructor Join(h: real, nr: int, meta: string, name: string, ci: int, pe: int,
                     l: PartitionedTreeNode?, r: PartitionedTreeNode?)
      requires r != null ==> l != null
      requires l != null ==> l.Valid()
      requires r != null ==> r.Valid()
      requires l != null && r != null ==> l != r && l !in r.Repr && r !in l.Repr && l.Repr !! r.Repr
      modifies l, r
      ensures Valid() && parent == null && left == l && right == r
      ensures Value == NodeValue(h, nr, meta, name, ci, pe,
        if l == null then [] else if r == null then [old(l.Value)] else [old(l.Value), old(r.Value)])
      ensures Repr == (if l == null then {} else {l} + old(l.Repr)) + (if r == null then {} else {r} + old(r.Repr))
    {
      height := h;
      labelNr := nr;
      metaDataString := meta;
      id := name;
      parent := null;
      left := l;
      right := r;
      partitionElementNumber := pe;
      cacheIndex := ci;
      Repr := (if l == null then {} else {l} + l.Repr) + (if r == null then {} else {r} + r.Repr);
      Value := NodeValue(h, nr, meta, name, ci, pe,
        if l == null then [] else if r == null then [l.Value] else [l.Value, r.Value]);
      new;
      if l != null {
        l.parent := this;
      }
      if r != null {
        r.parent := this;
      }
    }

    /** Assigns every field of this node at once. */
    method Overwrite(h: real, nr: int, meta: string, name: string, ci: int, pe: int,
                     p: PartitionedTreeNode?, l: PartitionedTreeNode?, r: PartitionedTreeNode?,
                     ghost R: set<PartitionedTreeNode>, ghost V: NodeValue)
      modifies this
      ensures height == h && labelNr == nr && metaDataString == meta && id == name
      ensures cacheIndex == ci && partitionElementNumber == pe
      ensures parent == p && left == l && right == r && Repr == R && Value == V
    {
      height, labelNr, metaDataString, id, parent, left, right, partitionElementNumber, cacheIndex :=
        h, nr, meta, name, p, l, r, pe, ci;
      Repr, Value := R, V;
    }

    /**
     * Overwrites this node's scalar fields with h, nr, meta, name, ci and pe,
     * its parent link with p and its children with l and r, whose parent links
     * already point here.
     */
    method Rewire(h: real, nr: int, meta: string, name: string, ci: int, pe: int,
                  p: PartitionedTreeNode?, l: PartitionedTreeNode?, r: PartitionedTreeNode?)
      requires r != null ==> l != null
      requires l != null ==> l != this && this !in l.Repr && l.parent == this && l.Valid()
      requires r != null ==> r != this && this !in r.Repr && r.parent == this && r.Valid()
      requires l != null && r != null ==> l != r && l !in r.Repr && r !in l.Repr && l.Repr !! r.Repr
      modifies this
      ensures Valid() && parent == p && left == l && right == r
      ensures Value == NodeValue(h, nr, meta, name, ci, pe,
        if l == null then [] else if r == null then [old(l.Value)] else [old(l.Value), old(r.Value)])
      ensures Repr == (if l == null then {} else {l} + old(l.Repr)) + (if r == null then {} else {r} + old(r.Repr))
    {
      Overwrite(h, nr, meta, name, ci, pe, p, l, r,
        (if l == null then {} else {l} + l.Repr) + (if r == null then {} else {r} + r.Repr),
        NodeValue(h, nr, meta, name, ci, pe,
          if l == null then [] else if r == null then [l.Value] else [l.Value, r.Value]));
    }

    /**
     * copy: a deep copy of the subtree, made of fresh nodes only, with the same
     * contents and shape and no parent; the left child (and, when there is a
     * left child, the right child) is copied recursively and attached to the
     * new node.
     */
    method Copy() returns (node: PartitionedTreeNode)
      requires Valid()
      ensures fresh(node) && fresh(node.Repr) && node.Valid()
      ensures node.Value == Value
      ensures node.parent == null
      decreases Repr
    {
      var l: PartitionedTreeNode? := null;
      var r: PartitionedTreeNode? := null;
      if left != null {
        l := left.Copy();
        if right != null {
          r := right.Copy();
        }
      }
      node := new PartitionedTreeNode.Join(height, labelNr, metaDataString, id, cacheIndex, partitionElementNumber, l, r);
    }

    /**
     * assignFrom: makes this node, taken from the array nodes indexed by node
     * number, a copy of the subtree src with no parent; src's children are
     * matched with nodes[child.labelNr], which are filled in recursively and
     * linked under this node.  The array's nodes lie outside src, whose
     * contents are read and left alone.
     */
    method AssignFrom(nodes: array<PartitionedTreeNode>, src: PartitionedTreeNode)
      requires src.Valid() && Numbered(nodes, src.Value) && Distinct(nodes)
      requires forall i :: 0 <= i < nodes.Length ==> nodes[i] !in src.Repr && nodes[i] != src
      requires this == nodes[src.labelNr]
      modifies Image(nodes, Labels(src.Value))
      ensures Valid() && parent == null && Value == src.Value
      ensures {this} + Repr <= Image(nodes, Labels(src.Value))
    {
      var v := src.Contents();
      AssignBelow(nodes, v, null);
    }

    /** Reads the fields of the subtree's nodes into a value. */
    method Contents() returns (v: NodeValue)
      requires Valid()
      ensures v == Value
      decreases Repr
    {
      var kids: seq<NodeValue> := [];
      if left != null {
        var vl := left.Contents();
        kids := [vl];
        if right != null {
          var vr := right.Contents();
          kids := kids + [vr];
        }
      }
      v := NodeValue(height, labelNr, metaDataString, id, cacheIndex, partitionElementNumber, kids);
    }

    /**
     * The recursion of assignFrom over the contents v of the source subtree,
     * with the parent link p that the caller gives this node once it returns
     * (null at the top).
     */
    method AssignBelow(nodes: array<PartitionedTreeNode>, v: NodeValue, p: PartitionedTreeNode?)
      requires Numbered(nodes, v) && Distinct(nodes)
      requires this == nodes[v.labelNr]
      modifies Image(nodes, Labels(v))
      ensures Valid() && parent == p && Value == v
      ensures {this} + Repr <= Image(nodes, Labels(v))
      decreases v, 1
    {
      if |v.kids| == 0 {
        Rewire(v.height, v.labelNr, v.metaDataString, v.id, v.cacheIndex, v.partitionElementNumber, p, null, null);
      } else {
        var vl := v.kids[0];
        ghost var IL := Image(nodes, Labels(vl));
        assert IL <= Image(nodes, Labels(v)) && this !in IL by {
          ImageApart(nodes, {v.labelNr}, Labels(vl));
        }
        var l := nodes[vl.labelNr];
        l.AssignBelow(nodes, vl, this);
        if |v.kids| == 1 {
          assert v == NodeValue(v.height, v.labelNr, v.metaDataString, v.id, v.cacheIndex, v.partitionElementNumber, [vl]);
          Rewire(v.height, v.labelNr, v.metaDataString, v.id, v.cacheIndex, v.partitionElementNumber, p, l, null);
        } else {
          AssignRight(nodes, v, p, l);
        }
      }
    }

    /**
     * The second half of assignFrom for a node with two children, once the
     * left child l has been filled in: fills in the right child and links
     * both under this node.
     */
    method AssignRight(nodes: array<PartitionedTreeNode>, v: NodeValue, p: PartitionedTreeNode?,
                       l: PartitionedTreeNode)
      requires Numbered(nodes, v) && Distinct(nodes) && |v.kids| == 2
      requires this == nodes[v.labelNr]
      requires l.Valid() && l.parent == this && l.Value == v.kids[0]
      requires {l} + l.Repr <= Image(nodes, Labels(v.kids[0]))
      modifies Image(nodes, Labels(v))
      ensures Valid() && parent == p && Value == v
      ensures {this} + Repr <= Image(nodes, Labels(v))
      decreases v, 0
    {
      var vl, vr := v.kids[0], v.kids[1];
      assert v == NodeValue(v.height, v.labelNr, v.metaDataString, v.id, v.cacheIndex, v.partitionElementNumber, [vl, vr]);
      ghost var I := Image(nodes, Labels(v));
      ghost var IL := Image(nodes, Labels(vl));
      ghost var IR := Image(nodes, Labels(vr));
      assert IL <= I && IR <= I && this !in IR && this !in IL && IL !! IR by {
        ImageApart(nodes, {v.labelNr}, Labels(vr));
        ImageApart(nodes, {v.labelNr}, Labels(vl));
        ImageApart(nodes, Labels(vl), Labels(vr));
        ImageGrows(nodes, Labels(vl), Labels(v));
        ImageGrows(nodes, Labels(vr), Labels(v));
      }
      ghost var LR := l.Repr;
      assert ({l} + LR) !! IR;
      var r := nodes[vr.labelNr];
      r.AssignBelow(nodes, vr, this);
      assert l.Repr == LR && l.Valid() && l.parent == this && l.Value == vl;
      assert {r} + r.Repr <= IR;
      Rewire(v.height, v.labelNr, v.metaDataString, v.id, v.cacheIndex, v.partitionElementNumber, p, l, r);
    }
  }

  /** The node numbers of a subtree. */
  ghost function Labels(v: NodeValue): set<int>
  {
    {v.labelNr} +
    (if |v.kids| > 0 then Labels(v.kids[0]) else {}) +
    (if |v.kids| > 1 then Labels(v.kids[1]) else {})
  }

  /**
   * Every node number of the (at most binary) subtree v indexes nodes, and no
   * two of its nodes share a number.
   */
  ghost predicate Numbered(nodes: array<PartitionedTreeNode>, v: NodeValue)
  {
    0 <= v.labelNr < nodes.Length && |v.kids| <= 2 &&
    (|v.kids| > 0 ==> v.labelNr !in Labels(v.kids[0]) && Numbered(nodes, v.kids[0])) &&
    (|v.kids| > 1 ==> v.labelNr !in Labels(v.kids[1]) && Numbered(nodes, v.kids[1]) &&
                      Labels(v.kids[0]) !! Labels(v.kids[1]))
  }

  /** No node object occurs twice in the array. */
  ghost predicate Distinct(nodes: array<PartitionedTreeNode>)
    reads nodes
  {
    forall i, j :: 0 <= i < j < nodes.Length ==> nodes[i] != nodes[j]
  }

  /** The array entries at the numbers in L. */
  ghost function Image(nodes: array<PartitionedTreeNode>, L: set<int>): set<PartitionedTreeNode>
    reads nodes
  {
    set i | i in L && 0 <= i < nodes.Length :: nodes[i]
  }

  lemma ImageGrows(nodes: array<PartitionedTreeNode>, L: set<int>, M: set<int>)
    requires L <= M
    ensures Image(nodes, L) <= Image(nodes, M)
  {
  }

  /** Disjoint sets of numbers pick disjoint entries of an array without repeats. */
  lemma ImageApart(nodes: array<PartitionedTreeNode>, L: set<int>, M: set<int>)
    requires Distinct(nodes) && L !! M
    ensures Image(nodes, L) !! Image(nodes, M)
  {
    forall i, j | i in L && j in M && 0 <= i < nodes.Length && 0 <= j < nodes.Length
      ensures nodes[i] != nodes[j]
    {
      assert i != j;
    }
  }
}
