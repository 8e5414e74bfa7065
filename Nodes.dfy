/**
 * The mutable prefix tree: class `Node` (phraser.py:106-114) and the
 * recursive in-place insertion `add_to_node` (phraser.py:83-103).
 */
module Nodes {
  import opened TrieSpec

  /** A tree node. `children` maps each following word to a node that this
      node alone owns; `Tree` is the value of the whole subtree and `Repr` the
      set of nodes in it. */
  class Node {
    var count: nat
    var children: map<string, Node>
    ghost var Tree: Trie
    ghost var Repr: set<object>

    /** The subtrees of distinct children share no node, no node lies below
        itself, and `Tree` records the counts and words of the subtree. */
    ghost predicate Valid()
      reads this, Repr
      decreases Repr
    {
      this in Repr &&
      Tree.count == count &&
      Tree.children.Keys == children.Keys &&
      (forall w :: w in children ==>
        children[w] in Repr && children[w].Repr <= Repr && this !in children[w].Repr) &&
      (forall w, v :: w in children && v in children && w != v ==> children[w].Repr !! children[v].Repr) &&
      (forall w :: w in children ==> children[w].Tree == Tree.children[w] && children[w].Valid())
    }

    /** `Node(count, {})`: a node with the given count and a fresh, empty
        children map of its own. */
    constructor (count: nat)
      ensures Valid() && fresh(Repr)
      ensures Tree == Leaf(count)
      ensures this.count == count && children == map[]
    {
      this.count := count;
      children := map[];
      Tree := Leaf(count);
      Repr := {this};
    }

    /** After the subtree under `w` was replaced by a valid one whose nodes
        are either new or were already below `w`, the node is valid again. */
    twostate lemma Reattach(w: string)
      requires old(Valid())
      requires w in children
      requires count == old(count) && children.Keys == old(children).Keys + {w}
      requires forall v :: v in children && v != w ==> v in old(children) && children[v] == old(children[v])
      requires children[w].Valid() && this !in children[w].Repr
      requires Repr == old(Repr) + children[w].Repr
      requires Tree == Trie(old(Tree.count), old(Tree.children)[w := children[w].Tree])
      requires forall o :: o in children[w].Repr ==> !old(allocated(o)) || (w in old(children) && o in old(children[w].Repr))
      requires forall o :: o in old(Repr) && o != this && !(w in old(children) && o in old(children[w].Repr)) ==> unchanged(o)
      ensures Valid()
    {
      forall v | v in children && v != w
        ensures children[v].Valid() && children[v].Repr == old(children[v].Repr) && children[v].Tree == old(children[v].Tree)
      {
        Untouched(children[v]);
      }
      Reassemble(this, w);
    }
  }

  /** A node whose own fields and each of whose children satisfy the parts of
      `Valid` that concern them is valid. */
  lemma Reassemble(node: Node, w: string)
    requires node in node.Repr && w in node.children
    requires node.Tree.count == node.count && node.Tree.children.Keys == node.children.Keys
    requires var c := node.children[w];
      c in node.Repr && c.Repr <= node.Repr && node !in c.Repr && c.Tree == node.Tree.children[w] && c.Valid()
    requires forall v :: v in node.children && v != w ==>
      var d := node.children[v];
      d in node.Repr && d.Repr <= node.Repr && node !in d.Repr && d.Tree == node.Tree.children[v] && d.Valid()
        && d.Repr !! node.children[w].Repr
    requires forall v, u :: v in node.children && u in node.children && v != u && v != w && u != w ==>
      node.children[v].Repr !! node.children[u].Repr
    ensures node.Valid()
  {
  }

  /** A valid node none of whose nodes changed is still valid, with the same
      footprint and value. */
  twostate lemma Untouched(d: Node)
    requires old(d.Valid())
    requires forall o :: o in old(d.Repr) ==> unchanged(o)
    ensures d.Valid() && d.Repr == old(d.Repr) && d.Tree == old(d.Tree)
  {
  }

  /** Incrementing a valid node's count (`oldchild.count += 1`) and its
      value's count together keeps it valid. */
  twostate lemma Bumped(c: Node)
    requires old(c.Valid())
    requires c.count == old(c.count) + 1 && c.Tree == Bump(old(c.Tree))
    requires c.children == old(c.children) && c.Repr == old(c.Repr)
    requires forall o :: o in old(c.Repr) && o != c ==> unchanged(o)
    ensures c.Valid()
  {
    forall v | v in c.children
      ensures c.children[v].Valid()
    {
      Untouched(c.children[v]);
    }
  }

  /** `add_to_node(node, phrase)`: walks `phrase` down from `node`, incrementing
      the count of every child it passes and creating each missing child with
      count 1; returns `node` itself, whose value is now that of `Insert`. */
  method AddToNode(node: Node, phrase: seq<string>) returns (r: Node)
    requires node.Valid()
    modifies node.Repr
    ensures r == node
    ensures node.Valid() && fresh(node.Repr - old(node.Repr))
    ensures node.Tree == Insert(old(node.Tree), phrase)
    decreases |phrase|, 1
  {
    if |phrase| == 0 {
      return node;
    }
    if node.children != map[] && phrase[0] in node.children {
      DescendExisting(node, phrase);
    } else {
      DescendNew(node, phrase);
    }
    return node;
  }

  /** The branch of `add_to_node` for a first word that already has a child:
      that child's count goes up by one and the rest of the phrase goes below it. */
  method DescendExisting(node: Node, phrase: seq<string>)
    requires node.Valid() && |phrase| > 0 && phrase[0] in node.children
    modifies node.Repr
    ensures node.Valid() && fresh(node.Repr - old(node.Repr))
    ensures node.Tree == Insert(old(node.Tree), phrase)
    decreases |phrase|, 0
  {
    var w := phrase[0];
    var oldchild := node.children[w];
    oldchild.count, oldchild.Tree := oldchild.count + 1, Bump(oldchild.Tree);
    Bumped(oldchild);
    oldchild := AddToNode(oldchild, phrase[1..]);
    node.Repr, node.Tree := node.Repr + oldchild.Repr, Trie(node.count, node.Tree.children[w := oldchild.Tree]);
    node.Reattach(w);
  }

  /** The branch of `add_to_node` for a first word without a child: a new child
      with count 1 is attached and the rest of the phrase goes below it. */
  method DescendNew(node: Node, phrase: seq<string>)
    requires node.Valid() && |phrase| > 0 && phrase[0] !in node.children
    modifies node.Repr
    ensures node.Valid() && fresh(node.Repr - old(node.Repr))
    ensures node.Tree == Insert(old(node.Tree), phrase)
    decreases |phrase|, 0
  {
    var w := phrase[0];
    var newchild := new Node(1);
    node.children := node.children[w := newchild];
    newchild := AddToNode(newchild, phrase[1..]);
    node.Repr, node.Tree := node.Repr + newchild.Repr, Trie(node.count, node.Tree.children[w := newchild.Tree]);
    node.Reattach(w);
  }
}
