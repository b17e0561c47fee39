/** offer_node: a node with strong links to its children and a weak one back to its parent. */
module OfferNodes {
  import opened Feed

  class OfferNode {
    var parent: OfferNode?
    var children: seq<OfferNode>
    var name: string
    var data: string

    /** What the node and everything below it amount to, set when the node takes no more changes. */
    ghost var tree: Tree

    constructor (name: string, data: string)
      ensures parent == null && children == [] && this.name == name && this.data == data
      ensures tree == Leaf(name, data)
    {
      this.parent, this.children, this.name, this.data := null, [], name, data;
      this.tree := Leaf(name, data);
    }

    /** Links both ways. */
    method AddChild(node: OfferNode)
      modifies this`children, node`parent
      ensures node.parent == this
      ensures children == old(children) + [node]
    {
      node.parent := this;
      children := children + [node];
    }
  }

  /** The nodes `cs` are the distinct finished children of `n` with the trees `kids`. */
  ghost predicate ChildrenOf(n: OfferNode, cs: seq<OfferNode>, kids: seq<Tree>, done: set<OfferNode>)
    reads done
  {
    && |cs| == |kids|
    && (forall i, j | 0 <= i < j < |cs| :: cs[i] != cs[j])
    && (forall k | 0 <= k < |cs| :: cs[k] in done && cs[k].parent == n && cs[k].tree == kids[k])
  }

  /**
   The links from the `done` nodes make trees: a node's children are done nodes which link back to it, and its
   `tree` is made of theirs, so that no chain of children can come back to where it began.
   */
  ghost predicate AllDone(done: set<OfferNode>)
    reads done
  {
    forall n | n in done ::
      n.tree.name == n.name && n.tree.data == n.data && ChildrenOf(n, n.children, n.tree.kids, done)
  }

  lemma {:induction false} MoreDone(n: OfferNode, cs: seq<OfferNode>, kids: seq<Tree>, done: set<OfferNode>,
                                    more: set<OfferNode>)
    requires ChildrenOf(n, cs, kids, done) && done <= more
    ensures ChildrenOf(n, cs, kids, more)
  {
  }

  /** A node whose children are done may join them. */
  lemma {:induction false} OneMoreDone(n: OfferNode, done: set<OfferNode>)
    requires AllDone(done)
    requires n.tree.name == n.name && n.tree.data == n.data && ChildrenOf(n, n.children, n.tree.kids, done)
    ensures AllDone(done + {n})
  {
    forall m | m in done + {n}
      ensures m.tree.name == m.name && m.tree.data == m.data && ChildrenOf(m, m.children, m.tree.kids, done + {n})
    {
      MoreDone(m, m.children, m.tree.kids, done, done + {n});
    }
  }

  lemma {:induction false} OneMoreChild(n: OfferNode, cs: seq<OfferNode>, kids: seq<Tree>, done: set<OfferNode>,
                                        c: OfferNode)
    requires ChildrenOf(n, cs, kids, done) && c in done && c.parent == n && c !in cs
    ensures ChildrenOf(n, cs + [c], kids + [c.tree], done)
  {
  }
}
