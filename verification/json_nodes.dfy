// The doubly linked child lists of JSON nodes.

module JsonNodes {
  import opened Bytes
  import opened Options

  class Node {
    var key: Option<seq<byte>>
    var parent: Node?
    var prev: Node?
    var next: Node?
    var head: Node?  // children.head
    var tail: Node?  // children.tail
    ghost var kids: seq<Node>

    constructor ()
      ensures Linked() && kids == [] && parent == null
    {
      key, parent, prev, next, head, tail, kids := None, null, null, null, null, null, [];
    }

    // What json_check looks for: the links of the children, both ways, make up the list.
    ghost predicate Linked()
      reads this, kids
    {
      && head == At(kids, 0) && tail == At(kids, |kids| - 1)
      && (forall i, j :: 0 <= i < j < |kids| ==> kids[i] != kids[j])
      && forall i :: 0 <= i < |kids| ==> Link(i)
    }

    ghost predicate Link(i: int)
      requires 0 <= i < |kids|
      reads this, kids
    {
      && kids[i] != this && kids[i].parent == this
      && kids[i].prev == At(kids, i - 1) && kids[i].next == At(kids, i + 1)
    }

    // The node at a position, null beyond the ends.
    static ghost function At(kids: seq<Node>, i: int): Node? {
      if 0 <= i < |kids| then kids[i] else null
    }

    // A node that may be missing, as a frame.
    static ghost function Touched(n: Node?): set<Node> {
      if n == null then {} else {n}
    }
  }

  // append_node
  method AppendNode(parent: Node, child: Node)
    requires parent.Linked() && child.parent == null && child != parent
    modifies parent`head, parent`tail, parent`kids, child`parent, child`prev, child`next, Node.Touched(parent.tail)`next
    ensures parent.Linked() && parent.kids == old(parent.kids) + [child]
  {
    forall i | 0 <= i < |parent.kids|
      ensures parent.Link(i) && parent.kids[i] != child
    {
      assert parent.Link(i);
    }
    child.parent := parent;
    child.prev := parent.tail;
    child.next := null;
    if parent.tail != null {
      parent.tail.next := child;
    } else {
      parent.head := child;
    }
    parent.tail := child;
    parent.kids := parent.kids + [child];
    forall i | 0 <= i < |parent.kids|
      ensures parent.Link(i)
    {
      assert i + 1 < |parent.kids| ==> old(parent.Link(i));
    }
  }

  // prepend_node
  method PrependNode(parent: Node, child: Node)
    requires parent.Linked() && child.parent == null && child != parent
    modifies parent`head, parent`tail, parent`kids, child`parent, child`prev, child`next, Node.Touched(parent.head)`prev
    ensures parent.Linked() && parent.kids == [child] + old(parent.kids)
  {
    forall i | 0 <= i < |parent.kids|
      ensures parent.Link(i) && parent.kids[i] != child
    {
      assert parent.Link(i);
    }
    child.parent := parent;
    child.prev := null;
    child.next := parent.head;
    if parent.head != null {
      parent.head.prev := child;
    } else {
      parent.tail := child;
    }
    parent.head := child;
    parent.kids := [child] + parent.kids;
    forall i | 0 <= i < |parent.kids|
      ensures parent.Link(i)
    {
      assert i > 0 ==> old(parent.Link(i - 1));
    }
  }

  // json_remove_from_parent
  method RemoveFromParent(node: Node, ghost at: nat)
    requires node.parent != null ==> node.parent.Linked() && at < |node.parent.kids| && node.parent.kids[at] == node
    modifies node`parent, node`prev, node`next, node`key, Node.Touched(node.prev)`next, Node.Touched(node.next)`prev,
             Node.Touched(node.parent)`head, Node.Touched(node.parent)`tail, Node.Touched(node.parent)`kids
    ensures node.parent == null
    ensures old(node.parent) != null ==>
              var p := old(node.parent);
              && p.Linked() && node.prev == node.next == null && node.key == None
              && p.kids == old(p.kids)[..at] + old(p.kids)[at + 1..]
  {
    var parent := node.parent;
    if parent != null {
      assert parent.Link(at);
      PassBy(parent, node, at);
      node.parent := null;
      node.prev, node.next := null, null;
      node.key := None;
      assert forall i :: 0 <= i < |parent.kids| ==> parent.Link(i);
    }
  }

  // Makes the neighbours pass the node by.
  method PassBy(parent: Node, node: Node, ghost at: nat)
    requires parent.Linked() && at < |parent.kids| && parent.kids[at] == node
    modifies Node.Touched(node.prev)`next, Node.Touched(node.next)`prev, parent`head, parent`tail, parent`kids
    ensures parent.Linked() && node !in parent.kids && parent != node
    ensures parent.kids == old(parent.kids)[..at] + old(parent.kids)[at + 1..]
  {
    ghost var ks := parent.kids;
    assert parent.Link(at) && forall i :: 0 <= i < |ks| ==> parent.Link(i);
    if node.prev != null {
      node.prev.next := node.next;
    } else {
      parent.head := node.next;
    }
    if node.next != null {
      node.next.prev := node.prev;
    } else {
      parent.tail := node.prev;
    }
    parent.kids := ks[..at] + ks[at + 1..];
    forall i | 0 <= i < |parent.kids|
      ensures parent.Link(i)
    {
      assert old(parent.Link(if i < at then i else i + 1));
      AtRemoved(ks, at, i - 1);
      AtRemoved(ks, at, i);
      AtRemoved(ks, at, i + 1);
    }
    AtRemoved(ks, at, 0);
    AtRemoved(ks, at, |ks| - 2);
  }

  lemma AtRemoved(ks: seq<Node>, at: nat, i: int)
    requires at < |ks|
    ensures Node.At(ks[..at] + ks[at + 1..], i) == Node.At(ks, if i < at then i else i + 1)
  {
  }
}
