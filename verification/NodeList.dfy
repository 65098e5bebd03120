/**
  The circular doubly linked free list of in-core inodes (src/incoreInodeOps/freeList.c).
 */
module NodeList {
  import opened INode

  // struct Node: links of the free list and of a hash queue around one in-core inode.
  class Node {
    const inode: InCoreINode
    var next: Node?
    var prev: Node?
    var hashNext: Node?
    var hashPrev: Node?

    constructor (inode: InCoreINode)
      ensures this.inode == inode && hashNext == null && hashPrev == null
    {
      this.inode := inode;
      next, prev, hashNext, hashPrev := null, null, null, null;
    }
  }

  // `s` without its element i.
  function Without<T>(s: seq<T>, i: nat): seq<T>
    requires i < |s|
  {
    s[..i] + s[i + 1..]
  }

  class FreeList {
    var head: Node?
    ghost var nodes: seq<Node>

    // The ring from `head` along `next`, and back along `prev`, is `nodes`.
    ghost predicate Valid()
      reads this, nodes`next, nodes`prev
    {
      && (forall i, j :: 0 <= i < j < |nodes| ==> nodes[i] != nodes[j])
      && (nodes == [] ==> head == null)
      && (nodes != [] ==>
            && head == nodes[0]
            && nodes[|nodes| - 1].next == nodes[0]
            && nodes[0].prev == nodes[|nodes| - 1]
            && (forall i {:trigger nodes[i].next} :: 0 <= i < |nodes| - 1 ==> nodes[i].next == nodes[i + 1])
            && (forall i {:trigger nodes[i].prev} :: 0 < i < |nodes| ==> nodes[i].prev == nodes[i - 1]))
    }

    constructor ()
      ensures Valid() && nodes == []
    {
      head := null;
      nodes := [];
    }

    // At the tail.
    method Insert(node: Node)
      requires Valid() && node !in nodes
      modifies this, nodes`next, nodes`prev, node`next, node`prev
      ensures Valid() && nodes == old(nodes) + [node]
    {
      if head == null {
        head := node;
        node.next := head;
        node.prev := head;
        nodes := [node];
        return;
      }
      node.next := head;
      node.prev := head.prev;
      head.prev.next := node;
      head.prev := node;
      nodes := nodes + [node];
    }

    // At the head.
    method Pop() returns (popped: Node?)
      requires Valid()
      modifies this, nodes`next, nodes`prev
      ensures Valid()
      ensures old(nodes) == [] ==> popped == null && nodes == []
      ensures old(nodes) != [] ==> popped == old(nodes)[0] && nodes == old(nodes)[1..]
    {
      if head == null {
        return null;
      }
      popped := head;
      if head.next == head {
        head := null;
        assert |nodes| == 1;
        nodes := [];
        return;
      }
      assert |nodes| > 1;
      head.prev.next := head.next;
      head.next.prev := head.prev;
      head := head.next;
      nodes := nodes[1..];
      popped.next := null;
      popped.prev := null;
    }

    // From anywhere; the walk visits each node once.
    method Remove(node: Node)
      requires Valid()
      modifies this, nodes`next, nodes`prev, node`next, node`prev
      ensures Valid()
      ensures node !in old(nodes) ==> nodes == old(nodes)
      ensures forall i :: 0 <= i < |old(nodes)| && old(nodes)[i] == node ==> nodes == Without(old(nodes), i)
    {
      if head != null && node == head && head.next == head {
        assert |nodes| == 1;
        head := null;
        nodes := [];
        node.next := null;
        node.prev := null;
        return;
      }
      var workingNode := head;
      ghost var at := 0;
      while workingNode != null
        invariant nodes == old(nodes) && Valid()
        invariant workingNode == null ==> nodes == []
        invariant workingNode != null ==> at < |nodes| && workingNode == nodes[at] && node !in nodes[..at]
        decreases |nodes| - at
      {
        if node == workingNode {
          Unlink(node, at);
          break;
        }
        workingNode := workingNode.next;
        if workingNode == head {
          assert at == |nodes| - 1;
          break;
        }
        at := at + 1;
      }
    }

    method Unlink(node: Node, ghost at: nat)
      requires Valid() && at < |nodes| && node == nodes[at] && |nodes| > 1
      modifies this, nodes`next, nodes`prev, node`next, node`prev
      ensures Valid() && nodes == Without(old(nodes), at)
    {
      if head == node {
        head := node.next;
      }
      node.next.prev := node.prev;
      node.prev.next := node.next;
      node.next := null;
      node.prev := null;
      nodes := Without(nodes, at);
    }
  }
}
