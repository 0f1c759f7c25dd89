/** The doubly linked chunk list of the memory dealer, with its five operations. */
module ChunkList {
  import opened BestFit

  class Chunk {
    var start: nat
    var size: nat
    var free: bool
    var prev: Chunk?
    var next: Chunk?

    constructor (start: nat, size: nat)
      ensures this.start == start && this.size == size && free && prev == next == null
    {
      this.start, this.size, free, prev, next := start, size, true, null, null;
    }
  }

  ghost function At(ns: seq<Chunk>, i: int): Chunk? {
    if 0 <= i < |ns| then ns[i] else null
  }

  ghost predicate Distinct(ns: seq<Chunk>) {
    forall i, j :: 0 <= i < j < |ns| ==> ns[i] != ns[j]
  }

  class LinkedList {
    var first: Chunk?
    var last: Chunk?
    ghost var nodes: seq<Chunk>

    /** `nodes` are the chunks from first to last, and every link agrees with them, both ways. */
    ghost predicate Valid()
      reads this, Repr()`prev, Repr()`next
    {
      && Distinct(nodes)
      && first == At(nodes, 0) && last == At(nodes, |nodes| - 1)
      && (forall i :: 0 <= i < |nodes| ==> LinkedAt(nodes, i))
    }

    static ghost predicate LinkedAt(ns: seq<Chunk>, i: int)
      requires 0 <= i < |ns|
      reads (set n | n in ns)`prev, (set n | n in ns)`next
    {
      ns[i].prev == At(ns, i - 1) && ns[i].next == At(ns, i + 1)
    }

    ghost function Blocks(): (bs: seq<Block>)
      reads this, nodes
      ensures |bs| == |nodes|
    {
      seq(|nodes|, i requires 0 <= i < |nodes| reads this, nodes => Block(nodes[i].start, nodes[i].size, nodes[i].free))
    }

    ghost function Repr(): set<Chunk>
      reads this
    {
      set n | n in nodes
    }

    constructor ()
      ensures Valid() && nodes == []
    {
      first, last, nodes := null, null, [];
    }

    method InsertAfter(node: Chunk, newNode: Chunk, ghost i: nat)
      requires Valid() && i < |nodes| && nodes[i] == node && newNode !in nodes
      modifies this, Repr()`prev, Repr()`next, newNode`prev, newNode`next
      ensures Valid() && nodes == old(nodes[..i + 1] + [newNode] + nodes[i + 1..])
    {
      assert LinkedAt(nodes, i);
      newNode.prev := node;
      newNode.next := node.next;
      if node.next == null {
        last := newNode;
      } else {
        node.next.prev := newNode;
      }
      node.next := newNode;
      nodes := nodes[..i + 1] + [newNode] + nodes[i + 1..];
      forall k | 0 <= k < |nodes| ensures LinkedAt(nodes, k) {
        if k <= i { assert old(LinkedAt(nodes, k)); }
        if k > i + 1 { assert old(LinkedAt(nodes, k - 1)); }
      }
    }

    method InsertBefore(node: Chunk, newNode: Chunk, ghost i: nat)
      requires Valid() && i < |nodes| && nodes[i] == node && newNode !in nodes
      modifies this, Repr()`prev, Repr()`next, newNode`prev, newNode`next
      ensures Valid() && nodes == old(nodes[..i] + [newNode] + nodes[i..])
    {
      assert LinkedAt(nodes, i);
      newNode.prev := node.prev;
      newNode.next := node;
      if node.prev == null {
        first := newNode;
      } else {
        node.prev.next := newNode;
      }
      node.prev := newNode;
      nodes := nodes[..i] + [newNode] + nodes[i..];
      forall k | 0 <= k < |nodes| ensures LinkedAt(nodes, k) {
        if k < i { assert old(LinkedAt(nodes, k)); }
        if k > i { assert old(LinkedAt(nodes, k - 1)); }
      }
    }

    method InsertHead(newNode: Chunk)
      requires Valid() && newNode !in nodes
      modifies this, Repr()`prev, Repr()`next, newNode`prev, newNode`next
      ensures Valid() && nodes == [newNode] + old(nodes)
    {
      if first == null {
        first, last := newNode, newNode;
        newNode.prev, newNode.next := null, null;
      } else {
        newNode.prev := null;
        newNode.next := first;
        first.prev := newNode;
        first := newNode;
      }
      nodes := [newNode] + nodes;
      forall k | 0 <= k < |nodes| ensures LinkedAt(nodes, k) {
        if k > 0 { assert old(LinkedAt(nodes, k - 1)); }
      }
    }

    method InsertTail(newNode: Chunk)
      requires Valid() && newNode !in nodes
      modifies this, Repr()`prev, Repr()`next, newNode`prev, newNode`next
      ensures Valid() && nodes == old(nodes) + [newNode]
    {
      if last == null {
        InsertHead(newNode);
      } else {
        newNode.prev := last;
        newNode.next := null;
        last.next := newNode;
        last := newNode;
        nodes := nodes + [newNode];
        forall k | 0 <= k < |nodes| ensures LinkedAt(nodes, k) {
          if k < |nodes| - 1 { assert old(LinkedAt(nodes, k)); }
        }
      }
    }

    method Remove(node: Chunk, ghost i: nat)
      requires Valid() && i < |nodes| && nodes[i] == node
      modifies this, Repr()`prev, Repr()`next
      ensures Valid() && nodes == old(nodes[..i] + nodes[i + 1..])
    {
      assert LinkedAt(nodes, i);
      if node.prev == null {
        first := node.next;
      } else {
        node.prev.next := node.next;
      }
      if node.next == null {
        last := node.prev;
      } else {
        node.next.prev := node.prev;
      }
      ghost var before := nodes;
      nodes := nodes[..i] + nodes[i + 1..];
      forall k | 0 <= k < |nodes| ensures LinkedAt(nodes, k) {
        if k < i {
          assert nodes[k] == before[k] && old(LinkedAt(nodes, k));
        } else {
          assert nodes[k] == before[k + 1] && old(LinkedAt(nodes, k + 1));
        }
      }
    }
  }
}
