/**
 `mpsc_init`, `mpsc_enqueue` and `mpsc_dequeue` on heap nodes, each call running
 without interference.  `MpscProtocol` covers the interleavings.
 */
module MpscQueue {

  class Node {
    var next: Node?
    const req: nat

    constructor (req: nat)
      ensures this.req == req && next == null
    {
      this.req := req;
      next := null;
    }
  }

  class Queue {
    const stub: Node
    var head: Node
    var tail: Node
    /** The nodes from `head` to `tail`. */
    ghost var chain: seq<Node>

    ghost predicate Valid()
      reads this, chain
    {
      && |chain| > 0 && chain[0] == head && chain[|chain| - 1] == tail
      && (forall i, j :: 0 <= i < j < |chain| ==> chain[i] != chain[j])
      && (forall i :: 0 <= i < |chain| - 1 ==> chain[i].next == chain[i + 1])
      && tail.next == null
      && (forall i :: 0 < i < |chain| ==> chain[i] != stub)
    }

    /** The queued nodes, oldest first; the stub is not one of them. */
    ghost function Contents(): seq<Node>
      requires Valid()
      reads this, chain
    {
      if chain[0] == stub then chain[1..] else chain
    }

    constructor ()
      ensures Valid() && Contents() == [] && fresh(stub) && stub in chain
    {
      var s := new Node(0);
      stub := s;
      head, tail := s, s;
      chain := [s];
    }

    /** Append a node that is not in the queue. */
    method Enqueue(node: Node)
      requires Valid() && node !in chain && node != stub
      modifies this`tail, this`chain, node`next, tail`next
      ensures Valid() && Contents() == old(Contents()) + [node]
      ensures head == old(head) && chain == old(chain) + [node]
    {
      Append(node);
    }

    /** The body shared by producers and by the consumer's own re-arm. */
    method Append(node: Node)
      requires Valid() && node !in chain
      requires node == stub ==> |chain| == 1
      modifies this`tail, this`chain, node`next, tail`next
      ensures head == old(head) && tail == node && chain == old(chain) + [node]
      ensures node.next == null && old(tail).next == node
      ensures forall i :: 0 <= i < |old(chain)| - 1 ==> chain[i].next == chain[i + 1]
      ensures node != stub ==> Valid() && Contents() == old(Contents()) + [node]
    {
      node.next := null;
      var prevTail := tail;
      tail := node;
      prevTail.next := node;
      chain := chain + [node];
    }

    /** Take the oldest node, or NULL exactly when none is queued.  Afterwards the
        queue no longer refers to the returned node. */
    method Dequeue() returns (r: Node?)
      requires Valid()
      modifies this`head, this`tail, this`chain, stub`next, tail`next
      ensures Valid()
      ensures if old(Contents()) == [] then r == null && Contents() == []
              else r == old(Contents())[0] && Contents() == old(Contents())[1..]
      ensures r != null ==> r !in chain && r != stub
    {
      var h := head;
      var next := h.next;
      assert |chain| > 1 ==> chain[0].next == chain[1];
      if h == stub {
        if next == null {
          return null;
        }
        head := next;
        chain := chain[1..];
        h := next;
        next := h.next;
        assert |chain| > 1 ==> chain[0].next == chain[1];
      }
      assert Valid() && Contents() == chain == old(Contents());
      if next != null {
        head := next;
        chain := chain[1..];
        return h;
      }
      var t := tail;
      if h != t {
        return null;
      }
      assert chain == [h];
      Append(stub);
      next := h.next;
      if next != null {
        head := next;
        chain := chain[1..];
        return h;
      }
      return null;
    }
  }
}
