/** The tracer's queue (trace_proxy/trace_proxy.c): a linked list with a head and a tail pointer. */
module TraceQueue {
  import opened Wrappers
  import opened Codec

  /** A missing packet is the shutdown sentinel. */
  datatype Item = Item(pkt: Option<Packet>, clientId: int, dir: Direction, dropped: bool)

  class Node {
    const item: Item
    var next: Node?

    constructor (item: Item)
      ensures this.item == item && next == null
    {
      this.item := item;
      this.next := null;
    }
  }

  class Queue {
    var head: Node?
    var tail: Node?
    ghost var nodes: seq<Node>
    ghost var items: seq<Item>
    /** Every node that is or was in the list. */
    ghost var repr: set<Node>

    ghost predicate Valid()
      reads this, repr
    {
      && |nodes| == |items|
      && (forall i :: 0 <= i < |nodes| ==> nodes[i] in repr)
      && (forall i, j :: 0 <= i < j < |nodes| ==> nodes[i] != nodes[j])
      && (forall i :: 0 <= i < |nodes| ==> nodes[i].item == items[i])
      && (forall i :: 0 <= i < |nodes| - 1 ==> nodes[i].next == nodes[i + 1])
      && if nodes == [] then head == null && tail == null
         else head == nodes[0] && tail == nodes[|nodes| - 1] && tail.next == null
    }

    constructor ()
      ensures Valid() && items == [] && repr == {}
    {
      head, tail := null, null;
      nodes, items, repr := [], [], {};
    }

    lemma HeadIffTail()
      requires Valid()
      ensures head == null <==> tail == null
      ensures head == null <==> items == []
    {
    }

    /** The critical section of trace_enqueue. */
    method Enqueue(item: Item)
      requires Valid()
      modifies this, repr
      ensures Valid() && items == old(items) + [item]
      ensures fresh(repr - old(repr))
    {
      var node := new Node(item);
      if tail != null {
        tail.next := node;
      } else {
        head := node;
      }
      tail := node;
      nodes, items, repr := nodes + [node], items + [item], repr + {node};
    }

    /** The critical section of the tracer thread, entered when the queue is not empty. */
    method Dequeue() returns (item: Item)
      requires Valid() && head != null
      modifies this
      ensures Valid() && old(items) == [item] + items
      ensures repr == old(repr)
    {
      item := head.item;
      head := head.next;
      if head == null {
        tail := null;
      }
      nodes, items := nodes[1..], items[1..];
    }
  }
}
