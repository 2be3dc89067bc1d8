// The linked FIFO queue of datastructures.c: nodes linked from head to tail.
module ThreadQueue {
  import opened Wrappers

  class Node<T> {
    const data: T
    var next: Node?<T>

    constructor (data: T)
      ensures this.data == data && next == null
    {
      this.data := data;
      next := null;
    }
  }

  class Queue<T> {
    var head: Node?<T>
    var tail: Node?<T>
    ghost var nodes: seq<Node<T>>

    // The nodes form one chain from head to tail without repetition.
    ghost predicate Valid()
      reads this, nodes
    {
      && (|nodes| == 0 ==> head == null && tail == null)
      && (|nodes| > 0 ==> head == nodes[0] && tail == nodes[|nodes| - 1] && tail.next == null)
      && (forall i, j :: 0 <= i < j < |nodes| ==> nodes[i] != nodes[j])
      && (forall i :: 0 <= i < |nodes| - 1 ==> nodes[i].next == nodes[i + 1])
    }

    // The queued threads, first to last.
    ghost function Contents(): (s: seq<T>)
      reads this, nodes
    {
      seq(|nodes|, i requires 0 <= i < |nodes| reads this, nodes => nodes[i].data)
    }

    // init_queue
    constructor ()
      ensures Valid() && Contents() == []
    {
      head, tail, nodes := null, null, [];
    }

    // enqueue
    method Enqueue(data: T)
      requires Valid()
      modifies this, tail
      ensures Valid() && Contents() == old(Contents()) + [data]
      ensures fresh(set n | n in nodes && n !in old(nodes))
    {
      var node := new Node(data);
      if tail != null {
        tail.next := node;
      } else {
        head := node;
      }
      tail := node;
      nodes := nodes + [node];
    }

    // dequeue; None stands for NULL.
    method Dequeue() returns (r: Option<T>)
      requires Valid()
      modifies this
      ensures Valid()
      ensures if old(Contents()) == [] then r == None && Contents() == []
              else r == Some(old(Contents())[0]) && Contents() == old(Contents())[1..]
      ensures nodes == if old(nodes) == [] then [] else old(nodes)[1..]
    {
      if head == null {
        return None;
      }
      var node := head;
      assert node == nodes[0];
      r := Some(node.data);
      head := node.next;
      if head == null {
        tail := null;
      }
      nodes := nodes[1..];
    }

    // is_empty_queue
    method IsEmpty() returns (empty: bool)
      requires Valid()
      ensures empty <==> Contents() == []
    {
      empty := head == null;
    }
  }
}
