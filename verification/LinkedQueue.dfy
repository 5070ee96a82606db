/** The linked FIFO of `safe_queue.c`. */
module LinkedQueue {

  datatype Item<T> = Item(data: T, size: int)

  class QNode<T> {
    var data: T
    var size: int
    var next: QNode?<T>

    constructor (data: T, size: int)
      ensures this.data == data && this.size == size && next == null
    {
      this.data, this.size, next := data, size, null;
    }
  }

  class LinkedQueue<T> {
    var front: QNode?<T>
    var rear: QNode?<T>
    var length: int

    /** The nodes from front to rear, and what they hold. */
    ghost var spine: seq<QNode<T>>
    ghost var contents: seq<Item<T>>

    ghost function Repr(): set<object>
      reads this
    {
      {this} + set n: object | n in spine
    }

    ghost predicate Valid()
      reads this, spine
    {
      && |contents| == |spine| == length
      && (forall i, j :: 0 <= i < j < |spine| ==> spine[i] != spine[j])
      && (forall i :: 0 <= i < |spine| ==> contents[i] == Item(spine[i].data, spine[i].size))
      && (forall i, j :: 0 <= i && j == i + 1 < |spine| ==> spine[i].next == spine[j])
      && (if spine == [] then front == null && rear == null
          else front == spine[0] && rear == spine[|spine| - 1] && rear.next == null)
    }

    /** `create_queue` */
    constructor ()
      ensures Valid() && contents == [] && fresh(Repr())
    {
      front, rear, length := null, null, 0;
      spine, contents := [], [];
    }

    /** `push_data`; the result is the new length. */
    method Push(data: T, size: int) returns (r: int)
      requires Valid()
      modifies Repr()
      ensures Valid() && fresh(Repr() - old(Repr()))
      ensures contents == old(contents) + [Item(data, size)]
      ensures |spine| > 0 && spine == old(spine) + [spine[|spine| - 1]]
      ensures r == |contents|
    {
      var node := new QNode<T>(data, size);
      if front == null {
        front := node;
      }
      if rear == null {
        rear := node;
      } else {
        rear.next := node;
        rear := node;
      }
      length := length + 1;
      spine := spine + [node];
      contents := contents + [Item(data, size)];
      return length;
    }

    /** `queue_is_empty` */
    method IsEmpty() returns (empty: bool)
      requires Valid()
      ensures empty <==> contents == []
    {
      return front == null;
    }

    /** `pop_data`: the first node, unlinked; null if there is none. */
    method Pop() returns (node: QNode?<T>)
      requires Valid()
      modifies this
      ensures Valid()
      ensures old(contents) == [] ==> node == null && contents == [] && spine == old(spine)
      ensures old(contents) != [] ==>
                && node != null && node == old(spine)[0] && node !in spine && spine == old(spine)[1..]
                && Item(node.data, node.size) == old(contents)[0] && contents == old(contents)[1..]
    {
      var empty := IsEmpty();
      if empty {
        return null;
      }
      node := front;
      if front == rear {
        front, rear, length := null, null, 0;
      } else {
        front := front.next;
        length := length - 1;
      }
      ghost var nodes := spine;
      spine, contents := spine[1..], contents[1..];
      assert forall i :: 0 <= i < |spine| ==> spine[i] == nodes[i + 1];
    }

    /** `free_queue`: the nodes it frees, in order, and the payloads it frees with them. */
    method Free() returns (freed: seq<QNode<T>>, payloads: seq<Item<T>>)
      requires Valid()
      modifies this
      ensures Valid() && contents == []
      ensures freed == old(spine) && payloads == old(contents)
      ensures forall i, j :: 0 <= i < j < |freed| ==> freed[i] != freed[j]
    {
      freed, payloads := [], [];
      while length > 0
        invariant Valid()
        invariant |payloads| == |freed| <= |old(spine)| == |old(contents)|
        invariant freed == old(spine)[..|freed|] && spine == old(spine)[|freed|..]
        invariant payloads == old(contents)[..|freed|] && contents == old(contents)[|freed|..]
        decreases length
      {
        ghost var nodes, items := spine, contents;
        var node := Pop();
        assert node == nodes[0] && spine == nodes[1..] && contents == items[1..];
        if node != null {
          freed, payloads := freed + [node], payloads + [Item(node.data, node.size)];
        }
      }
    }
  }
}
