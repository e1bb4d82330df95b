/** The unbounded queue of queue.h: a singly linked chain of nodes with a
    front and a back reference; pushes at the back, pops at the front. */
module Queues {
  import opened Exceptions

  class Node<T> {
    var data: T
    var next: Node?<T>

    constructor (data: T)
      ensures this.data == data && next == null
    {
      this.data := data;
      next := null;
    }
  }

  class Queue<T> {
    /** Chooses the locked or the unlocked variant of every operation; the
        model gives the unlocked bodies, which the locked ones duplicate. */
    const threadSafe: bool
    /** `sizeof(T)`. */
    const elemSize: nat

    /** Number of elements (the C++ field `size`). */
    var length: nat
    var front: Node?<T>
    var back: Node?<T>

    /** The elements, front first. */
    ghost var contents: seq<T>
    /** The node holding each element: nodes[i] holds contents[i]. */
    ghost var nodes: seq<Node<T>>
    ghost var Repr: set<object>

    /** The chain from `front` follows `nodes` one link at a time and ends
        at `back`, whose link is null; an empty queue has both ends null. */
    ghost predicate Valid()
      reads this, Repr
    {
      this in Repr &&
      |nodes| == length && |contents| == length &&
      (forall i :: 0 <= i < length ==> nodes[i] in Repr && nodes[i].data == contents[i]) &&
      (forall i, j :: 0 <= i < j < length ==> nodes[i] != nodes[j]) &&
      (forall i :: 0 <= i < length - 1 ==> nodes[i].next == nodes[i + 1]) &&
      (length == 0 ==> front == null && back == null) &&
      (length > 0 ==> front == nodes[0] && back == nodes[length - 1] && back.next == null)
    }

    /** `Queue(bool)`. The C++ constructor leaves both ends uninitialised
        (nothing reads them before the first push); here they start null. */
    constructor (threadSafe: bool, elemSize: nat)
      ensures Valid() && fresh(Repr)
      ensures contents == []
      ensures this.threadSafe == threadSafe && this.elemSize == elemSize
    {
      this.threadSafe, this.elemSize := threadSafe, elemSize;
      length, front, back := 0, null, null;
      contents, nodes, Repr := [], [], {this};
    }

    /** `is_empty`: no elements, and equally both ends null. */
    predicate IsEmpty()
      reads this, Repr
      requires Valid()
      ensures IsEmpty() <==> contents == []
      ensures IsEmpty() <==> front == null
      ensures IsEmpty() <==> back == null
    {
      length == 0
    }

    /** `push`: links a new node after the back one; on an empty queue the
        new node becomes both the front and the back. */
    method Push(element: T)
      requires Valid()
      modifies Repr
      ensures Valid() && fresh(Repr - old(Repr))
      ensures contents == old(contents) + [element]
      ensures back != null && back.data == element && back !in old(Repr)
      ensures old(contents) == [] ==> front == back
      ensures old(contents) != [] ==> front == old(front)
    {
      var node := new Node(element);
      if length == 0 {
        front, back := node, node;
      } else {
        back.next := node;
        back := node;
      }
      length := length + 1;
      contents, nodes, Repr := contents + [element], nodes + [node], Repr + {node};
    }

    /** `pop`: throws on an empty queue; otherwise unlinks the front node and
        returns its element, nulling both ends when it was the last one. */
    method Pop() returns (popped: Result<T>)
      requires Valid()
      modifies this
      ensures Valid() && Repr == old(Repr)
      ensures old(contents) == [] ==> popped == OutOfRange && contents == [] && unchanged(this)
      ensures old(contents) != [] ==> popped == Ok(old(contents)[0]) && contents == old(contents)[1..]
    {
      if IsEmpty() {
        return OutOfRange;
      }
      var temp := front;
      front := front.next;
      popped := Ok(temp.data);
      length := length - 1;
      contents, nodes := contents[1..], nodes[1..];
      if length == 0 {
        front, back := null, null;
      }
    }

    /** `front`: the first element, or a throw on an empty queue. */
    method Front() returns (element: Result<T>)
      requires Valid()
      ensures contents == [] ==> element == OutOfRange
      ensures contents != [] ==> element == Ok(contents[0])
    {
      if IsEmpty() {
        return OutOfRange;
      }
      element := Ok(front.data);
    }

    /** `back`: the last element, or a throw on an empty queue. */
    method Back() returns (element: Result<T>)
      requires Valid()
      ensures contents == [] ==> element == OutOfRange
      ensures contents != [] ==> element == Ok(contents[|contents| - 1])
    {
      if IsEmpty() {
        return OutOfRange;
      }
      element := Ok(back.data);
    }

    /** `at`: throws unless the index is that of an element; reads the front
        or the back node for the two ends and otherwise walks `index` links
        forward from the front. */
    method At(index: int) returns (element: Result<T>)
      requires Valid()
      ensures 0 <= index < |contents| ==> element == Ok(contents[index])
      ensures !(0 <= index < |contents|) ==> element == OutOfRange
    {
      if index < 0 || index >= length {
        return OutOfRange;
      }
      if index == 0 {
        return Ok(front.data);
      } else if index == length - 1 {
        return Ok(back.data);
      }
      var current := front;
      for i := 0 to index
        invariant current == nodes[i]
      {
        current := current.next;
      }
      element := Ok(current.data);
    }

    /** `get_size`: the byte size of the elements, not their count. */
    function GetSize(): (bytes: nat)
      reads this, Repr
      requires Valid()
      ensures bytes == |contents| * elemSize
    {
      length * elemSize
    }

    /** `get_length`. */
    function GetLength(): (n: nat)
      reads this, Repr
      requires Valid()
      ensures n == |contents|
    {
      length
    }

    /** `~Queue`: pops until the queue is empty. */
    method Drain()
      requires Valid()
      modifies this
      ensures Valid() && Repr == old(Repr)
      ensures contents == [] && length == 0 && front == null && back == null
    {
      while !IsEmpty()
        invariant Valid() && Repr == old(Repr)
        decreases length
      {
        var _ := Pop();
      }
    }
  }

  /** First in, first out: after pushing a, b and c and one pop, the pop
      gave a, the front is b, the back is c and two elements remain. */
  method FirstInFirstOut<T>(a: T, b: T, c: T, elemSize: nat)
    returns (popped: Result<T>, first: Result<T>, last: Result<T>, length: nat)
    ensures popped == Ok(a) && first == Ok(b) && last == Ok(c) && length == 2
  {
    var queue := new Queue<T>(false, elemSize);
    queue.Push(a);
    queue.Push(b);
    queue.Push(c);
    popped := queue.Pop();
    first := queue.Front();
    last := queue.Back();
    length := queue.GetLength();
  }
}
