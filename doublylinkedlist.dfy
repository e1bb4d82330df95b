/** The doubly linked list of doublylinkedlist.h: a chain of nodes linked
    both ways, with constant-time pushes at either end, interior insertion
    and removal, and indexed reads that walk from the nearer end. */
module DoublyLinkedLists {
  import opened Exceptions

  /** `s` with `element` inserted so that it ends up at position `index`. */
  function Inserted<T>(s: seq<T>, index: nat, element: T): seq<T>
    requires index <= |s|
  {
    s[..index] + [element] + s[index..]
  }

  /** `s` without the element at position `index`. */
  function Removed<T>(s: seq<T>, index: nat): seq<T>
    requires index < |s|
  {
    s[..index] + s[index + 1..]
  }

  /** No element occurs twice. */
  ghost predicate Distinct<T>(s: seq<T>)
  {
    forall i, j :: 0 <= i < j < |s| ==> s[i] != s[j]
  }

  /** Removing an element keeps the others distinct. */
  lemma RemovedDistinct<T>(s: seq<T>, index: nat)
    requires index < |s| && Distinct(s)
    ensures Distinct(Removed(s, index))
  {
  }

  /** The nearer-end test of `push_at`, `pop_at` and `at`: true when the
      walk starts from the head. The walk it picks (index links from the
      head, or length - 1 - index links from the tail) is never longer than
      either alternative to within one link, and never longer than half the
      list. */
  predicate NearHead(length: int, index: int)
    ensures 0 <= index < length ==>
      var steps := if NearHead(length, index) then index else length - 1 - index;
      steps <= index && steps <= length - index && 2 * steps <= length
  {
    index <= length - index
  }

  class Node<T> {
    var data: T
    var next: Node?<T>
    var previous: Node?<T>

    constructor (data: T)
      ensures this.data == data && next == null && previous == null
    {
      this.data := data;
      next, previous := null, null;
    }
  }

  class DoublyLinkedList<T> {
    /** Chooses the locked or the unlocked variant of every operation; the
        model gives the unlocked bodies, which the locked ones duplicate. */
    const threadSafe: bool
    /** `sizeof(T)`. */
    const elemSize: nat

    /** Number of elements (the C++ field `size`). */
    var length: nat
    var head: Node?<T>
    var tail: Node?<T>

    /** The elements, head first. */
    ghost var contents: seq<T>
    /** The node holding each element: nodes[i] holds contents[i]. */
    ghost var nodes: seq<Node<T>>
    ghost var Repr: set<object>

    /** Consecutive nodes are linked both ways, the head has no previous
        node and the tail no next one. An empty list has a null head; its
        tail is not constrained, because `clear` leaves it as it was. */
    ghost predicate Valid()
      reads this, Repr
    {
      this in Repr &&
      |nodes| == length && |contents| == length &&
      (forall i :: 0 <= i < length ==> nodes[i] in Repr && nodes[i].data == contents[i]) &&
      Distinct(nodes) &&
      (forall i :: 0 <= i < length - 1 ==> nodes[i].next == nodes[i + 1]) &&
      (forall i :: 0 < i < length ==> nodes[i].previous == nodes[i - 1]) &&
      (length == 0 ==> head == null) &&
      (length > 0 ==> head == nodes[0] && tail == nodes[length - 1] &&
                      head.previous == null && tail.next == null)
    }

    /** `DoublyLinkedList(bool)`. The C++ constructor leaves head and tail
        uninitialised; here they start null. */
    constructor (threadSafe: bool, elemSize: nat)
      ensures Valid() && fresh(Repr)
      ensures contents == [] && head == null && tail == null
      ensures this.threadSafe == threadSafe && this.elemSize == elemSize
    {
      this.threadSafe, this.elemSize := threadSafe, elemSize;
      length, head, tail := 0, null, null;
      contents, nodes, Repr := [], [], {this};
    }

    /** `is_empty`: no elements, and equally a null head. */
    predicate IsEmpty()
      reads this, Repr
      requires Valid()
      ensures IsEmpty() <==> contents == []
      ensures IsEmpty() <==> head == null
    {
      length == 0
    }

    /** `push_front`: a new node before the head; on an empty list it is
        both the head and the tail. */
    method PushFront(element: T)
      requires Valid()
      modifies Repr
      ensures Valid() && fresh(Repr - old(Repr))
      ensures contents == [element] + old(contents)
      ensures head != null && head !in old(Repr)
      ensures old(contents) == [] ==> tail == head
      ensures old(contents) != [] ==> tail == old(tail)
    {
      var node := new Node(element);
      if length == 0 {
        head, tail := node, node;
      } else {
        node.next := head;
        head.previous := node;
        head := node;
      }
      length := length + 1;
      contents, nodes, Repr := [element] + contents, [node] + nodes, Repr + {node};
    }

    /** `push_back`: a new node after the tail; on an empty list it is both
        the head and the tail. */
    method PushBack(element: T)
      requires Valid()
      modifies Repr
      ensures Valid() && fresh(Repr - old(Repr))
      ensures contents == old(contents) + [element]
      ensures tail != null && tail !in old(Repr)
      ensures old(contents) == [] ==> head == tail
      ensures old(contents) != [] ==> head == old(head)
    {
      var node := new Node(element);
      if length == 0 {
        tail, head := node, node;
      } else {
        node.previous := tail;
        tail.next := node;
        tail := node;
      }
      length := length + 1;
      contents, nodes, Repr := contents + [element], nodes + [node], Repr + {node};
    }

    /** A walk of `steps` links forward from the head. */
    method WalkForward(steps: nat) returns (current: Node<T>)
      requires Valid() && steps < length
      ensures current == nodes[steps]
    {
      current := head;
      for i := 0 to steps
        invariant current == nodes[i]
      {
        assert current.next == nodes[i + 1];
        current := current.next;
      }
    }

    /** A walk of `steps` links backward from the tail. */
    method WalkBackward(steps: nat) returns (current: Node<T>)
      requires Valid() && steps < length
      ensures current == nodes[length - 1 - steps]
    {
      current := tail;
      for i := 0 to steps
        invariant current == nodes[length - 1 - i]
      {
        assert current.previous == nodes[length - 1 - i - 1];
        current := current.previous;
      }
    }

    /** The splice of `push_at`: a new node between `current`, at position
        `index - 1`, and its successor. */
    method LinkAfter(current: Node<T>, element: T, ghost index: nat)
      requires Valid() && 0 < index < length && current == nodes[index - 1]
      modifies Repr
      ensures Valid() && fresh(Repr - old(Repr))
      ensures contents == Inserted(old(contents), index, element)
      ensures head == old(head) && tail == old(tail)
    {
      ghost var before, beforeContents, beforeRepr := nodes, contents, Repr;
      var node := new Node(element);
      assert current.next == nodes[index];
      var next := current.next;
      current.next := node;
      node.previous := current;
      node.next := next;
      next.previous := node;
      length := length + 1;
      assert forall k :: 0 <= k < |before| - 1 && k != index - 1 ==> before[k].next == before[k + 1];
      assert forall k :: 0 < k < |before| && k != index ==> before[k].previous == before[k - 1];
      contents, nodes, Repr := Inserted(contents, index, element), Inserted(nodes, index, node), Repr + {node};
      SplicedValid(before, beforeContents, beforeRepr, index, node);
    }

    /** The list is valid again once `node` has been linked between the
        nodes at positions index - 1 and index of the former chain `before`,
        every other link and element of that chain being as it was. */
    lemma SplicedValid(before: seq<Node<T>>, beforeContents: seq<T>, beforeRepr: set<object>,
                          index: nat, node: Node<T>)
      requires 0 < index < |before| && |beforeContents| == |before| && length == |before| + 1
      requires this in Repr && Repr == beforeRepr + {node}
      requires nodes == Inserted(before, index, node) && contents == Inserted(beforeContents, index, node.data)
      requires forall k :: 0 <= k < |before| ==> before[k] in beforeRepr && before[k].data == beforeContents[k]
      requires Distinct(before) && node !in before
      requires forall k :: 0 <= k < |before| - 1 && k != index - 1 ==> before[k].next == before[k + 1]
      requires forall k :: 0 < k < |before| && k != index ==> before[k].previous == before[k - 1]
      requires before[index - 1].next == node && node.previous == before[index - 1]
      requires node.next == before[index] && before[index].previous == node
      requires head == before[0] && tail == before[|before| - 1]
      requires head.previous == null && tail.next == null
      ensures Valid()
    {
    }

    /** The splice of `pop_at`: `current`, at interior position `index`, is
        bypassed by linking its neighbours to each other. */
    method Unlink(current: Node<T>, ghost index: nat)
      requires Valid() && 0 < index < length - 1 && current == nodes[index]
      modifies Repr
      ensures Valid() && Repr == old(Repr)
      ensures contents == Removed(old(contents), index)
      ensures head == old(head) && tail == old(tail)
    {
      assert current.previous == nodes[index - 1] && current.next == nodes[index + 1];
      var previous := current.previous;
      var next := current.next;
      previous.next := next;
      next.previous := previous;
      length := length - 1;
      RemovedDistinct(nodes, index);
      contents, nodes := Removed(contents, index), Removed(nodes, index);
    }

    /** `push_at`: throws unless 0 < index < length - 1 (the ends are left
        to `push_front` and `push_back`); otherwise inserts the element at
        position `index`, reaching position `index - 1` from the nearer end. */
    method PushAt(element: T, index: int) returns (status: Result<()>)
      requires Valid()
      modifies Repr
      ensures Valid() && fresh(Repr - old(Repr))
      ensures !(0 < index < |old(contents)| - 1) ==> status == OutOfRange && Repr == old(Repr) && unchanged(Repr)
      ensures 0 < index < |old(contents)| - 1 ==>
                status == Ok(()) && contents == Inserted(old(contents), index, element)
    {
      if IsEmpty() {
        return OutOfRange;
      }
      if index <= 0 || index >= length - 1 {
        return OutOfRange;
      }
      var current;
      if NearHead(length, index) {
        current := WalkForward(index - 1);
      } else {
        current := WalkBackward(length - index);
      }
      LinkAfter(current, element, index);
      status := Ok(());
    }

    /** `pop_front`: throws on an empty list; otherwise removes the head and
        returns its element, nulling both ends when it was the only one. */
    method PopFront() returns (popped: Result<T>)
      requires Valid()
      modifies Repr
      ensures Valid() && Repr == old(Repr)
      ensures old(contents) == [] ==> popped == OutOfRange && unchanged(Repr)
      ensures old(contents) != [] ==> popped == Ok(old(contents)[0]) && contents == old(contents)[1..]
      ensures |old(contents)| == 1 ==> head == null && tail == null
      ensures |old(contents)| > 1 ==> head == old(head.next) && tail == old(tail)
    {
      if IsEmpty() {
        return OutOfRange;
      }
      popped := Ok(head.data);
      if length == 1 {
        head, tail := null, null;
      } else {
        assert head.next == nodes[1];
        head := head.next;
        head.previous := null;
      }
      length := length - 1;
      contents, nodes := contents[1..], nodes[1..];
    }

    /** `pop_back`: throws on an empty list; otherwise removes the tail and
        returns its element, nulling both ends when it was the only one. */
    method PopBack() returns (popped: Result<T>)
      requires Valid()
      modifies Repr
      ensures Valid() && Repr == old(Repr)
      ensures old(contents) == [] ==> popped == OutOfRange && unchanged(Repr)
      ensures old(contents) != [] ==>
                popped == Ok(old(contents)[|old(contents)| - 1]) &&
                contents == old(contents)[..|old(contents)| - 1]
      ensures |old(contents)| == 1 ==> head == null && tail == null
      ensures |old(contents)| > 1 ==> tail == old(tail.previous) && head == old(head)
    {
      if IsEmpty() {
        return OutOfRange;
      }
      popped := Ok(tail.data);
      if length == 1 {
        head, tail := null, null;
      } else {
        assert tail.previous == nodes[length - 2];
        tail := tail.previous;
        tail.next := null;
      }
      length := length - 1;
      contents, nodes := contents[..length], nodes[..length];
    }

    /** `pop_at`: throws unless 0 < index < length - 1; otherwise removes
        the element at position `index`, reached from the nearer end, and
        returns it. */
    method PopAt(index: int) returns (popped: Result<T>)
      requires Valid()
      modifies Repr
      ensures Valid() && Repr == old(Repr)
      ensures !(0 < index < |old(contents)| - 1) ==> popped == OutOfRange && unchanged(Repr)
      ensures 0 < index < |old(contents)| - 1 ==>
                popped == Ok(old(contents)[index]) && contents == Removed(old(contents), index)
    {
      if IsEmpty() {
        return OutOfRange;
      }
      if index <= 0 || index >= length - 1 {
        return OutOfRange;
      }
      var current;
      if NearHead(length, index) {
        current := WalkForward(index);
      } else {
        current := WalkBackward(length - 1 - index);
      }
      popped := Ok(current.data);
      Unlink(current, index);
    }

    /** `clear`: walks from the head dropping every node; the list is then
        empty with a null head, and the tail is left as it was. */
    method Clear()
      requires Valid()
      modifies this
      ensures Valid() && Repr == old(Repr)
      ensures contents == [] && head == null && tail == old(tail)
    {
      var node := head;
      ghost var i := 0;
      while node != null
        invariant |nodes| == length && 0 <= i <= length && node == head
        invariant i < length ==> head == nodes[i]
        invariant i == length ==> head == null
        invariant length == old(length) && nodes == old(nodes) && contents == old(contents)
        invariant Repr == old(Repr) && tail == old(tail)
        decreases length - i
      {
        assert i < length - 1 ==> head.next == nodes[i + 1];
        node := head.next;
        head := node;
        i := i + 1;
      }
      length := 0;
      contents, nodes := [], [];
    }

    /** `get_head`: the first element; the C++ code does not check for an
        empty list, so the caller must. */
    method GetHead() returns (element: T)
      requires Valid() && contents != []
      ensures element == contents[0]
    {
      element := head.data;
    }

    /** `get_tail`: the last element; the C++ code does not check for an
        empty list, so the caller must. */
    method GetTail() returns (element: T)
      requires Valid() && contents != []
      ensures element == contents[|contents| - 1]
    {
      element := tail.data;
    }

    /** `at`: throws on an empty list or an index outside it; reads the head
        and the tail directly and otherwise walks from the nearer end. */
    method At(index: int) returns (element: Result<T>)
      requires Valid()
      ensures 0 <= index < |contents| ==> element == Ok(contents[index])
      ensures !(0 <= index < |contents|) ==> element == OutOfRange
    {
      if IsEmpty() {
        return OutOfRange;
      } else if index == 0 {
        return Ok(head.data);
      } else if index == length - 1 {
        return Ok(tail.data);
      } else if index < 0 || index >= length {
        return OutOfRange;
      }
      var current;
      if NearHead(length, index) {
        current := WalkForward(index);
      } else {
        current := WalkBackward(length - 1 - index);
      }
      element := Ok(current.data);
    }

    /** `get_size`: the byte size of the elements, not their count. */
    function GetSize(): (bytes: nat)
      reads this, Repr
      requires Valid()
      ensures bytes == |contents| * elemSize
    {
      length * elemSize
    }

    /** `get_length`. */
    function GetLength(): (n: nat)
      reads this, Repr
      requires Valid()
      ensures n == |contents|
    {
      length
    }
  }

  /** From [0, 1, 2] built by two `push_back`s and a `push_front`, inserting
      9 at position 1 gives [0, 9, 1, 2], and removing position 1 gives
      [0, 1, 2] back. */
  method InsertThenRemove(elemSize: nat)
    returns (inserted: seq<Result<int>>, popped: Result<int>, restored: seq<Result<int>>)
    ensures inserted == [Ok(0), Ok(9), Ok(1), Ok(2)]
    ensures popped == Ok(9)
    ensures restored == [Ok(0), Ok(1), Ok(2), OutOfRange]
  {
    var list := new DoublyLinkedList<int>(false, elemSize);
    list.PushBack(1);
    list.PushBack(2);
    list.PushFront(0);
    assert list.contents == [0, 1, 2];
    var _ := list.PushAt(9, 1);
    assert list.contents == [0, 9, 1, 2];
    inserted := ReadFirstFour(list);
    popped := list.PopAt(1);
    assert list.contents == [0, 1, 2];
    restored := ReadFirstFour(list);
  }

  /** Reads positions 0 to 3 through `at`. */
  method ReadFirstFour<T>(list: DoublyLinkedList<T>) returns (read: seq<Result<T>>)
    requires list.Valid()
    ensures |read| == 4
    ensures forall k :: 0 <= k < 4 ==> read[k] == if k < |list.contents| then Ok(list.contents[k]) else OutOfRange
  {
    var a := list.At(0);
    var b := list.At(1);
    var c := list.At(2);
    var d := list.At(3);
    read := [a, b, c, d];
  }

  /** `push_front` followed by `pop_front` returns the pushed element and
      restores the previous contents. */
  method PushFrontThenPopFront<T>(list: DoublyLinkedList<T>, element: T) returns (popped: Result<T>)
    requires list.Valid()
    modifies list.Repr
    ensures list.Valid() && popped == Ok(element) && list.contents == old(list.contents)
  {
    list.PushFront(element);
    popped := list.PopFront();
  }
}
