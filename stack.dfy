/** The bounded stack of stack.h: a fixed array that never grows and drops
    a push that would fill its last slot. */
module Stacks {
  import opened Exceptions

  class Stack<T> {
    /** Chooses the locked or the unlocked variant of every operation; the
        model gives the unlocked bodies, which the locked ones duplicate. */
    const threadSafe: bool
    /** `sizeof(T)`. */
    const elemSize: nat
    /** The default value `T()`. */
    const zero: T
    /** Set once by the constructor, never reassigned. */
    const capacity: nat
    const elements: array<T>

    /** Number of elements (the C++ field `size`). */
    var length: nat

    /** At most capacity - 1 elements: `push` refuses the one that would
        fill the last slot. */
    ghost predicate Valid()
      reads this
    {
      elements.Length == capacity && length < capacity
    }

    /** The elements, bottom first. */
    ghost function Contents(): seq<T>
      reads this, elements
      requires Valid()
    {
      elements[..length]
    }

    /** `Stack(bool)`: ten slots. */
    constructor Default(threadSafe: bool, zero: T, elemSize: nat)
      ensures Valid() && fresh(elements)
      ensures capacity == 10 && Contents() == []
      ensures this.threadSafe == threadSafe && this.zero == zero && this.elemSize == elemSize
    {
      this.threadSafe, this.zero, this.elemSize := threadSafe, zero, elemSize;
      capacity, length := 10, 0;
      elements := new T[10](_ => zero);
    }

    /** `Stack(size_t, bool)`. */
    constructor WithCapacity(capacity: nat, threadSafe: bool, zero: T, elemSize: nat)
      requires capacity >= 1
      ensures Valid() && fresh(elements)
      ensures this.capacity == capacity && Contents() == []
      ensures this.threadSafe == threadSafe && this.zero == zero && this.elemSize == elemSize
    {
      this.threadSafe, this.zero, this.elemSize := threadSafe, zero, elemSize;
      this.capacity, length := capacity, 0;
      elements := new T[capacity](_ => zero);
    }

    /** `is_full`: one more element would fill the last slot, so a full
        stack holds capacity - 1 elements. */
    predicate IsFull()
      reads this, elements
      requires Valid()
      ensures IsFull() <==> |Contents()| == capacity - 1
    {
      length + 1 == capacity
    }

    /** `is_empty`. */
    predicate IsEmpty()
      reads this, elements
      requires Valid()
      ensures IsEmpty() <==> Contents() == []
    {
      length == 0
    }

    /** `push`: stores the element on top, or does nothing at all when the
        stack is full. */
    method Push(element: T)
      requires Valid()
      modifies this, elements
      ensures Valid()
      ensures old(IsFull()) ==> length == old(length) && elements[..] == old(elements[..])
      ensures !old(IsFull()) ==>
                Contents() == old(Contents()) + [element] &&
                elements[..] == old(elements[..])[old(length) := element]
    {
      if IsFull() {
        return;
      }
      elements[length] := element;
      length := length + 1;
      assert elements[..length] == old(Contents()) + [element];
    }

    /** `pop`: throws on an empty stack; otherwise removes the top element,
        returns it and writes `T()` into the slot it vacates. */
    method Pop() returns (popped: Result<T>)
      requires Valid()
      modifies this, elements
      ensures Valid()
      ensures old(length) == 0 ==>
                popped == OutOfRange && length == 0 && elements[..] == old(elements[..])
      ensures old(length) > 0 ==>
                popped == Ok(old(Contents())[old(length) - 1]) &&
                Contents() == old(Contents())[..old(length) - 1] &&
                elements[..] == old(elements[..])[length := zero]
    {
      if IsEmpty() {
        return OutOfRange;
      }
      length := length - 1;
      popped := Ok(elements[length]);
      elements[length] := zero;
    }

    /** `top`: the top element, or a throw on an empty stack. */
    method Top() returns (top: Result<T>)
      requires Valid()
      ensures |Contents()| == 0 ==> top == OutOfRange
      ensures |Contents()| > 0 ==> top == Ok(Contents()[|Contents()| - 1])
    {
      if IsEmpty() {
        return OutOfRange;
      }
      top := Ok(elements[length - 1]);
    }

    /** `at`: element `index` counted from the bottom, or a throw when the
        index is not that of an element. */
    method At(index: int) returns (element: Result<T>)
      requires Valid()
      ensures 0 <= index < |Contents()| ==> element == Ok(Contents()[index])
      ensures !(0 <= index < |Contents()|) ==> element == OutOfRange
    {
      if 0 <= index < length {
        element := Ok(elements[index]);
      } else {
        element := OutOfRange;
      }
    }

    /** `get_size`: the byte size of the elements, not their count. */
    function GetSize(): (bytes: nat)
      reads this, elements
      requires Valid()
      ensures bytes == |Contents()| * elemSize
    {
      length * elemSize
    }

    /** `get_length`. */
    function GetLength(): (n: nat)
      reads this, elements
      requires Valid()
      ensures n == |Contents()|
    {
      length
    }

    /** `get_capacity`: the array's size, always above the length. */
    function GetCapacity(): (c: nat)
      reads this, elements
      requires Valid()
      ensures c == elements.Length && |Contents()| < c
    {
      capacity
    }
  }

  /** From a stack that is not full, a push followed by a pop returns the
      pushed element and restores the contents; the slot used is left
      holding `T()`. */
  method PushThenPop<T>(stack: Stack<T>, element: T) returns (popped: Result<T>)
    requires stack.Valid() && !stack.IsFull()
    modifies stack, stack.elements
    ensures stack.Valid() && popped == Ok(element) && stack.Contents() == old(stack.Contents())
    ensures stack.elements[..] == old(stack.elements[..])[old(stack.length) := stack.zero]
  {
    stack.Push(element);
    popped := stack.Pop();
  }

  /** A stack of capacity 2 is full after one push: it drops the second
      push, so popping gives the first element and then throws. */
  method FullStackDropsPush<T>(first: T, second: T, zero: T, elemSize: nat)
    returns (length: nat, popped: Result<T>, again: Result<T>)
    ensures length == 1 && popped == Ok(first) && again == OutOfRange
  {
    var stack := new Stack<T>.WithCapacity(2, false, zero, elemSize);
    stack.Push(first);
    stack.Push(second);
    length := stack.GetLength();
    popped := stack.Pop();
    again := stack.Pop();
  }
}
