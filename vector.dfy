/** The growable array of vector.h: an array-backed buffer that grows by a
    fixed increment, one reserved slot ahead of the next append. */
module Vectors {

  /** Capacity after one append to a buffer of `capacity` slots holding
      `length` elements: the buffer grows by `increase` exactly when the
      append would fill the last slot. */
  function CapacityAfterAppend(capacity: int, length: int, increase: int): (r: int)
    ensures r == capacity || r == capacity + increase
    ensures length < capacity && increase >= 1 ==> length + 1 < r
  {
    if length + 1 == capacity then capacity + increase else capacity
  }

  /** Capacity of a vector created with `capacity` slots and growth
      `increase` after `n` appends to the empty buffer. */
  function CapacityAfterAppends(capacity: int, increase: int, n: nat): (r: int)
    ensures capacity >= 1 && increase >= 1 ==> capacity <= r && n < r
    decreases n
  {
    if n == 0 then capacity
    else CapacityAfterAppend(CapacityAfterAppends(capacity, increase, n - 1), n - 1, increase)
  }

  /** Growth is additive: after `n` appends the capacity is the initial one
      plus a whole number of increments, it always exceeds `n`, and it is
      the smallest such value (one increment less would not exceed `n`). */
  lemma {:induction false} AdditiveGrowth(capacity: int, increase: int, n: nat) returns (growths: nat)
    requires capacity >= 1 && increase >= 1
    ensures CapacityAfterAppends(capacity, increase, n) == capacity + growths * increase
    ensures n < CapacityAfterAppends(capacity, increase, n)
    ensures growths == 0 || capacity + (growths - 1) * increase <= n
  {
    if n == 0 {
      growths := 0;
    } else {
      var before := AdditiveGrowth(capacity, increase, n - 1);
      var previous := CapacityAfterAppends(capacity, increase, n - 1);
      if n == previous {
        growths := before + 1;
        assert growths * increase == before * increase + increase;
      } else {
        growths := before;
      }
    }
  }

  class Vector<T> {
    /** Chooses the locked or the unlocked variant of every operation except
        `operator[]`, which never locks; the model gives the unlocked bodies,
        which the locked ones duplicate. */
    const threadSafe: bool
    /** `sizeof(T)`. */
    const elemSize: nat
    /** The default value `T()`. */
    const zero: T
    /** The fixed growth increment. */
    const increase: int

    var capacity: nat
    /** Number of live elements (the C++ field `size`). */
    var length: nat
    var elements: array<T>

    ghost predicate Valid()
      reads this
    {
      elements.Length == capacity && length < capacity && increase >= 1
    }

    /** The live elements, slots 0 .. length-1. */
    ghost function Contents(): seq<T>
      reads this, elements
      requires Valid()
    {
      elements[..length]
    }

    /** `Vector(bool)`: ten slots, increment five. */
    constructor Default(threadSafe: bool, zero: T, elemSize: nat)
      ensures Valid() && fresh(elements)
      ensures capacity == 10 && increase == 5 && Contents() == []
      ensures elements[..] == seq(10, _ => zero)
      ensures this.threadSafe == threadSafe && this.zero == zero && this.elemSize == elemSize
    {
      this.threadSafe, this.zero, this.elemSize := threadSafe, zero, elemSize;
      capacity, length, increase := 10, 0, 10 / 2;
      elements := new T[10](_ => zero);
    }

    /** `Vector(size_t, bool)`: the increment is half the capacity. */
    constructor WithCapacity(capacity: nat, threadSafe: bool, zero: T, elemSize: nat)
      requires capacity >= 2
      ensures Valid() && fresh(elements)
      ensures this.capacity == capacity && increase == capacity / 2 && Contents() == []
      ensures elements[..] == seq(capacity, _ => zero)
      ensures this.threadSafe == threadSafe && this.zero == zero && this.elemSize == elemSize
    {
      this.threadSafe, this.zero, this.elemSize := threadSafe, zero, elemSize;
      this.capacity, length, increase := capacity, 0, capacity / 2;
      elements := new T[capacity](_ => zero);
    }

    /** `Vector(size_t, int, bool)`: the increment is taken as given. */
    constructor WithIncrease(capacity: nat, increase: int, threadSafe: bool, zero: T, elemSize: nat)
      requires capacity >= 1 && increase >= 1
      ensures Valid() && fresh(elements)
      ensures this.capacity == capacity && this.increase == increase && Contents() == []
      ensures elements[..] == seq(capacity, _ => zero)
      ensures this.threadSafe == threadSafe && this.zero == zero && this.elemSize == elemSize
    {
      this.threadSafe, this.zero, this.elemSize := threadSafe, zero, elemSize;
      this.capacity, length, this.increase := capacity, 0, increase;
      elements := new T[capacity](_ => zero);
    }

    /** `increase_capacity`: a buffer `increase` slots larger, holding the
        live elements and default values after them. */
    method IncreaseCapacity()
      requires Valid()
      modifies this
      ensures Valid() && fresh(elements)
      ensures capacity == old(capacity) + increase && length == old(length)
      ensures elements[..] == old(Contents()) + seq(capacity - length, _ => zero)
    {
      var buffer := new T[capacity + increase](_ => zero);
      for i := 0 to length
        modifies buffer
        invariant forall k :: 0 <= k < i ==> buffer[k] == elements[k]
        invariant forall k :: i <= k < buffer.Length ==> buffer[k] == zero
      {
        buffer[i] := elements[i];
      }
      capacity, elements := capacity + increase, buffer;
    }

    /** `push_back`: appends, first growing the buffer when the append would
        fill its last slot, so that a free slot always remains. */
    method PushBack(element: T)
      requires Valid()
      modifies this, elements
      ensures Valid()
      ensures Contents() == old(Contents()) + [element]
      ensures capacity == CapacityAfterAppend(old(capacity), old(length), increase)
      ensures old(length) + 1 != old(capacity) ==>
                elements == old(elements) && elements[..] == old(elements[..])[old(length) := element]
      ensures old(length) + 1 == old(capacity) ==>
                fresh(elements) && elements[..] == old(Contents()) + [element] + seq(increase, _ => zero)
    {
      if length + 1 == capacity {
        IncreaseCapacity();
      }
      elements[length] := element;
      length := length + 1;
      assert elements[..length] == old(Contents()) + [element];
    }

    /** `pop`: on an empty vector returns `T()` and changes nothing;
        otherwise returns the last element and shortens the vector. The
        default value is written one slot past the last live element, so
        the vacated slot keeps the popped value. */
    method Pop() returns (popped: T)
      requires Valid()
      modifies this, elements
      ensures Valid() && elements == old(elements) && capacity == old(capacity)
      ensures old(length) == 0 ==> popped == zero && length == 0 && elements[..] == old(elements[..])
      ensures old(length) > 0 ==>
                popped == old(Contents())[old(length) - 1] &&
                Contents() == old(Contents())[..old(length) - 1] &&
                elements[..] == old(elements[..])[old(length) := zero] &&
                elements[length] == popped
    {
      if length == 0 {
        return zero;
      }
      popped := elements[length - 1];
      elements[length] := zero;
      length := length - 1;
    }

    /** `at`: element `index` when it is live, `T()` otherwise. */
    method At(index: int) returns (element: T)
      requires Valid()
      ensures 0 <= index < |Contents()| ==> element == Contents()[index]
      ensures !(0 <= index < |Contents()|) ==> element == zero
    {
      if 0 <= index < length {
        element := elements[index];
      } else {
        element := zero;
      }
    }

    /** `operator[]`: reads the buffer slot without checking it against the
        length; the slot must lie inside the buffer. */
    method Get(index: int) returns (element: T)
      requires Valid() && 0 <= index < capacity
      ensures index < |Contents()| ==> element == Contents()[index]
      ensures element == elements[index]
    {
      element := elements[index];
    }

    /** `get_size`: the byte size of the live elements, not their count. */
    function GetSize(): (bytes: nat)
      reads this, elements
      requires Valid()
      ensures bytes == |Contents()| * elemSize
    {
      length * elemSize
    }

    /** `get_length`. */
    function GetLength(): (n: int)
      reads this, elements
      requires Valid()
      ensures n == |Contents()|
    {
      length
    }

    /** `get_capacity`: always above the length. */
    function GetCapacity(): (c: nat)
      reads this, elements
      requires Valid()
      ensures c == elements.Length && c > |Contents()|
    {
      capacity
    }
  }

  /** The driver in main.cpp: appends 1 to 11 to a default vector, then
      reads the elements back through `operator[]`, the capacity and the
      size. */
  method ElevenAppends(elemSize: nat) returns (elements: seq<int>, length: int, capacity: nat, bytes: nat)
    ensures elements == [1, 2, 3, 4, 5, 6, 7, 8, 9, 10, 11]
    ensures length == 11 && capacity == 15 && bytes == 11 * elemSize
  {
    var vec := new Vector<int>.Default(false, 0, elemSize);
    for k := 1 to 12
      invariant vec.Valid() && fresh(vec.elements)
      invariant vec.Contents() == seq(k - 1, j => j + 1)
      invariant vec.capacity == CapacityAfterAppends(10, 5, k - 1) && vec.length == k - 1
    {
      vec.PushBack(k);
    }
    assert CapacityAfterAppends(10, 5, 11) == 15;
    length := vec.GetLength();
    elements := [];
    var i := 0;
    while i < length
      modifies {}
      invariant 0 <= i <= length
      invariant elements == vec.Contents()[..i]
    {
      var x := vec.Get(i);
      elements := elements + [x];
      i := i + 1;
    }
    capacity := vec.GetCapacity();
    bytes := vec.GetSize();
  }
}
