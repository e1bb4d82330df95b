/** The paths of doublylinkedlist.h that do not do what the list promises,
    modelled as the code is written. The chain is abstracted to positions:
    a cursor is either a position 0 .. length-1 or a null pointer, and an
    operation either throws, dereferences a null pointer (undefined
    behaviour, here `Faulted`), or ends with new contents. The corrected
    operations are the methods of DoublyLinkedLists.DoublyLinkedList. */
module ListDefects {
  import opened Exceptions
  import opened DoublyLinkedLists

  /** A node pointer into a chain whose nodes sit at positions
      0 .. length-1. */
  datatype Cursor = Null | Pos(pos: nat)

  /** How an operation ends. `Done` carries the new contents only: the
      popping operations fall off their end without a `return`, so they
      give back no defined value. */
  datatype Outcome<T> = Thrown | Faulted | Done(contents: seq<T>)

  /** `c->next` in a chain of `length` nodes: None when `c` is null. */
  function Next(length: nat, c: Cursor): (r: Option<Cursor>)
    ensures r == None <==> c == Null
    ensures c.Pos? && c.pos + 1 < length ==> r == Some(Pos(c.pos + 1))
    ensures c.Pos? && c.pos + 1 >= length ==> r == Some(Null)
  {
    match c
    case Null => None
    case Pos(p) => Some(if p + 1 < length then Pos(p + 1) else Null)
  }

  /** `c->previous`: None when `c` is null. */
  function Previous(c: Cursor): (r: Option<Cursor>)
    ensures r == None <==> c == Null
    ensures c.Pos? && c.pos > 0 ==> r == Some(Pos(c.pos - 1))
    ensures c.Pos? && c.pos == 0 ==> r == Some(Null)
  {
    match c
    case Null => None
    case Pos(p) => Some(if p > 0 then Pos(p - 1) else Null)
  }

  /** `steps` times `c = c->next`: None once a null cursor is followed. */
  function WalkNext(length: nat, c: Cursor, steps: nat): (r: Option<Cursor>)
    ensures c == Null && steps > 0 ==> r == None
    ensures c.Pos? && r.Some? && r.value.Pos? ==> r.value.pos == c.pos + steps
    decreases steps
  {
    if steps == 0 then Some(c)
    else match Next(length, c)
      case None => None
      case Some(d) => WalkNext(length, d, steps - 1)
  }

  /** `steps` times `c = c->previous`: None once a null cursor is followed. */
  function WalkPrevious(c: Cursor, steps: nat): (r: Option<Cursor>)
    ensures c == Null && steps > 0 ==> r == None
    ensures c.Pos? && r.Some? && r.value.Pos? ==> r.value.pos + steps == c.pos
    decreases steps
  {
    if steps == 0 then Some(c)
    else match Previous(c)
      case None => None
      case Some(d) => WalkPrevious(d, steps - 1)
  }

  /** The node a cursor designates in `list`: null for the null cursor
      and for a position past the end. */
  ghost function NodeAt<T>(list: DoublyLinkedList<T>, c: Cursor): Node?<T>
    reads list
  {
    match c
    case Null => null
    case Pos(p) => if p < |list.nodes| then list.nodes[p] else null
  }

  /** The cursor steps are the links of a valid list: from the node at
      position p, `Next` designates `next` (null after the tail) and
      `Previous` designates `previous` (null before the head). */
  lemma CursorStepsFollowLinks<T>(list: DoublyLinkedList<T>, p: nat)
    requires list.Valid() && p < list.length
    ensures Next(list.length, Pos(p)).Some? && NodeAt(list, Next(list.length, Pos(p)).value) == list.nodes[p].next
    ensures Previous(Pos(p)).Some? && NodeAt(list, Previous(Pos(p)).value) == list.nodes[p].previous
  {
    if p + 1 < list.length {
      assert list.nodes[p].next == list.nodes[p + 1];
    } else {
      assert list.nodes[p] == list.tail;
    }
    if p > 0 {
      assert list.nodes[p].previous == list.nodes[p - 1];
    } else {
      assert list.nodes[p] == list.head;
    }
  }

  /** Walking forward inside the chain lands `steps` positions further on. */
  lemma {:induction false} WalkNextLands(length: nat, p: nat, steps: nat)
    requires p + steps < length
    ensures WalkNext(length, Pos(p), steps) == Some(Pos(p + steps))
    decreases steps
  {
    if steps > 0 {
      WalkNextLands(length, p + 1, steps - 1);
    }
  }

  /** Walking forward past the last node reaches null, and one step more
      dereferences it: the walk never lands on a node. */
  lemma {:induction false} WalkNextPastEnd(length: nat, p: nat, steps: nat)
    requires p < length <= p + steps
    ensures WalkNext(length, Pos(p), steps) == Some(Null) || WalkNext(length, Pos(p), steps) == None
    decreases steps
  {
    if p + 1 < length {
      WalkNextPastEnd(length, p + 1, steps - 1);
    } else if steps > 1 {
      assert WalkNext(length, Null, steps - 1) == None;
    }
  }

  /** Walking backward inside the chain lands `steps` positions earlier. */
  lemma {:induction false} WalkPreviousLands(p: nat, steps: nat)
    requires steps <= p
    ensures WalkPrevious(Pos(p), steps) == Some(Pos(p - steps))
    decreases steps
  {
    if steps > 0 {
      WalkPreviousLands(p - 1, steps - 1);
    }
  }

  /** `push_at` as written: the head-side branch walks index - 1 links
      forward from the head; the tail-side branch walks length - 2 - index
      links backward from the tail. Either way the new node is spliced in
      after the node reached, which needs that node and its successor. */
  function PushAtAsWritten<T>(s: seq<T>, element: T, index: int): (r: Outcome<T>)
    ensures !(0 < index < |s| - 1) <==> r == Thrown
  {
    if |s| == 0 || index <= 0 || index >= |s| - 1 then Thrown
    else
      var current :=
        if NearHead(|s|, index) then WalkNext(|s|, Pos(0), index - 1)
        else WalkPrevious(Pos(|s| - 1), |s| - 2 - index);
      match current
      case None => Faulted
      case Some(Null) => Faulted
      case Some(Pos(p)) => if p + 1 < |s| then Done(Inserted(s, p + 1, element)) else Faulted
  }

  /** On the head side the code does what the list promises: the element
      ends up at position `index`. */
  lemma PushAtAsWrittenNearHead<T>(s: seq<T>, element: T, index: int)
    requires 0 < index < |s| - 1 && NearHead(|s|, index)
    ensures PushAtAsWritten(s, element, index) == Done(Inserted(s, index, element))
  {
    WalkNextLands(|s|, 0, index - 1);
  }

  /** On the tail side the walk stops at position index + 1, one node too
      close to the tail: the element lands at index + 2, and when index is
      length - 2 the successor is null and the splice dereferences it. */
  lemma PushAtAsWrittenNearTail<T>(s: seq<T>, element: T, index: int)
    requires 0 < index < |s| - 1 && !NearHead(|s|, index)
    ensures index < |s| - 2 ==> PushAtAsWritten(s, element, index) == Done(Inserted(s, index + 2, element))
    ensures index == |s| - 2 ==> PushAtAsWritten(s, element, index) == Faulted
  {
    WalkPreviousLands(|s| - 1, |s| - 2 - index);
  }

  /** Whenever the element differs from the one at `index`, the tail-side
      insertion is not the promised one. */
  lemma PushAtAsWrittenMisplaces<T>(s: seq<T>, element: T, index: int)
    requires 0 < index < |s| - 1 && !NearHead(|s|, index) && s[index] != element
    ensures PushAtAsWritten(s, element, index) != Done(Inserted(s, index, element))
  {
    PushAtAsWrittenNearTail(s, element, index);
    if index < |s| - 2 {
      assert Inserted(s, index + 2, element)[index] == s[index];
      assert Inserted(s, index, element)[index] == element;
    }
  }

  /** Concrete cases: inserting 9 at position 4 of [0, 1, 2, 3, 4, 5, 6]
      puts it at position 6, and inserting at position 3 of [0, 1, 2, 3, 4]
      dereferences a null successor. */
  lemma PushAtAsWrittenExamples()
    ensures PushAtAsWritten([0, 1, 2, 3, 4, 5, 6], 9, 4) == Done([0, 1, 2, 3, 4, 5, 9, 6])
    ensures Inserted([0, 1, 2, 3, 4, 5, 6], 4, 9) == [0, 1, 2, 3, 9, 4, 5, 6]
    ensures PushAtAsWritten([0, 1, 2, 3, 4], 9, 3) == Faulted
  {
  }

  /** `pop_at` as written: both branches walk `index` links forward, the
      head-side one from the head and the tail-side one from the tail; the
      node reached is then bypassed, which needs both its neighbours. */
  function PopAtAsWritten<T>(s: seq<T>, index: int): (r: Outcome<T>)
    ensures !(0 < index < |s| - 1) <==> r == Thrown
  {
    if |s| == 0 || index <= 0 || index >= |s| - 1 then Thrown
    else
      var start := if NearHead(|s|, index) then Pos(0) else Pos(|s| - 1);
      match WalkNext(|s|, start, index)
      case None => Faulted
      case Some(Null) => Faulted
      case Some(Pos(p)) => if 0 < p && p + 1 < |s| then Done(Removed(s, p)) else Faulted
  }

  /** On the head side the element at `index` is removed, as promised. */
  lemma PopAtAsWrittenNearHead<T>(s: seq<T>, index: int)
    requires 0 < index < |s| - 1 && NearHead(|s|, index)
    ensures PopAtAsWritten(s, index) == Done(Removed(s, index))
  {
    WalkNextLands(|s|, 0, index);
  }

  /** On the tail side the first step already leaves the chain: every
      valid index there ends in a null dereference. */
  lemma PopAtAsWrittenNearTail<T>(s: seq<T>, index: int)
    requires 0 < index < |s| - 1 && !NearHead(|s|, index)
    ensures PopAtAsWritten(s, index) == Faulted
  {
    WalkNextPastEnd(|s|, |s| - 1, index);
  }

  /** Concrete case: removing position 3 of [0, 1, 2, 3, 4] faults. */
  lemma PopAtAsWrittenExample()
    ensures PopAtAsWritten([0, 1, 2, 3, 4], 3) == Faulted
  {
  }

  /** `pop_front` as written: the head moves to its successor, whose
      `previous` link is then cleared; nothing else is updated. */
  function PopFrontAsWritten<T>(s: seq<T>): (r: Outcome<T>)
    ensures |s| == 0 <==> r == Thrown
    ensures |s| == 1 <==> r == Faulted
    ensures |s| >= 2 ==> r == Done(s[1..])
  {
    if |s| == 0 then Thrown
    else match Next(|s|, Pos(0))
      case Some(Pos(_)) => Done(s[1..])
      case _ => Faulted
  }

  /** `pop_back` as written: the tail moves to its predecessor, whose `next`
      link is then cleared; nothing else is updated. */
  function PopBackAsWritten<T>(s: seq<T>): (r: Outcome<T>)
    ensures |s| == 0 <==> r == Thrown
    ensures |s| == 1 <==> r == Faulted
    ensures |s| >= 2 ==> r == Done(s[..|s| - 1])
  {
    if |s| == 0 then Thrown
    else match Previous(Pos(|s| - 1))
      case Some(Pos(_)) => Done(s[..|s| - 1])
      case _ => Faulted
  }
}
