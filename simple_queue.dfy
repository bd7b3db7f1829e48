/** FIFO queue kept as a growing vector and the index of its head; popped
    slots stay in the vector until `reset`. */
module SimpleQueue {
  import opened Wrappers

  class SimpleQueue<T> {
    var data: seq<T>
    var head: nat

    ghost predicate Valid()
      reads this
    {
      head <= |data|
    }

    /** The elements still in the queue, oldest first. */
    ghost function Contents(): seq<T>
      reads this
      requires Valid()
    {
      data[head..]
    }

    /** `new` and `with_capacity` (the capacity is only a reservation). */
    constructor ()
      ensures Valid() && Contents() == []
    {
      data := [];
      head := 0;
    }

    /** `push`: appends at the back. */
    method Push(value: T)
      requires Valid()
      modifies this
      ensures Valid() && Contents() == old(Contents()) + [value]
    {
      data := data + [value];
    }

    /** `pop`: the oldest element, or nothing (and no change) when empty. */
    method Pop() returns (r: Option<T>)
      requires Valid()
      modifies this
      ensures Valid()
      ensures old(Contents()) == [] ==> r == None && Contents() == [] && data == old(data) && head == old(head)
      ensures old(Contents()) != [] ==> r == Some(old(Contents())[0]) && Contents() == old(Contents())[1..]
    {
      if head < |data| {
        var value := data[head];
        head := head + 1;
        r := Some(value);
      } else {
        r := None;
      }
    }

    /** `peek`: what `pop` would return, with nothing removed. */
    method Peek() returns (r: Option<T>)
      requires Valid()
      ensures Contents() == [] <==> r == None
      ensures Contents() != [] ==> r == Some(Contents()[0])
    {
      r := if head < |data| then Some(data[head]) else None;
    }

    /** `is_empty`. */
    method IsEmpty() returns (e: bool)
      requires Valid()
      ensures e <==> Contents() == []
    {
      e := head >= |data|;
    }

    /** `len`: elements pushed and not yet popped. */
    method Len() returns (n: nat)
      requires Valid()
      ensures n == |Contents()|
    {
      n := |data| - head;
    }

    /** `reset`: drops everything, including popped slots. */
    method Reset()
      requires Valid()
      modifies this
      ensures Valid() && Contents() == [] && data == [] && head == 0
    {
      data := [];
      head := 0;
    }

    /** `extend`: pushes the items in order. */
    method Extend(items: seq<T>)
      requires Valid()
      modifies this
      ensures Valid() && Contents() == old(Contents()) + items
    {
      data := data + items;
    }
  }
}
