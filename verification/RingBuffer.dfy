/** `ring_buffer`: a head, a tail and a size over a fixed array of slots, used by one thread. */
module RingBuffer {
  import opened Wrappers
  import opened Slots
  import opened RingArithmetic

  datatype Error = InvalidCapacity | EmptyBuffer

  /** The `i`-th slot from `head` is what the contents say. */
  ghost predicate SlotIs<T>(cap: nat, cells: seq<Slot<T>>, head: nat, items: seq<T>, i: nat)
    requires 0 < cap == |cells|
  {
    cells[(head + i) % cap] == if i < |items| then Constructed(items[i]) else Empty
  }

  /** Exactly the contents are constructed, from `head` onward around the ring. */
  ghost predicate Holds<T>(cap: nat, cells: seq<Slot<T>>, head: nat, items: seq<T>) {
    && 0 < cap == |cells| && head < cap && |items| <= cap
    && forall i: nat | i < cap :: SlotIs(cap, cells, head, items, i)
  }

  lemma HeadSlot<T>(cap: nat, cells: seq<Slot<T>>, head: nat, items: seq<T>)
    requires Holds(cap, cells, head, items) && items != []
    ensures cells[head] == Constructed(items[0])
  {
    assert SlotIs(cap, cells, head, items, 0);
    Residue(head, 0, head, cap);
  }

  lemma HoldsAppend<T>(cap: nat, cells: seq<Slot<T>>, head: nat, items: seq<T>, value: T)
    requires Holds(cap, cells, head, items) && |items| < cap
    ensures cells[(head + |items|) % cap] == Empty
    ensures Holds(cap, cells[(head + |items|) % cap := Constructed(value)], head, items + [value])
  {
    var n := |items|;
    assert SlotIs(cap, cells, head, items, n);
    var cells' := cells[(head + n) % cap := Constructed(value)];
    forall i: nat | i < cap ensures SlotIs(cap, cells', head, items + [value], i) {
      assert SlotIs(cap, cells, head, items, i);
      if i != n { DistinctCells(head + i, head + n, cap); }
    }
  }

  lemma HoldsDropFirst<T>(cap: nat, cells: seq<Slot<T>>, head: nat, items: seq<T>)
    requires Holds(cap, cells, head, items) && items != []
    ensures Holds(cap, cells[head := Empty], (head + 1) % cap, items[1..])
  {
    var cells' := cells[head := Empty];
    var head' := (head + 1) % cap;
    forall i: nat | i < cap ensures SlotIs(cap, cells', head', items[1..], i) {
      StepHead(head, i, cap);
      Residue(head, 0, head, cap);
      if i + 1 < cap {
        assert SlotIs(cap, cells, head, items, i + 1);
        DistinctCells(head + 1 + i, head, cap);
      } else {
        NextLap(head, cap);
      }
    }
  }

  lemma HoldsNothing<T>(cap: nat, cells: seq<Slot<T>>, head: nat)
    requires Holds(cap, cells, head, [])
    ensures forall i | 0 <= i < cap :: cells[i] == Empty
    ensures Holds(cap, cells, 0, [])
  {
    forall i | 0 <= i < cap ensures cells[i] == Empty {
      Residue(i, 0, i, cap);
      var p := WindowCovers(i, head, cap);
      assert SlotIs(cap, cells, head, [], p - head);
    }
    forall i: nat | i < cap ensures SlotIs(cap, cells, 0, [], i) {}
  }

  /** Stepping the head and then counting `i` slots is counting `i + 1` slots. */
  lemma StepHead(head: nat, i: nat, cap: nat)
    requires head < cap
    ensures ((head + 1) % cap + i) % cap == (head + 1 + i) % cap
  {
    if head + 1 == cap {
      Residue(head + 1, 1, 0, cap);
      NextLap(i, cap);
    } else {
      Residue(head + 1, 0, head + 1, cap);
    }
  }

  /** The slot behind the last of `size` elements from `head` on. */
  function Tail(head: nat, size: nat, cap: nat): nat
    requires 0 < cap
  {
    (head + size) % cap
  }

  lemma TailAdvances(head: nat, size: nat, cap: nat)
    requires 0 < cap
    ensures (Tail(head, size, cap) + 1) % cap == Tail(head, size + 1, cap)
  {
    Successor(head + size, cap);
    assert head + size + 1 == head + (size + 1);
  }

  /** What was pushed and has not left. */
  function Rest<T>(pushed: seq<T>, exits: seq<Exit<T>>): seq<T> {
    if |exits| <= |pushed| then pushed[|exits|..] else []
  }

  /** What left is the front of what was pushed. */
  ghost predicate Accounted<T>(pushed: seq<T>, exits: seq<Exit<T>>) {
    |exits| <= |pushed| && ExitValues(exits) <= pushed
  }

  lemma RestAfterPush<T>(pushed: seq<T>, exits: seq<Exit<T>>, value: T)
    requires Accounted(pushed, exits)
    ensures Accounted(pushed + [value], exits) && Rest(pushed + [value], exits) == Rest(pushed, exits) + [value]
  {
  }

  lemma RestAfterExit<T>(pushed: seq<T>, exits: seq<Exit<T>>, popped: bool)
    requires Accounted(pushed, exits) && Rest(pushed, exits) != []
    ensures var e := Exit(Rest(pushed, exits)[0], popped);
            Accounted(pushed, exits + [e]) && Rest(pushed, exits + [e]) == Rest(pushed, exits)[1..]
  {
    var e := Exit(Rest(pushed, exits)[0], popped);
    assert ExitValues(exits + [e]) == ExitValues(exits) + [pushed[|exits|]];
  }

  lemma NothingIsLost<T>(pushed: seq<T>, exits: seq<Exit<T>>)
    requires Accounted(pushed, exits)
    ensures pushed == ExitValues(exits) + Rest(pushed, exits)
  {
    assert ExitValues(exits) == pushed[..|exits|];
  }

  class RingBuffer<T> {
    const capacity: nat
    const buffer: array<Slot<T>>
    var head: nat
    var tail: nat
    var size: nat

    // Everything ever pushed, and how each value that is gone left.
    ghost var pushed: seq<T>
    ghost var exits: seq<Exit<T>>

    ghost function Contents(): seq<T>
      reads this
    {
      Rest(pushed, exits)
    }

    ghost predicate Valid()
      reads this, buffer
    {
      && 0 < capacity == buffer.Length
      && Holds(capacity, buffer[..], head, Contents())
      && size == |Contents()| && tail == Tail(head, size, capacity)
      && Accounted(pushed, exits)
    }

    constructor (capacity: nat)
      requires 0 < capacity
      ensures Valid() && this.capacity == capacity && pushed == [] && exits == [] && fresh(buffer)
    {
      this.capacity := capacity;
      buffer := new Slot<T>[capacity](_ => Empty);
      head, tail, size := 0, 0, 0;
      pushed, exits := [], [];
      new;
      forall i: nat | i < capacity ensures SlotIs(capacity, buffer[..], 0, [], i) {}
    }

    /** The public constructor, which rejects a zero capacity. */
    static method Create(capacity: nat) returns (r: Result<RingBuffer<T>, Error>)
      ensures r.Failure? <==> capacity == 0
      ensures r.Failure? ==> r.error == InvalidCapacity
      ensures r.Success? ==> fresh(r.value) && fresh(r.value.buffer) && r.value.Valid()
      ensures r.Success? ==> r.value.capacity == capacity && r.value.pushed == [] && r.value.exits == []
    {
      if capacity == 0 {
        return Failure(InvalidCapacity);
      }
      var ring := new RingBuffer<T>(capacity);
      r := Success(ring);
    }

    function NextIndex(index: nat): (next: nat)
      requires 0 < capacity
      ensures next < capacity
    {
      (index + 1) % capacity
    }

    method ConstructAt(at: nat, value: T)
      requires at < buffer.Length && buffer[at].Empty?
      modifies buffer
      ensures buffer[..] == old(buffer[..])[at := Constructed(value)]
    {
      buffer[at] := Constructed(value);
    }

    method EmplaceBack(value: T) returns (ok: bool)
      requires Valid()
      modifies this, buffer
      ensures Valid() && exits == old(exits) && ok == (|old(Contents())| < capacity)
      ensures pushed == if ok then old(pushed) + [value] else old(pushed)
      ensures Contents() == if ok then old(Contents()) + [value] else old(Contents())
    {
      if size == capacity {
        return false;
      }
      HoldsAppend(capacity, buffer[..], head, Contents(), value);
      TailAdvances(head, size, capacity);
      RestAfterPush(pushed, exits, value);
      ConstructAt(tail, value);
      tail := NextIndex(tail);
      size := size + 1;
      pushed := pushed + [value];
      ok := true;
    }

    /** Destroying the head and stepping past it, as `pop_front` and each turn of `clear` do. */
    method DropHead(ghost popped: bool)
      requires Valid() && 0 < size
      modifies this`head, this`size, this`exits, buffer
      ensures Valid() && size == old(size) - 1
      ensures exits == old(exits) + [Exit(old(Contents())[0], popped)]
      ensures Contents() == old(Contents())[1..]
    {
      HoldsDropFirst(capacity, buffer[..], head, Contents());
      StepHead(head, size - 1, capacity);
      RestAfterExit(pushed, exits, popped);
      exits := exits + [Exit(Contents()[0], popped)];
      buffer[head] := Empty;
      head := NextIndex(head);
      size := size - 1;
    }

    method PopFront() returns (result: Option<T>)
      requires Valid()
      modifies this, buffer
      ensures Valid() && pushed == old(pushed)
      ensures result == if |old(Contents())| == 0 then None else Some(old(Contents())[0])
      ensures Contents() == if |old(Contents())| == 0 then [] else old(Contents())[1..]
      ensures exits == if result.None? then old(exits) else old(exits) + [Exit(result.value, true)]
    {
      if size == 0 {
        return None;
      }
      HeadSlot(capacity, buffer[..], head, Contents());
      result := Some(buffer[head].value);
      DropHead(true);
    }

    method Front() returns (r: Result<T, Error>)
      requires Valid()
      ensures r == if |Contents()| == 0 then Failure(EmptyBuffer) else Success(Contents()[0])
    {
      if size == 0 {
        return Failure(EmptyBuffer);
      }
      HeadSlot(capacity, buffer[..], head, Contents());
      r := Success(buffer[head].value);
    }

    /** `clear` destroys what is left, in order and once each, and starts again at slot zero. */
    method Clear()
      requires Valid()
      modifies this, buffer
      ensures Valid() && Contents() == [] && head == tail == 0 && pushed == old(pushed)
      ensures old(exits) <= exits && forall i | old(|exits|) <= i < |exits| :: !exits[i].popped
      ensures forall i | 0 <= i < capacity :: buffer[i].Empty?
    {
      while size != 0
        invariant Valid() && pushed == old(pushed) && old(exits) <= exits
        invariant forall i | old(|exits|) <= i < |exits| :: !exits[i].popped
        decreases size
      {
        DropHead(false);
      }
      HoldsNothing(capacity, buffer[..], head);
      head, tail := 0, 0;
    }

    method Query() returns (empty: bool, full: bool, count: nat)
      requires Valid()
      ensures empty == (Contents() == []) && full == (|Contents()| == capacity) && count == |Contents()|
    {
      empty, full, count := size == 0, size == capacity, size;
    }
  }
}
