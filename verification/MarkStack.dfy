/** The mark stack: a doubling array with LIFO order (marker/stack.c). */
module MarkStack {

  const STACK_INIT_CAPACITY: nat := 16

  class Stack {
    var data: array<nat>
    var top: int
    var capacity: nat
    ghost var contents: seq<nat>

    ghost predicate Valid()
      reads this, data
    {
      && 0 < capacity == data.Length && -1 <= top < capacity
      && contents == data[..top + 1]
    }

    constructor ()
      ensures Valid() && fresh(data) && contents == []
    {
      data := new nat[STACK_INIT_CAPACITY];
      top := -1;
      capacity := STACK_INIT_CAPACITY;
      contents := [];
    }

    predicate IsEmpty()
      requires Valid()
      reads this, data
      ensures IsEmpty() <==> contents == []
    {
      top == -1
    }

    /** Doubles the capacity; `realloc` keeps the elements. */
    method Resize()
      requires Valid()
      modifies this`data, this`capacity
      ensures Valid() && fresh(data) && contents == old(contents) && top == old(top) && capacity == 2 * old(capacity)
    {
      var small, doubled := data, capacity * 2;
      var large := new nat[doubled](i requires 0 <= i < doubled reads small =>
        if i < small.Length then small[i] else 0);
      assert large[..top + 1] == small[..top + 1];
      data, capacity := large, doubled;
    }

    method Push(value: nat)
      requires Valid()
      modifies this, data
      ensures Valid() && (data == old(data) || fresh(data)) && contents == old(contents) + [value]
    {
      if top == capacity - 1 { Resize(); }
      top := top + 1;
      data[top] := value;
      contents := contents + [value];
    }

    method Pop() returns (value: nat)
      requires Valid() && contents != []
      modifies this`top, this`contents
      ensures Valid() && data == old(data) && old(contents) == contents + [value]
    {
      value := data[top];
      assert contents == contents[..|contents| - 1] + [value];
      top := top - 1;
      contents := contents[..|contents| - 1];
    }
  }
}
