// stack<T>: a LIFO adapter whose only state is the vector `data_`; the top is the vector's back.
module Stacks {
  import opened Vectors

  class Stack {
    const data: Vector

    ghost predicate Valid()
      reads this, data
    {
      data.Valid()
    }

    /** The elements from the bottom to the top: top() is the last one. */
    ghost function Contents(): seq<int>
      requires Valid()
      reads this, data, data.arr
    {
      data.Contents()
    }

    constructor()
      ensures Valid() && fresh(data) && Contents() == []
    {
      data := new Vector();
    }

    /** stack(initializer_list): pushed in list order, so the last listed is on top. */
    constructor FromSeq(items: seq<int>)
      ensures Valid() && fresh(data) && fresh(data.arr) && Contents() == items
      ensures data.capacity == |items|
    {
      data := new Vector.FromSeq(items);
    }

    constructor Copy(s: Stack)
      requires s.Valid()
      ensures Valid() && fresh(data) && fresh(data.arr) && Contents() == s.Contents()
    {
      data := new Vector.Copy(s.data);
    }

    /**
     * stack(stack&&) as written: it moves `data_` with the vector's move constructor as written, so
     * the source keeps its old capacity with no buffer behind it.
     */
    constructor MoveAsWritten(s: Stack)
      requires s.Valid()
      modifies s.data
      ensures Valid() && fresh(data) && Contents() == old(s.Contents())
      ensures s.data.arr == null && s.data.size == 0 && s.data.capacity == old(s.data.capacity)
      ensures old(s.data.capacity) > 0 ==> !s.Valid()
    {
      data := new Vector.MoveAsWritten(s.data);
    }

    /**
     * stack(stack&&) with the vector move corrected: the elements move over and the source is left
     * a valid empty stack.
     */
    constructor Move(s: Stack)
      requires s.Valid()
      modifies s.data
      ensures Valid() && fresh(data) && Contents() == old(s.Contents())
      ensures s.Valid() && s.Contents() == []
    {
      data := new Vector.Move(s.data);
    }

    /** operator=(stack&&): as the move constructor; self-assignment changes nothing. */
    method MoveAssign(s: Stack)
      requires Valid() && s.Valid()
      modifies data, s.data
      ensures Valid() && s.Valid()
      ensures s.data != data ==> Contents() == old(s.Contents()) && s.Contents() == []
      ensures s.data == data ==> Contents() == old(Contents())
    {
      data.MoveAssign(s.data);
    }

    /** top(): the most recently pushed element still present. */
    function Top(): (x: int)
      requires Valid() && Contents() != []
      reads this, data, data.arr
      ensures x == Contents()[|Contents()| - 1]
    {
      data.Back()
    }

    function Empty(): (b: bool)
      requires Valid()
      reads this, data, data.arr
      ensures b <==> Contents() == []
    {
      data.Empty()
    }

    function Size(): (n: nat)
      requires Valid()
      reads this, data, data.arr
      ensures n == |Contents()|
    {
      data.Size()
    }

    /** push(value): value becomes the top. */
    method Push(value: int)
      requires Valid()
      modifies data, data.arr
      ensures Valid() && Contents() == old(Contents()) + [value]
      ensures data.arr == old(data.arr) || fresh(data.arr)
    {
      data.PushBack(value);
    }

    /** pop(): the top goes; the rest is as it was. */
    method Pop()
      requires Valid() && Contents() != []
      modifies data
      ensures Valid() && Contents() == old(Contents()[..|Contents()| - 1])
    {
      data.PopBack();
    }

    method Swap(other: Stack)
      requires Valid() && other.Valid()
      modifies data, other.data
      ensures Valid() && other.Valid()
      ensures Contents() == old(other.Contents()) && other.Contents() == old(Contents())
    {
      data.Swap(other.data);
    }

    /**
     * insert_many_front(args...): the arguments go beneath the existing elements, in argument
     * order, so the existing top stays on top.
     */
    method InsertManyFront(items: seq<int>)
      requires Valid()
      modifies data, data.arr
      ensures Valid() && Contents() == items + old(Contents())
    {
      var r := data.InsertMany(0, items);
      assert old(Contents())[..0] == [] && old(Contents())[0..] == old(Contents());
    }

    /** push followed by pop gives back the stack it started from, and top() in between is the pushed value. */
    method PushPop(value: int) returns (seen: int)
      requires Valid()
      modifies data, data.arr
      ensures Valid() && Contents() == old(Contents()) && seen == value
    {
      Push(value);
      seen := Top();
      Pop();
    }
  }

  /** Moving from stack{1, 2, 3} as written leaves a source whose vector has capacity 3 and no buffer. */
  method MovedFromStackKeepsCapacity() returns (src: Stack, dst: Stack)
    ensures dst.Valid() && dst.Contents() == [1, 2, 3]
    ensures src.data.size == 0 && src.data.capacity == 3 && src.data.arr == null && !src.Valid()
  {
    src := new Stack.FromSeq([1, 2, 3]);
    dst := new Stack.MoveAsWritten(src);
  }
}
