// queue<T>: a FIFO adapter whose only state is the vector `data_`; the front is the vector's
// first element and push appends at its back.
module Queues {
  import opened Common
  import opened Vectors

  class Queue {
    const data: Vector

    ghost predicate Valid()
      reads this, data
    {
      data.Valid()
    }

    /** The elements from the front (earliest pushed) to the back (latest pushed). */
    ghost function Contents(): seq<int>
      requires Valid()
      reads this, data, data.arr
    {
      data.Contents()
    }

    constructor()
      ensures Valid() && fresh(data) && Contents() == []
    {
      data := new Vector();
    }

    /** queue(initializer_list): the first listed is the front. */
    constructor FromSeq(items: seq<int>)
      ensures Valid() && fresh(data) && fresh(data.arr) && Contents() == items
      ensures data.capacity == |items|
    {
      data := new Vector.FromSeq(items);
    }

    constructor Copy(q: Queue)
      requires q.Valid()
      ensures Valid() && fresh(data) && fresh(data.arr) && Contents() == q.Contents()
    {
      data := new Vector.Copy(q.data);
    }

    /**
     * queue(queue&&) as written: it moves `data_` with the vector's move constructor as written, so
     * the source keeps its old capacity with no buffer behind it.
     */
    constructor MoveAsWritten(q: Queue)
      requires q.Valid()
      modifies q.data
      ensures Valid() && fresh(data) && Contents() == old(q.Contents())
      ensures q.data.arr == null && q.data.size == 0 && q.data.capacity == old(q.data.capacity)
      ensures old(q.data.capacity) > 0 ==> !q.Valid()
    {
      data := new Vector.MoveAsWritten(q.data);
    }

    /**
     * queue(queue&&) with the vector move corrected: the elements move over and the source is left
     * a valid empty queue.
     */
    constructor Move(q: Queue)
      requires q.Valid()
      modifies q.data
      ensures Valid() && fresh(data) && Contents() == old(q.Contents())
      ensures q.Valid() && q.Contents() == []
    {
      data := new Vector.Move(q.data);
    }

    /** operator=(queue&&): as the move constructor; self-assignment changes nothing. */
    method MoveAssign(q: Queue)
      requires Valid() && q.Valid()
      modifies data, q.data
      ensures Valid() && q.Valid()
      ensures q.data != data ==> Contents() == old(q.Contents()) && q.Contents() == []
      ensures q.data == data ==> Contents() == old(Contents())
    {
      data.MoveAssign(q.data);
    }

    /** front(): the earliest pushed element still present. */
    function Front(): (x: int)
      requires Valid() && Contents() != []
      reads this, data, data.arr
      ensures x == Contents()[0]
    {
      data.Front()
    }

    /** back(): the latest pushed element still present. */
    function Back(): (x: int)
      requires Valid() && Contents() != []
      reads this, data, data.arr
      ensures x == Contents()[|Contents()| - 1]
    {
      data.Back()
    }

    function Empty(): (b: bool)
      requires Valid()
      reads this, data, data.arr
      ensures b <==> Contents() == []
    {
      data.Empty()
    }

    function Size(): (n: nat)
      requires Valid()
      reads this, data, data.arr
      ensures n == |Contents()|
    {
      data.Size()
    }

    /** push(value): value joins at the back. */
    method Push(value: int)
      requires Valid()
      modifies data, data.arr
      ensures Valid() && Contents() == old(Contents()) + [value]
      ensures data.arr == old(data.arr) || fresh(data.arr)
    {
      data.PushBack(value);
    }

    /** pop(): only the front element goes. */
    method Pop()
      requires Valid() && Contents() != []
      modifies data, data.arr
      ensures Valid() && Contents() == old(Contents()[1..]) && data.arr == old(data.arr)
    {
      var r := data.Erase(0);
    }

    method Swap(other: Queue)
      requires Valid() && other.Valid()
      modifies data, other.data
      ensures Valid() && other.Valid()
      ensures Contents() == old(other.Contents()) && other.Contents() == old(Contents())
    {
      data.Swap(other.data);
    }

    /** insert_many_back(args...): the arguments join at the back in argument order. */
    method InsertManyBack(items: seq<int>)
      requires Valid()
      modifies data, data.arr
      ensures Valid() && Contents() == old(Contents()) + items
    {
      data.InsertManyBack(items);
    }

    /**
     * FIFO order: popping |Contents()| times hands out the elements in the order they were
     * pushed and leaves the queue empty.
     */
    method Drain() returns (out: seq<int>)
      requires Valid()
      modifies data, data.arr
      ensures Valid() && Contents() == [] && out == old(Contents())
    {
      ghost var c0 := Contents();
      out := [];
      while !Empty()
        invariant Valid() && data.arr == old(data.arr)
        invariant |out| <= |c0| && out == c0[..|out|] && Contents() == c0[|out|..]
        decreases |Contents()|
      {
        var x := Front();
        Pop();
        assert c0[..|out| + 1] == out + [x];
        out := out + [x];
      }
    }
  }

  /** Moving from queue{1, 2, 3} as written leaves a source whose vector has capacity 3 and no buffer. */
  method MovedFromQueueKeepsCapacity() returns (src: Queue, dst: Queue)
    ensures dst.Valid() && dst.Contents() == [1, 2, 3]
    ensures src.data.size == 0 && src.data.capacity == 3 && src.data.arr == null && !src.Valid()
  {
    src := new Queue.FromSeq([1, 2, 3]);
    dst := new Queue.MoveAsWritten(src);
  }
}
