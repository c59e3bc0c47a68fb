// vector<T>: a growable buffer `arr_` of `capacity_` slots whose first `size_` slots hold the
// elements. Elements are `int`; iterators (raw pointers into the buffer) are indices.
module Vectors {
  import opened Common

  /** Removing what was just inserted at `i` gives the sequence back. */
  lemma {:induction false} RemoveAfterInsert<T>(s: seq<T>, i: nat, x: T)
    requires i <= |s|
    ensures RemoveAt(InsertAt(s, i, x), i) == s
  {
    assert InsertAt(s, i, x)[..i] == s[..i];
    assert InsertAt(s, i, x)[i + 1..] == s[i..];
  }

  /** Inserting back what was removed at `i` gives the sequence back. */
  lemma {:induction false} InsertAfterRemove<T>(s: seq<T>, i: nat)
    requires i < |s|
    ensures InsertAt(RemoveAt(s, i), i, s[i]) == s
  {
    assert RemoveAt(s, i)[..i] == s[..i];
    assert RemoveAt(s, i)[i..] == s[i + 1..];
    assert s == s[..i] + [s[i]] + s[i + 1..];
  }

  /** The buffer after shifting up from `pos` and writing `value` there holds the insertion. */
  lemma {:induction false} ShiftedInsert(before: seq<int>, after: seq<int>, pos: nat, n: nat, value: int)
    requires pos <= n < |before| == |after|
    requires forall j :: 0 <= j < pos ==> after[j] == before[j]
    requires after[pos] == value
    requires forall j :: pos < j <= n ==> after[j] == before[j - 1]
    ensures after[..n + 1] == InsertAt(before[..n], pos, value)
  {
    var r := InsertAt(before[..n], pos, value);
    forall j | 0 <= j <= n ensures after[j] == r[j] {
      if j < pos { assert r[j] == before[j]; }
      else if pos < j { assert r[j] == before[j - 1]; }
    }
  }

  /** std::copy of the first `n` slots of `src` into `dst`. */
  method CopyPrefix(src: array<int>, dst: array<int>, n: nat)
    requires n <= src.Length && n <= dst.Length && src != dst
    modifies dst
    ensures dst[..n] == src[..n]
  {
    var i := 0;
    while i < n
      invariant 0 <= i <= n
      invariant forall j :: 0 <= j < i ==> dst[j] == src[j]
    {
      dst[i] := src[i];
      i := i + 1;
    }
  }

  /** Move the slots `lo .. hi-1` one place up, leaving slot `lo` as it was. */
  method ShiftUp(a: array<int>, lo: nat, hi: nat)
    requires lo <= hi < a.Length
    modifies a
    ensures forall j :: 0 <= j <= lo ==> a[j] == old(a[j])
    ensures forall j :: lo < j <= hi ==> a[j] == old(a[j - 1])
    ensures forall j :: hi < j < a.Length ==> a[j] == old(a[j])
  {
    var i := hi;
    while i > lo
      invariant lo <= i <= hi
      invariant forall j :: 0 <= j <= i ==> a[j] == old(a[j])
      invariant forall j :: i < j <= hi ==> a[j] == old(a[j - 1])
      invariant forall j :: hi < j < a.Length ==> a[j] == old(a[j])
    {
      a[i] := a[i - 1];
      i := i - 1;
    }
  }

  /** Move the slots `lo+1 .. hi` one place down, overwriting slot `lo`. */
  method ShiftDown(a: array<int>, lo: nat, hi: nat)
    requires lo <= hi < a.Length
    modifies a
    ensures forall j :: 0 <= j < lo ==> a[j] == old(a[j])
    ensures forall j :: lo <= j < hi ==> a[j] == old(a[j + 1])
    ensures forall j :: hi <= j < a.Length ==> a[j] == old(a[j])
  {
    var i := lo;
    while i < hi
      invariant lo <= i <= hi
      invariant forall j :: 0 <= j < lo ==> a[j] == old(a[j])
      invariant forall j :: lo <= j < i ==> a[j] == old(a[j + 1])
      invariant forall j :: i <= j < a.Length ==> a[j] == old(a[j])
    {
      a[i] := a[i + 1];
      i := i + 1;
    }
  }

  class Vector {
    var size: nat
    var capacity: nat
    var arr: array?<int>

    /** size_ never exceeds capacity_, and a buffer of capacity_ slots exists unless capacity_ is 0. */
    ghost predicate Valid()
      reads this
    {
      size <= capacity &&
      (arr == null ==> capacity == 0) &&
      (arr != null ==> arr.Length == capacity)
    }

    /** The elements in index order: the first size_ slots of the buffer. */
    ghost function Contents(): seq<int>
      requires Valid()
      reads this, arr
    {
      if arr == null then [] else arr[..size]
    }

    /** vector(): no buffer at all. */
    constructor()
      ensures Valid() && Contents() == [] && capacity == 0
    {
      size, capacity, arr := 0, 0, null;
    }

    /** vector(n): n value-initialised (zero) elements, capacity exactly n. */
    constructor Sized(n: nat)
      ensures Valid() && size == n && capacity == n
      ensures |Contents()| == n && forall i :: 0 <= i < n ==> Contents()[i] == 0
    {
      size, capacity := n, n;
      if n > 0 {
        arr := new int[n](_ => 0);
      } else {
        arr := null;
      }
    }

    /** vector(initializer_list): the listed elements, in order. */
    constructor FromSeq(items: seq<int>)
      ensures Valid() && fresh(arr) && Contents() == items && capacity == |items|
    {
      size, capacity := |items|, |items|;
      arr := new int[|items|](i requires 0 <= i < |items| => items[i]);
    }

    /** vector(const vector&): a new buffer of the same capacity holding a copy of the elements. */
    constructor Copy(v: Vector)
      requires v.Valid()
      ensures Valid() && fresh(arr)
      ensures Contents() == v.Contents() && size == v.size && capacity == v.capacity
    {
      var a := new int[v.capacity];
      if v.arr != null {
        CopyPrefix(v.arr, a, v.size);
      }
      size, capacity, arr := v.size, v.capacity, a;
    }

    /**
     * vector(vector&&) as written: steal the buffer, then null the source's arr_ and zero its
     * size_, but leave its capacity_ alone. A moved-from vector that had a buffer then reports a
     * capacity with no buffer behind it.
     */
    constructor MoveAsWritten(v: Vector)
      requires v.Valid()
      modifies v
      ensures Valid() && Contents() == old(v.Contents()) && capacity == old(v.capacity)
      ensures v.arr == null && v.size == 0 && v.capacity == old(v.capacity)
      ensures old(v.capacity) > 0 ==> !v.Valid()
    {
      size, capacity, arr := v.size, v.capacity, v.arr;
      new;
      v.arr := null;
      v.size := 0;
    }

    /** vector(vector&&), corrected: the source is left empty, with capacity_ 0 as well. */
    constructor Move(v: Vector)
      requires v.Valid()
      modifies v
      ensures Valid() && Contents() == old(v.Contents()) && capacity == old(v.capacity)
      ensures v.Valid() && v.Contents() == [] && v.capacity == 0
    {
      size, capacity, arr := v.size, v.capacity, v.arr;
      new;
      v.arr := null;
      v.size := 0;
      v.capacity := 0;
    }

    /** operator=(vector&&): take the other buffer and leave the other vector empty; self-assignment changes nothing. */
    method MoveAssign(v: Vector)
      requires Valid() && v.Valid()
      modifies this, v
      ensures Valid() && v.Valid()
      ensures v != this ==> Contents() == old(v.Contents()) && capacity == old(v.capacity)
      ensures v != this ==> v.Contents() == [] && v.capacity == 0
      ensures v == this ==> Contents() == old(Contents())
    {
      if v != this {
        size, capacity, arr := v.size, v.capacity, v.arr;
        v.arr, v.size, v.capacity := null, 0, 0;
      }
    }

    /** at(pos): the element at pos, or out_of_range when pos is not below size(). */
    function At(pos: nat): (r: Result<int>)
      requires Valid()
      reads this, arr
      ensures r.OutOfRange? <==> pos >= |Contents()|
      ensures r.Ok? ==> r.value == Contents()[pos]
    {
      if pos < size then Ok(arr[pos]) else OutOfRange
    }

    /**
     * Writing through the reference at(pos) / operator[](pos) returns: out_of_range for a
     * position not below size(), otherwise that one element changes.
     */
    method Put(pos: nat, value: int) returns (r: Result<()>)
      requires Valid()
      modifies arr
      ensures Valid()
      ensures r.OutOfRange? <==> pos >= old(|Contents()|)
      ensures r.OutOfRange? ==> Contents() == old(Contents())
      ensures r.Ok? ==> Contents() == old(Contents())[pos := value]
    {
      if pos >= size {
        return OutOfRange;
      }
      arr[pos] := value;
      r := Ok(());
    }

    function Front(): (x: int)
      requires Valid() && size > 0
      reads this, arr
      ensures x == Contents()[0]
    {
      arr[0]
    }

    function Back(): (x: int)
      requires Valid() && size > 0
      reads this, arr
      ensures x == Contents()[|Contents()| - 1]
    {
      arr[size - 1]
    }

    function Empty(): (b: bool)
      requires Valid()
      reads this, arr
      ensures b <==> Contents() == []
    {
      size == 0
    }

    function Size(): (n: nat)
      requires Valid()
      reads this, arr
      ensures n == |Contents()|
    {
      size
    }

    /** Move the elements into a new buffer of exactly `n` slots (reserve and shrink_to_fit use it). */
    method Reallocate(n: nat)
      requires Valid() && size <= n
      modifies this
      ensures Valid() && fresh(arr) && arr != null
      ensures size == old(size) && capacity == n && Contents() == old(Contents())
    {
      var a := new int[n];
      if arr != null {
        CopyPrefix(arr, a, size);
      }
      arr, capacity := a, n;
    }

    /** reserve(n): grow the buffer to exactly n slots when n exceeds the capacity; never shrink. */
    method Reserve(n: nat)
      requires Valid()
      modifies this
      ensures Valid() && size == old(size) && Contents() == old(Contents())
      ensures capacity == if n > old(capacity) then n else old(capacity)
    {
      if n > capacity {
        Reallocate(n);
      }
    }

    /** shrink_to_fit(): capacity becomes size, elements kept. */
    method ShrinkToFit()
      requires Valid()
      modifies this
      ensures Valid() && capacity == size && Contents() == old(Contents())
    {
      if capacity > size {
        Reallocate(size);
      }
    }

    /** clear(): no elements; the buffer stays. */
    method Clear()
      requires Valid()
      modifies this
      ensures Valid() && Contents() == [] && capacity == old(capacity)
    {
      size := 0;
    }

    /** Make room for one more element. */
    method Grow()
      requires Valid()
      modifies this
      ensures Valid() && size < capacity && size == old(size) && Contents() == old(Contents())
      ensures arr == old(arr) || fresh(arr)
    {
      if size == capacity {
        Reallocate(if capacity == 0 then 1 else 2 * capacity);
      }
    }

    /**
     * insert(pos, value): out_of_range for a position past end(); otherwise value goes in at pos,
     * the tail moves up by one, and the result is pos.
     */
    method Insert(pos: nat, value: int) returns (r: Result<nat>)
      requires Valid()
      modifies this, arr
      ensures Valid()
      ensures r.OutOfRange? <==> pos > old(|Contents()|)
      ensures r.OutOfRange? ==> Contents() == old(Contents())
      ensures r.Ok? ==> r.value == pos && Contents() == InsertAt(old(Contents()), pos, value)
      ensures arr == old(arr) || fresh(arr)
    {
      if pos > size {
        return OutOfRange;
      }
      Grow();
      ghost var before := arr[..];
      ShiftUp(arr, pos, size);
      arr[pos] := value;
      ShiftedInsert(before, arr[..], pos, size, value);
      size := size + 1;
      r := Ok(pos);
    }

    /** erase(pos): out_of_range for a position that holds no element; otherwise the tail moves down by one. */
    method Erase(pos: nat) returns (r: Result<()>)
      requires Valid()
      modifies this, arr
      ensures Valid() && capacity == old(capacity) && arr == old(arr)
      ensures r.OutOfRange? <==> pos >= old(|Contents()|)
      ensures r.OutOfRange? ==> Contents() == old(Contents())
      ensures r.Ok? ==> Contents() == RemoveAt(old(Contents()), pos)
    {
      if pos >= size {
        return OutOfRange;
      }
      ghost var c := Contents();
      ShiftDown(arr, pos, size - 1);
      size := size - 1;
      assert Contents() == RemoveAt(c, pos);
      r := Ok(());
    }

    /** push_back(value): value becomes the last element. */
    method PushBack(value: int)
      requires Valid()
      modifies this, arr
      ensures Valid() && Contents() == old(Contents()) + [value]
      ensures arr == old(arr) || fresh(arr)
    {
      ghost var c := Contents();
      Grow();
      arr[size] := value;
      size := size + 1;
      assert Contents() == c + [value];
    }

    /** pop_back(): the last element goes. */
    method PopBack()
      requires Valid() && size > 0
      modifies this
      ensures Valid() && Contents() == old(Contents()[..|Contents()| - 1])
      ensures capacity == old(capacity)
    {
      size := size - 1;
    }

    /** swap(other): exchange buffers, sizes and capacities. */
    method Swap(other: Vector)
      requires Valid() && other.Valid()
      modifies this, other
      ensures Valid() && other.Valid()
      ensures Contents() == old(other.Contents()) && other.Contents() == old(Contents())
      ensures capacity == old(other.capacity) && other.capacity == old(capacity)
    {
      var s, c, a := size, capacity, arr;
      size, capacity, arr := other.size, other.capacity, other.arr;
      other.size, other.capacity, other.arr := s, c, a;
    }

    /**
     * insert_many(pos, args...): the arguments go in before pos, in argument order; the result
     * is pos, where the first of them now stands (pos itself when there are none).
     */
    method InsertMany(pos: nat, items: seq<int>) returns (r: Result<nat>)
      requires Valid()
      modifies this, arr
      ensures Valid()
      ensures r.OutOfRange? <==> pos > old(|Contents()|)
      ensures r.OutOfRange? ==> Contents() == old(Contents())
      ensures r.Ok? ==> r.value == pos && Contents() == old(Contents()[..pos]) + items + old(Contents()[pos..])
    {
      if pos > size {
        return OutOfRange;
      }
      ghost var c := Contents();
      var i := 0;
      while i < |items|
        invariant 0 <= i <= |items|
        invariant Valid()
        invariant Contents() == c[..pos] + items[..i] + c[pos..]
        invariant arr == old(arr) || fresh(arr)
      {
        InsertNext(c, pos, items, i);
        var q := Insert(pos + i, items[i]);
        i := i + 1;
      }
      assert items[..i] == items;
      r := Ok(pos);
    }

    /** insert_many_back(args...): the arguments are appended in argument order. */
    method InsertManyBack(items: seq<int>)
      requires Valid()
      modifies this, arr
      ensures Valid() && Contents() == old(Contents()) + items
    {
      var i := 0;
      while i < |items|
        invariant 0 <= i <= |items|
        invariant Valid()
        invariant Contents() == old(Contents()) + items[..i]
        invariant arr == old(arr) || fresh(arr)
      {
        PushBack(items[i]);
        assert items[..i + 1] == items[..i] + [items[i]];
        i := i + 1;
      }
      assert items[..i] == items;
    }
  }

  /**
   * A vector {1, 2, 3} moved from with the constructor as written keeps capacity() == 3 while
   * its buffer is gone.
   */
  method MovedFromKeepsCapacity() returns (src: Vector, dst: Vector)
    ensures dst.Valid() && dst.Contents() == [1, 2, 3]
    ensures src.size == 0 && src.capacity == 3 && src.arr == null && !src.Valid()
  {
    src := new Vector.FromSeq([1, 2, 3]);
    dst := new Vector.MoveAsWritten(src);
  }
}
