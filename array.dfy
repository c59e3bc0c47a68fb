// array<T, N>: a fixed buffer `elements[N]`, zero-initialised, written in place through at and
// operator[], fill and swap. Elements are `int`; the template parameter N is the constant `n`; iterators
// (raw pointers) are indices.
module Arrays {
  import opened Common

  class FixedArray {
    const n: nat
    const elements: array<int>

    ghost predicate Valid()
      reads this
    {
      elements.Length == n
    }

    ghost function Contents(): seq<int>
      reads this, elements
    {
      elements[..]
    }

    /** array(): N zeros. */
    constructor(n: nat)
      ensures Valid() && fresh(elements)
      ensures |Contents()| == n && forall i :: 0 <= i < n ==> Contents()[i] == 0
    {
      this.n := n;
      elements := new int[n](_ => 0);
    }

    /** array(initializer_list): the listed values first, zeros after them. */
    constructor FromSeq(n: nat, items: seq<int>)
      requires |items| <= n
      ensures Valid() && fresh(elements)
      ensures Contents() == items + seq(n - |items|, _ => 0)
    {
      this.n := n;
      elements := new int[n](i => if 0 <= i < |items| then items[i] else 0);
    }

    /** array(const array&): the same N values in a buffer of its own. */
    constructor Copy(other: FixedArray)
      requires other.Valid()
      ensures Valid() && fresh(elements) && n == other.n && Contents() == other.Contents()
    {
      n := other.n;
      elements := new int[other.n](i reads other.elements => if 0 <= i < other.elements.Length then other.elements[i] else 0);
    }

    /** operator=(const array&): every slot takes the other array's value. */
    method CopyAssign(other: FixedArray)
      requires Valid() && other.Valid() && other.n == n
      modifies elements
      ensures Contents() == old(other.Contents())
    {
      var i := 0;
      while i < n
        invariant 0 <= i <= n
        invariant forall j :: 0 <= j < i ==> elements[j] == old(other.elements[j])
        invariant forall j :: i <= j < n ==> other.elements[j] == old(other.elements[j])
      {
        elements[i] := other.elements[i];
        i := i + 1;
      }
    }

    /** at(pos) and operator[](pos): element pos, or out_of_range when pos is not below N. */
    function At(pos: nat): (r: Result<int>)
      requires Valid()
      reads this, elements
      ensures r.OutOfRange? <==> pos >= |Contents()|
      ensures r.Ok? ==> r.value == Contents()[pos]
    {
      if pos < n then Ok(elements[pos]) else OutOfRange
    }

    /**
     * Writing through the reference at(pos) / operator[](pos) returns: out_of_range, or exactly
     * slot pos changes.
     */
    method Put(pos: nat, value: int) returns (r: Result<()>)
      requires Valid()
      modifies elements
      ensures r.OutOfRange? <==> pos >= n
      ensures r.OutOfRange? ==> Contents() == old(Contents())
      ensures r.Ok? ==> Contents() == old(Contents())[pos := value]
    {
      if pos >= n {
        return OutOfRange;
      }
      elements[pos] := value;
      r := Ok(());
    }

    /** front(): element 0. */
    function Front(): (x: int)
      requires Valid() && n > 0
      reads this, elements
      ensures x == Contents()[0]
    {
      elements[0]
    }

    /** back(): element N - 1. */
    function Back(): (x: int)
      requires Valid() && n > 0
      reads this, elements
      ensures x == Contents()[|Contents()| - 1]
    {
      elements[n - 1]
    }

    /** begin(): the first slot. */
    function Begin(): (i: nat)
      ensures i == 0
    {
      0
    }

    /** end(): one past the last slot, N places after begin(). */
    function End(): (i: nat)
      requires Valid()
      reads this, elements
      ensures i == Begin() + |Contents()|
    {
      n
    }

    function Empty(): (b: bool)
      requires Valid()
      reads this, elements
      ensures b <==> Contents() == []
    {
      n == 0
    }

    function Size(): (s: nat)
      requires Valid()
      reads this, elements
      ensures s == |Contents()|
    {
      n
    }

    /** max_size(): a fixed array can hold exactly N elements. */
    function MaxSize(): (s: nat)
      requires Valid()
      reads this, elements
      ensures s == Size()
    {
      n
    }

    /** fill(value): every slot becomes value. */
    method Fill(value: int)
      requires Valid()
      modifies elements
      ensures |Contents()| == n && forall i :: 0 <= i < n ==> Contents()[i] == value
    {
      var i := 0;
      while i < n
        invariant 0 <= i <= n
        invariant forall j :: 0 <= j < i ==> elements[j] == value
      {
        elements[i] := value;
        i := i + 1;
      }
    }

    /** swap(other): the two arrays exchange all N values. */
    method Swap(other: FixedArray)
      requires Valid() && other.Valid() && other.n == n
      modifies elements, other.elements
      ensures Contents() == old(other.Contents()) && other.Contents() == old(Contents())
    {
      var i := 0;
      while i < n
        invariant 0 <= i <= n
        invariant forall j :: 0 <= j < i ==> elements[j] == old(other.elements[j]) && other.elements[j] == old(elements[j])
        invariant forall j :: i <= j < n ==> elements[j] == old(elements[j]) && other.elements[j] == old(other.elements[j])
      {
        var t := elements[i];
        elements[i] := other.elements[i];
        other.elements[i] := t;
        i := i + 1;
      }
    }
  }
}
