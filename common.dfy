// Small result types and sequence edits shared by every container module.
module Common {
  /** An optional value: used for "no such node". */
  datatype Option<T> = None | Some(value: T)

  /** The outcome of a checked access: a value, or the std::out_of_range the library throws. */
  datatype Result<T> = Ok(value: T) | OutOfRange

  /** Never decreasing: the order of a multi-key container and of a sorted list. */
  ghost predicate NonDecreasing(s: seq<int>)
  {
    forall i, j :: 0 <= i < j < |s| ==> s[i] <= s[j]
  }

  /** `s` with `x` placed at position `i`. */
  function InsertAt<T>(s: seq<T>, i: nat, x: T): seq<T>
    requires i <= |s|
  {
    s[..i] + [x] + s[i..]
  }

  /** `s` without its element at position `i`. */
  function RemoveAt<T>(s: seq<T>, i: nat): seq<T>
    requires i < |s|
  {
    s[..i] + s[i + 1..]
  }

  lemma {:induction false} MultisetInsertAt<T>(s: seq<T>, i: nat, x: T)
    requires i <= |s|
    ensures multiset(InsertAt(s, i, x)) == multiset(s) + multiset{x}
  {
    assert s == s[..i] + s[i..];
  }

  lemma {:induction false} MultisetRemoveAt<T>(s: seq<T>, i: nat)
    requires i < |s|
    ensures multiset(RemoveAt(s, i)) == multiset(s) - multiset{s[i]}
  {
    assert s == s[..i] + [s[i]] + s[i + 1..];
  }

  lemma {:induction false} InsertAtMembers<T>(s: seq<T>, i: nat, x: T)
    requires i <= |s|
    ensures forall y :: y in InsertAt(s, i, x) <==> y in s || y == x
  {
    assert s == s[..i] + s[i..];
  }

  /** The prefix one longer is the prefix followed by the next element. */
  lemma {:induction false} PrefixSnoc<T>(s: seq<T>, i: nat)
    requires i < |s|
    ensures s[..i + 1] == s[..i] + [s[i]]
    ensures multiset(s[..i + 1]) == multiset(s[..i]) + multiset{s[i]}
  {
    assert s[..i + 1] == s[..i] + [s[i]];
  }

  /** Where an element of `s` sits once `x` is inserted at `i`. */
  lemma {:induction false} InsertAtIndex<T>(s: seq<T>, i: nat, x: T, j: nat)
    requires i <= |s| && j < |s|
    ensures |InsertAt(s, i, x)| == |s| + 1 && InsertAt(s, i, x)[i] == x
    ensures InsertAt(s, i, x)[if j < i then j else j + 1] == s[j]
  {
  }

  lemma {:induction false} RemoveAtIndex<T>(s: seq<T>, i: nat)
    requires i < |s|
    ensures |RemoveAt(s, i)| == |s| - 1
    ensures forall j :: 0 <= j < i ==> RemoveAt(s, i)[j] == s[j]
    ensures forall j :: i <= j < |s| - 1 ==> RemoveAt(s, i)[j] == s[j + 1]
  {
  }

  /** A slice lying inside the left part of `a + [x] + b`. */
  lemma {:induction false} SliceOfLeft<T>(a: seq<T>, x: T, b: seq<T>, lo: nat, n: nat)
    requires lo + n <= |a|
    ensures (a + [x] + b)[lo..lo + n] == a[lo..lo + n]
  {
    var u, w := (a + [x] + b)[lo..lo + n], a[lo..lo + n];
    forall j | 0 <= j < n ensures u[j] == w[j] {
      assert u[j] == (a + [x] + b)[lo + j];
    }
  }

  /** A slice lying inside the right part of `a + [x] + b`. */
  lemma {:induction false} SliceOfRight<T>(a: seq<T>, x: T, b: seq<T>, lo: nat, n: nat)
    requires |a| + 1 <= lo && lo + n <= |a| + 1 + |b|
    ensures (a + [x] + b)[lo..lo + n] == b[lo - |a| - 1..lo - |a| - 1 + n]
  {
    var o := |a| + 1;
    var u, w := (a + [x] + b)[lo..lo + n], b[lo - o..lo - o + n];
    forall j | 0 <= j < n ensures u[j] == w[j] {
      assert u[j] == (a + [x] + b)[lo + j];
    }
  }

  /** Inserting the next item just after those already inserted at `pos`. */
  lemma {:induction false} InsertNext<T>(c: seq<T>, pos: nat, items: seq<T>, i: nat)
    requires pos <= |c| && i < |items|
    ensures InsertAt(c[..pos] + items[..i] + c[pos..], pos + i, items[i]) == c[..pos] + items[..i + 1] + c[pos..]
  {
    var d := c[..pos] + items[..i] + c[pos..];
    assert d[..pos + i] == c[..pos] + items[..i];
    assert d[pos + i..] == c[pos..];
    assert items[..i + 1] == items[..i] + [items[i]];
  }
}
