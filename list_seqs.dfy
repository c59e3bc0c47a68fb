// The sequence-level meaning of the list operations that rearrange elements: merge, unique,
// reverse, and the insertion step of sort.
module ListSeqs {
  import opened Common

  /**
   * The standard merge of two lists: repeatedly take the front of `b` when it is smaller
   * than the front of `a`, else the front of `a`; equal elements of `a` come first.
   */
  function MergeSeq(a: seq<int>, b: seq<int>): seq<int>
    decreases |a| + |b|
  {
    if a == [] then b
    else if b == [] then a
    else if b[0] < a[0] then [b[0]] + MergeSeq(a, b[1..])
    else [a[0]] + MergeSeq(a[1..], b)
  }

  /** Before the first comparison nothing is merged yet. */
  lemma {:induction false} MergeStart(a: seq<int>, b: seq<int>)
    ensures a[..0] + MergeSeq(a[0..], b) == MergeSeq(a, b)
  {
    assert a[..0] == [] && a[0..] == a;
  }

  /** Once the second sequence is used up, the merged prefix plus the rest is the merge. */
  lemma {:induction false} MergeDone(c: seq<int>, i: nat, m: seq<int>)
    requires i <= |c| && c[..i] + MergeSeq(c[i..], []) == m
    ensures c == m
  {
    assert MergeSeq(c[i..], []) == c[i..];
    assert c[..i] + c[i..] == c;
  }

  /** Merging loses and invents nothing. */
  lemma {:induction false} MergeSeqMultiset(a: seq<int>, b: seq<int>)
    ensures multiset(MergeSeq(a, b)) == multiset(a) + multiset(b)
    decreases |a| + |b|
  {
    if a != [] && b != [] {
      if b[0] < a[0] {
        MergeSeqMultiset(a, b[1..]);
        assert b == [b[0]] + b[1..];
        assert multiset(b) == multiset{b[0]} + multiset(b[1..]);
      } else {
        MergeSeqMultiset(a[1..], b);
        assert a == [a[0]] + a[1..];
        assert multiset(a) == multiset{a[0]} + multiset(a[1..]);
      }
    }
  }

  /** The first element of a merge is the first element of one of the inputs. */
  lemma {:induction false} MergeSeqHead(a: seq<int>, b: seq<int>)
    requires a != [] || b != []
    ensures MergeSeq(a, b) != []
    ensures MergeSeq(a, b)[0] == (if a == [] then b[0] else if b == [] then a[0] else if b[0] < a[0] then b[0] else a[0])
  {
  }

  /** The front of a merge, when the first list's front is taken. */
  lemma {:induction false} MergeFrontA(a: seq<int>, b: seq<int>)
    requires a != [] && (b == [] || !(b[0] < a[0]))
    ensures MergeSeq(a, b) == [a[0]] + MergeSeq(a[1..], b)
  {
    if b == [] {
      assert MergeSeq(a[1..], b) == a[1..];
      assert a == [a[0]] + a[1..];
    }
  }

  /** The front of a merge, when the second list's front is taken. */
  lemma {:induction false} MergeFrontB(a: seq<int>, b: seq<int>)
    requires b != [] && (a == [] || b[0] < a[0])
    ensures MergeSeq(a, b) == [b[0]] + MergeSeq(a, b[1..])
  {
    if a == [] {
      assert b == [b[0]] + b[1..];
    }
  }

  /** One step of merge that keeps the front of the first list where it is. */
  lemma {:induction false} MergeKeep(c: seq<int>, i: nat, b: seq<int>)
    requires i < |c| && b != [] && !(b[0] < c[i])
    ensures c[..i + 1] + MergeSeq(c[i + 1..], b) == c[..i] + MergeSeq(c[i..], b)
  {
    MergeFrontA(c[i..], b);
    assert c[i..][1..] == c[i + 1..];
    assert c[..i + 1] == c[..i] + [c[i]];
  }

  /** One step of merge that moves the front of the second list in at position i. */
  lemma {:induction false} MergeTake(c: seq<int>, i: nat, b: seq<int>)
    requires i <= |c| && b != [] && (i == |c| || b[0] < c[i])
    ensures InsertAt(c, i, b[0])[..i + 1] + MergeSeq(InsertAt(c, i, b[0])[i + 1..], b[1..]) == c[..i] + MergeSeq(c[i..], b)
  {
    var d := InsertAt(c, i, b[0]);
    MergeFrontB(c[i..], b);
    assert d[..i + 1] == c[..i] + [b[0]];
    assert d[i + 1..] == c[i..];
  }

  lemma {:induction false} ConsSorted(x: int, s: seq<int>)
    requires NonDecreasing(s) && (s != [] ==> x <= s[0])
    ensures NonDecreasing([x] + s)
  {
    var r := [x] + s;
    forall i, j | 0 <= i < j < |r| ensures r[i] <= r[j] {
      if i > 0 { assert r[i] == s[i - 1] && r[j] == s[j - 1]; }
      else { assert r[j] == s[j - 1]; assert s[0] <= s[j - 1]; }
    }
  }

  /** Merging two ascending lists gives an ascending list. */
  lemma {:induction false} MergeSeqSorted(a: seq<int>, b: seq<int>)
    requires NonDecreasing(a) && NonDecreasing(b)
    ensures NonDecreasing(MergeSeq(a, b))
    decreases |a| + |b|
  {
    if a != [] && b != [] {
      if b[0] < a[0] {
        MergeSeqSorted(a, b[1..]);
        MergeSeqHead(a, b[1..]);
        ConsSorted(b[0], MergeSeq(a, b[1..]));
      } else {
        MergeSeqSorted(a[1..], b);
        if a[1..] != [] || b != [] { MergeSeqHead(a[1..], b); }
        ConsSorted(a[0], MergeSeq(a[1..], b));
      }
    }
  }

  /** unique(): of each run of equal neighbours, keep one element. */
  function Dedup(s: seq<int>): seq<int>
    decreases |s|
  {
    if |s| <= 1 then s
    else if s[0] == s[1] then Dedup(s[1..])
    else [s[0]] + Dedup(s[1..])
  }

  ghost predicate NoAdjacentDuplicates(s: seq<int>)
  {
    forall i :: 0 <= i < |s| - 1 ==> s[i] != s[i + 1]
  }

  lemma {:induction false} DedupHead(s: seq<int>)
    requires s != []
    ensures Dedup(s) != [] && Dedup(s)[0] == s[0]
    decreases |s|
  {
    if |s| > 1 && s[0] == s[1] {
      DedupHead(s[1..]);
    }
  }

  /** After unique() no two neighbours are equal. */
  lemma {:induction false} DedupNoAdjacent(s: seq<int>)
    ensures NoAdjacentDuplicates(Dedup(s))
    decreases |s|
  {
    if |s| > 1 {
      DedupNoAdjacent(s[1..]);
      if s[0] != s[1] {
        DedupHead(s[1..]);
        var r := [s[0]] + Dedup(s[1..]);
        forall i | 0 <= i < |r| - 1 ensures r[i] != r[i + 1] {
          if i > 0 { assert r[i] == Dedup(s[1..])[i - 1] && r[i + 1] == Dedup(s[1..])[i]; }
        }
      }
    }
  }

  /** unique() keeps every value that occurs, and adds none. */
  lemma {:induction false} DedupMembers(s: seq<int>)
    ensures forall x :: x in Dedup(s) <==> x in s
    decreases |s|
  {
    if |s| > 1 {
      DedupMembers(s[1..]);
      assert s == [s[0]] + s[1..];
      if s[0] == s[1] { assert s[0] in s[1..]; }
    }
  }

  /** On a list with no equal neighbours unique() changes nothing, so unique() is idempotent. */
  lemma {:induction false} DedupIdentity(s: seq<int>)
    requires NoAdjacentDuplicates(s)
    ensures Dedup(s) == s
    decreases |s|
  {
    if |s| > 1 {
      DedupIdentity(s[1..]);
      assert s == [s[0]] + s[1..];
    }
  }

  lemma {:induction false} DedupIdempotent(s: seq<int>)
    ensures Dedup(Dedup(s)) == Dedup(s)
  {
    DedupNoAdjacent(s);
    DedupIdentity(Dedup(s));
  }

  /** One step of unique that drops the element at i + 1, equal to the one at i. */
  lemma {:induction false} DedupDrop(c: seq<int>, i: nat)
    requires i + 1 < |c| && c[i] == c[i + 1]
    ensures RemoveAt(c, i + 1)[..i] + Dedup(RemoveAt(c, i + 1)[i..]) == c[..i] + Dedup(c[i..])
  {
    var d := RemoveAt(c, i + 1);
    assert d[..i] == c[..i];
    assert d[i..] == c[i + 1..];
    assert c[i..][1..] == c[i + 1..];
  }

  /** One step of unique that keeps the element at i, different from the one at i + 1. */
  lemma {:induction false} DedupKeep(c: seq<int>, i: nat)
    requires i + 1 < |c| && c[i] != c[i + 1]
    ensures c[..i + 1] + Dedup(c[i + 1..]) == c[..i] + Dedup(c[i..])
  {
    assert c[i..][1..] == c[i + 1..];
    assert c[..i + 1] == c[..i] + [c[i]];
  }

  /** reverse(): the same elements back to front. */
  function Rev<T>(s: seq<T>): seq<T>
  {
    seq(|s|, i requires 0 <= i < |s| => s[|s| - 1 - i])
  }

  /** Reversing twice gives the list back. */
  lemma {:induction false} RevRev<T>(s: seq<T>)
    ensures Rev(Rev(s)) == s
  {
  }

  lemma {:induction false} RevMultiset<T>(s: seq<T>)
    ensures multiset(Rev(s)) == multiset(s)
    decreases |s|
  {
    if s != [] {
      var t := s[1..];
      RevMultiset(t);
      assert Rev(s) == Rev(t) + [s[0]];
      assert s == [s[0]] + t;
    }
  }

  /**
   * The insertion step of sort: an element placed after every element not greater than it and
   * before every greater one keeps a sorted prefix sorted.
   */
  lemma {:induction false} SortedInsert(s: seq<int>, j: nat, x: int)
    requires NonDecreasing(s) && j <= |s|
    requires forall t :: 0 <= t < j ==> s[t] <= x
    requires forall t :: j <= t < |s| ==> x < s[t]
    ensures NonDecreasing(InsertAt(s, j, x))
  {
  }

  /**
   * The relinking step of sort: the element at `i` moves back to position `j`. The first
   * i + 1 elements become the first i with that element placed at `j`; the rest stay; moving
   * it back to where it is changes nothing.
   */
  lemma {:induction false} MoveBack<T>(s: seq<T>, i: nat, j: nat)
    requires j <= i < |s|
    ensures |InsertAt(RemoveAt(s, i), j, s[i])| == |s|
    ensures InsertAt(RemoveAt(s, i), j, s[i])[..i + 1] == InsertAt(s[..i], j, s[i])
    ensures InsertAt(RemoveAt(s, i), j, s[i])[i + 1..] == s[i + 1..]
    ensures j == i ==> InsertAt(RemoveAt(s, i), j, s[i]) == s
  {
    var r := RemoveAt(s, i);
    assert r[..j] == s[..i][..j];
    assert r[j..][..i - j] == s[..i][j..];
    assert r[j..][i - j..] == s[i + 1..];
    assert r[j..] == r[j..][..i - j] + r[j..][i - j..];
    if j == i {
      assert s == s[..i] + [s[i]] + s[i + 1..];
    }
  }

  /**
   * One step of insertion sort: with the first i elements ascending, the element at i moved to
   * just before the first greater one leaves the first i + 1 ascending, the rest in place, and
   * the same elements.
   */
  lemma {:induction false} SortStep(s: seq<int>, i: nat, j: nat)
    requires j <= i < |s| && NonDecreasing(s[..i])
    requires forall t :: 0 <= t < j ==> s[t] <= s[i]
    requires j < i ==> s[i] < s[j]
    ensures NonDecreasing(InsertAt(RemoveAt(s, i), j, s[i])[..i + 1])
    ensures multiset(InsertAt(RemoveAt(s, i), j, s[i])) == multiset(s)
  {
    MoveBack(s, i, j);
    forall t | j <= t < i ensures s[i] < s[..i][t] {
      assert s[..i][j] <= s[..i][t];
    }
    SortedInsert(s[..i], j, s[i]);
    MultisetRemoveAt(s, i);
    MultisetInsertAt(RemoveAt(s, i), j, s[i]);
  }
}
