// multiset<Key>: a facade over AVLTree<Key, nullptr_t> in multi-key mode. Keys are `int`; the
// mapped `nullptr_t` becomes the unit type `()`.
module Multisets {
  import opened Common
  import opened AvlNodes
  import opened AvlIterator
  import opened AvlTree

  /** With a unit payload, counting keys is counting elements. */
  lemma {:induction false} UnitCounts(s: seq<(int, ())>, k: int)
    ensures multiset(Keys(s))[k] == multiset(s)[(k, ())]
    decreases |s|
  {
    if s != [] {
      var init, last := s[..|s| - 1], s[|s| - 1];
      UnitCounts(init, k);
      assert s == init + [last];
      assert Keys(s) == Keys(init) + [last.0];
      var u: () := last.1;
      assert last == (last.0, u) && u == ();
    }
  }

  lemma {:induction false} UnitMultisetSum(a: seq<(int, ())>, b: seq<(int, ())>, c: seq<(int, ())>)
    requires multiset(a) == multiset(b) + multiset(c)
    ensures multiset(Keys(a)) == multiset(Keys(b)) + multiset(Keys(c))
  {
    forall k ensures multiset(Keys(a))[k] == (multiset(Keys(b)) + multiset(Keys(c)))[k] {
      UnitCounts(a, k);
      UnitCounts(b, k);
      UnitCounts(c, k);
    }
  }

  /** In a sorted sequence, removing either of two equal elements leaves the same sequence. */
  lemma {:induction false} SortedRemoveSame(ks: seq<int>, i: nat, j: nat)
    requires NonDecreasing(ks) && i < |ks| && j < |ks| && ks[i] == ks[j]
    ensures RemoveAt(ks, i) == RemoveAt(ks, j)
  {
    if i < j {
      forall m | 0 <= m < |ks| - 1 ensures RemoveAt(ks, i)[m] == RemoveAt(ks, j)[m] {
        if i <= m < j { assert ks[i] <= ks[m] <= ks[m + 1] <= ks[j]; }
      }
    } else if j < i {
      forall m | 0 <= m < |ks| - 1 ensures RemoveAt(ks, i)[m] == RemoveAt(ks, j)[m] {
        if j <= m < i { assert ks[j] <= ks[m] <= ks[m + 1] <= ks[i]; }
      }
    }
  }

  /** Keys below `lo` are smaller than `k`, keys from `hi` on are larger, so `k` occurs `hi - lo` times. */
  lemma {:induction false} CountBetween(ks: seq<int>, lo: nat, hi: nat, k: int)
    requires lo <= hi <= |ks|
    requires forall j :: 0 <= j < lo ==> ks[j] < k
    requires forall j :: lo <= j < hi ==> ks[j] == k
    requires forall j :: hi <= j < |ks| ==> k < ks[j]
    ensures multiset(ks)[k] == hi - lo
  {
    assert ks == ks[..lo] + ks[lo..hi] + ks[hi..];
    assert k !in ks[..lo];
    assert k !in ks[hi..];
    ConstantCount(ks[lo..hi], k);
  }

  lemma {:induction false} ConstantCount(s: seq<int>, k: int)
    requires forall j :: 0 <= j < |s| ==> s[j] == k
    ensures multiset(s)[k] == |s|
    decreases |s|
  {
    if s != [] {
      ConstantCount(s[1..], k);
      assert s == [s[0]] + s[1..];
    }
  }

  class Multiset {
    const tree: AVLTree<()>

    ghost predicate Valid()
      reads this, tree
    {
      tree.Valid()
    }

    /** The keys in iteration order, duplicates included. */
    function Contents(): seq<int>
      reads this, tree
    {
      Keys(Elements(tree.root))
    }

    predicate IsIter(it: Iterator)
      reads this, tree
    {
      IsIterator(tree.root, it)
    }

    /** Iterator::operator*: the key the iterator stands on. */
    function Get(it: Iterator): (k: int)
      requires it.At? && ValidPath(tree.root, it.path)
      reads this, tree
      ensures k == Contents()[Position(tree.root, it)]
    {
      Deref(tree.root, it).0
    }

    constructor()
      ensures Valid() && fresh(tree) && Contents() == []
    {
      tree := new AVLTree();
    }

    /** multiset(initializer_list): every element kept, in ascending order. */
    constructor FromSeq(items: seq<int>)
      ensures Valid() && fresh(tree)
      ensures NonDecreasing(Contents()) && multiset(Contents()) == multiset(items)
    {
      tree := new AVLTree();
      new;
      var results := InsertMany(items);
      KeysAscending(Elements(tree.root));
    }

    constructor Copy(s: Multiset)
      requires s.Valid()
      ensures Valid() && fresh(tree) && Contents() == s.Contents()
    {
      tree := new AVLTree.Copy(s.tree);
    }

    constructor Move(s: Multiset)
      requires s.Valid()
      modifies s.tree
      ensures Valid() && fresh(tree) && Contents() == old(s.Contents())
      ensures s.Valid() && s.Contents() == []
    {
      tree := new AVLTree.Move(s.tree);
    }

    /** operator=(multiset&&): take the other multiset's keys, leaving it empty; self-assignment changes nothing. */
    method MoveAssign(s: Multiset)
      requires Valid() && s.Valid()
      modifies tree, s.tree
      ensures Valid() && s.Valid()
      ensures s.tree != tree ==> Contents() == old(s.Contents()) && s.Contents() == []
      ensures s.tree == tree ==> Contents() == old(Contents())
    {
      tree.MoveAssign(s.tree);
    }

    function Begin(): (it: Iterator)
      reads this, tree
      ensures IsIter(it) && Position(tree.root, it) == 0
    {
      tree.Begin()
    }

    function End(): (it: Iterator)
      reads this, tree
      ensures IsIter(it) && Position(tree.root, it) == |Contents()|
    {
      tree.End()
    }

    function Empty(): (b: bool)
      reads this, tree
      ensures b <==> Contents() == []
    {
      tree.Empty()
    }

    function Size(): (n: nat)
      reads this, tree
      ensures n == |Contents()|
    {
      tree.Size()
    }

    method Clear()
      modifies tree
      ensures Valid() && Contents() == []
    {
      tree.Clear();
    }

    /** insert(value): always adds one copy, after the copies already present. */
    method Insert(value: int) returns (it: Iterator)
      requires Valid()
      modifies tree
      ensures Valid()
      ensures multiset(Contents()) == multiset(old(Contents())) + multiset{value}
      ensures it.At? && ValidPath(tree.root, it.path) && Get(it) == value
      ensures Position(tree.root, it) <= |old(Contents())|
      ensures Contents() == InsertAt(old(Contents()), Position(tree.root, it), value)
      ensures forall j :: 0 <= j < Position(tree.root, it) ==> Contents()[j] <= value
      ensures forall j :: Position(tree.root, it) < j < |Contents()| ==> value < Contents()[j]
    {
      ghost var s := Elements(tree.root);
      ghost var i := UpperIndex(tree.root, value);
      UpperIndexSplits(tree.root, value);
      var inserted;
      it, inserted := tree.Insert((value, ()), true);
      KeysInsertAt(s, i, (value, ()));
      MultisetInsertAt(Keys(s), i, value);
      assert Contents() == InsertAt(Keys(s), i, value);
      forall j | i < j < |Contents()| ensures value < Contents()[j] {
        assert Contents()[j] == s[j - 1].0;
      }
    }

    /**
     * erase(pos): `tree.erase(tree.find(*pos))` removes one copy of `*pos`; as a sequence that is
     * the element `pos` stands on, since equal keys sit together.
     */
    method Erase(pos: Iterator)
      requires Valid() && pos.At? && ValidPath(tree.root, pos.path)
      modifies tree
      ensures Valid()
      ensures Contents() == RemoveAt(old(Contents()), old(Position(tree.root, pos)))
      ensures multiset(Contents()) == multiset(old(Contents())) - multiset{old(Get(pos))}
    {
      var k := Get(pos);
      ghost var s := Elements(tree.root);
      ghost var p := Position(tree.root, pos);
      var it := tree.Find(k);
      tree.Erase(it);
      ghost var i :| 0 <= i < |s| && s[i].0 == k && Elements(tree.root) == RemoveAt(s, i);
      KeysRemoveAt(s, i);
      KeysAscending(s);
      SortedRemoveSame(Keys(s), i, p);
      MultisetRemoveAt(Keys(s), p);
    }

    method Swap(other: Multiset)
      requires Valid() && other.Valid()
      modifies tree, other.tree
      ensures Valid() && other.Valid()
      ensures Contents() == old(other.Contents()) && other.Contents() == old(Contents())
    {
      tree.Swap(other.tree);
    }

    /** merge(other): every element moves over, duplicates included; `other` ends empty. */
    method Merge(other: Multiset)
      requires Valid() && other.Valid() && other.tree != tree
      modifies tree, other.tree
      ensures Valid() && other.Valid()
      ensures multiset(Contents()) == multiset(old(Contents())) + multiset(old(other.Contents()))
      ensures other.Contents() == []
    {
      ghost var s, o := Elements(tree.root), Elements(other.tree.root);
      tree.Merge(other.tree, true);
      UnitMultisetSum(Elements(tree.root), s, o);
    }

    /** find(key): a node holding `key`, end() when there is none. */
    function Find(k: int): (it: Iterator)
      requires Valid()
      reads this, tree
      ensures IsIter(it)
      ensures it.End? <==> k !in Contents()
      ensures it.At? ==> Get(it) == k
    {
      KeysHasKey(Elements(tree.root), k);
      tree.Find(k)
    }

    function Contains(k: int): (b: bool)
      requires Valid()
      reads this, tree
      ensures b <==> k in Contents()
    {
      KeysHasKey(Elements(tree.root), k);
      tree.Contains(k)
    }

    /** lower_bound(key): the first element not less than `key`, end() if there is none. */
    function LowerBound(k: int): (it: Iterator)
      requires Valid()
      reads this, tree
      ensures IsIter(it)
      ensures forall j :: 0 <= j < Position(tree.root, it) ==> Contents()[j] < k
      ensures forall j :: Position(tree.root, it) <= j < |Contents()| ==> k <= Contents()[j]
    {
      LowerBoundPosition(tree.root, k);
      LowerIndexSplits(tree.root, k);
      ToIterator(LowerBoundPath(tree.root, k))
    }

    /** upper_bound(key): the first element greater than `key`, end() if there is none. */
    function UpperBound(k: int): (it: Iterator)
      requires Valid()
      reads this, tree
      ensures IsIter(it)
      ensures forall j :: 0 <= j < Position(tree.root, it) ==> Contents()[j] <= k
      ensures forall j :: Position(tree.root, it) <= j < |Contents()| ==> k < Contents()[j]
    {
      UpperBoundPosition(tree.root, k);
      UpperIndexSplits(tree.root, k);
      ToIterator(UpperBoundPath(tree.root, k))
    }

    /** equal_range(key): lower_bound and upper_bound; the elements between are exactly the copies of `key`. */
    function EqualRange(k: int): (r: (Iterator, Iterator))
      requires Valid()
      reads this, tree
      ensures IsIter(r.0) && IsIter(r.1)
      ensures Position(tree.root, r.0) <= Position(tree.root, r.1)
      ensures forall j :: Position(tree.root, r.0) <= j < Position(tree.root, r.1) ==> Contents()[j] == k
      ensures Position(tree.root, r.1) - Position(tree.root, r.0) == multiset(Contents())[k]
    {
      var lo, hi := LowerBound(k), UpperBound(k);
      var c := Contents();
      LowerBoundPosition(tree.root, k);
      UpperBoundPosition(tree.root, k);
      LowerBelowUpper(tree.root, k);
      CountBetween(c, Position(tree.root, lo), Position(tree.root, hi), k);
      (lo, hi)
    }

    /** count(key): walk from lower_bound with ++ while the key matches. */
    method Count(k: int) returns (n: nat)
      requires Valid()
      ensures n == multiset(Contents())[k]
    {
      var it := LowerBound(k);
      var hi := UpperBound(k);
      ghost var lo := Position(tree.root, it);
      ghost var up := Position(tree.root, hi);
      ghost var c := Contents();
      LowerBoundPosition(tree.root, k);
      UpperBoundPosition(tree.root, k);
      LowerBelowUpper(tree.root, k);
      n := 0;
      while it.At? && Get(it) == k
        invariant IsIter(it) && Position(tree.root, it) == lo + n <= up
        decreases |c| - Position(tree.root, it)
      {
        NextAdvances(tree.root, it);
        it := Next(tree.root, it);
        n := n + 1;
        assert c[lo + n - 1] == k;
      }
      CountBetween(c, lo, up, k);
    }

    /** insert(value) seen only through the multiset of elements it leaves. */
    method AddOne(value: int)
      requires Valid()
      modifies tree
      ensures Valid()
      ensures multiset(Contents()) == multiset(old(Contents())) + multiset{value}
    {
      var it := Insert(value);
    }

    /** Insert each item in turn. */
    method InsertAll(items: seq<int>)
      requires Valid()
      modifies tree
      ensures Valid()
      ensures multiset(Contents()) == multiset(old(Contents())) + multiset(items)
    {
      ghost var c0 := Contents();
      var i := 0;
      while i < |items|
        invariant 0 <= i <= |items|
        invariant Valid()
        invariant multiset(Contents()) == multiset(c0) + multiset(items[..i])
      {
        AddOne(items[i]);
        PrefixSnoc(items, i);
        i := i + 1;
      }
      assert items[..i] == items;
    }

    /**
     * insert_many(args...): insert applied to each argument in order; every result reports
     * true and stands on a copy of its argument.
     */
    method InsertMany(items: seq<int>) returns (results: seq<(Iterator, bool)>)
      requires Valid()
      modifies tree
      ensures Valid()
      ensures multiset(Contents()) == multiset(old(Contents())) + multiset(items)
      ensures |results| == |items|
      ensures forall j :: 0 <= j < |items| ==>
                results[j].1 && results[j].0.At? && ValidPath(tree.root, results[j].0.path) && Get(results[j].0) == items[j]
    {
      InsertAll(items);
      forall j | 0 <= j < |items| ensures items[j] in Contents() {
        assert items[j] in multiset(Contents());
      }
      results := seq(|items|, j requires 0 <= j < |items| && Valid() reads this, tree => (Find(items[j]), true));
    }
  }
}
