// set<Key>: a facade over AVLTree<Key, nullptr_t> in unique-key mode. Keys are `int`; the
// mapped `nullptr_t` becomes the unit type `()`.
module Sets {
  import opened Common
  import opened AvlNodes
  import opened AvlIterator
  import opened AvlTree

  /** With a unit payload an element is its key. */
  lemma {:induction false} UnitMembers(s: seq<(int, ())>)
    ensures forall k :: (k, ()) in s <==> k in Keys(s)
  {
    forall k ensures (k, ()) in s <==> k in Keys(s) {
      KeysHasKey(s, k);
      if HasKey(s, k) {
        var i :| 0 <= i < |s| && s[i].0 == k;
        var u: () := s[i].1;
        assert s[i] == (k, u);
        assert u == ();
      }
    }
  }

  /** Two increasing sequences with the same members are equal: a set's iteration order is fixed by its keys. */
  lemma {:induction false} IncreasingUnique(a: seq<int>, b: seq<int>)
    requires Increasing(a) && Increasing(b)
    requires forall k :: k in a <==> k in b
    ensures a == b
    decreases |a|
  {
    if a != [] { assert a[0] in a; assert a[0] in b; }
    if b != [] { assert b[0] in b; assert b[0] in a; }
    if a != [] && b != [] {
      assert a[0] == b[0] by {
        assert a[0] in a && b[0] in b;
      }
      forall k ensures k in a[1..] <==> k in b[1..] {
        if k in a[1..] {
          var j :| 1 <= j < |a| && a[j] == k;
          assert a[0] < k;
          assert k in b && k != b[0];
          var m :| 0 <= m < |b| && b[m] == k;
          assert b[1..][m - 1] == k;
        }
        if k in b[1..] {
          var j :| 1 <= j < |b| && b[j] == k;
          assert b[0] < k;
          assert k in a && k != a[0];
          var m :| 0 <= m < |a| && a[m] == k;
          assert a[1..][m - 1] == k;
        }
      }
      IncreasingUnique(a[1..], b[1..]);
      assert a == [a[0]] + a[1..] && b == [b[0]] + b[1..];
    }
  }

  class Set {
    const tree: AVLTree<()>

    /** The tree is a valid AVL tree whose keys are all distinct. */
    ghost predicate Valid()
      reads this, tree
    {
      tree.Valid() && StrictlyAscending(Elements(tree.root))
    }

    /** The keys in iteration order. */
    function Contents(): seq<int>
      reads this, tree
    {
      Keys(Elements(tree.root))
    }

    /** An iterator of this set: end() or a node of the tree. */
    predicate IsIter(it: Iterator)
      reads this, tree
    {
      IsIterator(tree.root, it)
    }

    /** Iterator::operator*: the key the iterator stands on. */
    function Get(it: Iterator): (k: int)
      requires it.At? && ValidPath(tree.root, it.path)
      reads this, tree
      ensures k == Contents()[Position(tree.root, it)]
    {
      Deref(tree.root, it).0
    }

    constructor()
      ensures Valid() && fresh(tree) && Contents() == []
    {
      tree := new AVLTree();
    }

    /** set(initializer_list): each key once, ascending. */
    constructor FromSeq(items: seq<int>)
      ensures Valid() && fresh(tree)
      ensures Increasing(Contents()) && forall k :: k in Contents() <==> k in items
    {
      tree := new AVLTree();
      new;
      var results := InsertMany(items);
      KeysIncreasing(Elements(tree.root));
    }

    /** set(const set&): an independent tree with the same keys. */
    constructor Copy(s: Set)
      requires s.Valid()
      ensures Valid() && fresh(tree) && Contents() == s.Contents()
    {
      tree := new AVLTree.Copy(s.tree);
    }

    /** set(set&&): take the other set's tree and leave it empty. */
    constructor Move(s: Set)
      requires s.Valid()
      modifies s.tree
      ensures Valid() && fresh(tree) && Contents() == old(s.Contents())
      ensures s.Valid() && s.Contents() == []
    {
      tree := new AVLTree.Move(s.tree);
    }

    /** operator=(set&&): take the other set's keys, leaving it empty; self-assignment changes nothing. */
    method MoveAssign(s: Set)
      requires Valid() && s.Valid()
      modifies tree, s.tree
      ensures Valid() && s.Valid()
      ensures s.tree != tree ==> Contents() == old(s.Contents()) && s.Contents() == []
      ensures s.tree == tree ==> Contents() == old(Contents())
    {
      tree.MoveAssign(s.tree);
    }

    function Begin(): (it: Iterator)
      reads this, tree
      ensures IsIter(it) && Position(tree.root, it) == 0
    {
      tree.Begin()
    }

    function End(): (it: Iterator)
      reads this, tree
      ensures IsIter(it) && Position(tree.root, it) == |Contents()|
    {
      tree.End()
    }

    function Empty(): (b: bool)
      reads this, tree
      ensures b <==> Contents() == []
    {
      tree.Empty()
    }

    function Size(): (n: nat)
      reads this, tree
      ensures n == |Contents()|
    {
      tree.Size()
    }

    method Clear()
      modifies tree
      ensures Valid() && Contents() == []
    {
      tree.Clear();
    }

    /**
     * insert(value): a new key is added, with the flag true; a present key leaves the set as it
     * was, with the flag false. Either way the iterator stands on `value`.
     */
    method Insert(value: int) returns (it: Iterator, inserted: bool)
      requires Valid()
      modifies tree
      ensures Valid()
      ensures inserted <==> value !in old(Contents())
      ensures forall k :: k in Contents() <==> k in old(Contents()) || k == value
      ensures |Contents()| == |old(Contents())| + (if inserted then 1 else 0)
      ensures it.At? && ValidPath(tree.root, it.path) && Get(it) == value
    {
      ghost var s := Elements(tree.root);
      ghost var i := LowerIndex(tree.root, value);
      KeysHasKey(s, value);
      it, inserted := tree.Insert((value, ()), false);
      if inserted {
        KeysInsertAt(s, i, (value, ()));
        InsertAtMembers(Keys(s), i, value);
      }
    }

    /** erase(pos): `tree.erase(tree.find(*pos))` removes the key `pos` stands on and nothing else. */
    method Erase(pos: Iterator)
      requires Valid() && pos.At? && ValidPath(tree.root, pos.path)
      modifies tree
      ensures Valid()
      ensures Contents() == RemoveAt(old(Contents()), old(Position(tree.root, pos)))
      ensures forall k :: k in Contents() <==> k in old(Contents()) && k != old(Get(pos))
    {
      var k := Get(pos);
      ghost var s := Elements(tree.root);
      ghost var i := Position(tree.root, pos);
      var it := tree.Find(k);
      StrictKeysDistinct(s, i, Position(tree.root, it));
      tree.Erase(it);
      KeysRemoveAt(s, i);
      KeysIncreasing(s);
      RemoveAtMembers(Keys(s), i);
    }

    /** swap(other): exchange the two sets' keys. */
    method Swap(other: Set)
      requires Valid() && other.Valid()
      modifies tree, other.tree
      ensures Valid() && other.Valid()
      ensures Contents() == old(other.Contents()) && other.Contents() == old(Contents())
    {
      tree.Swap(other.tree);
    }

    /** merge(other): keys new here move over; keys already here stay behind in `other`. */
    method Merge(other: Set)
      requires Valid() && other.Valid() && other.tree != tree
      modifies tree, other.tree
      ensures Valid() && other.Valid()
      ensures forall k :: k in Contents() <==> k in old(Contents()) || k in old(other.Contents())
      ensures forall k :: k in other.Contents() <==> k in old(other.Contents()) && k in old(Contents())
    {
      ghost var s, o := Elements(tree.root), Elements(other.tree.root);
      tree.Merge(other.tree, false);
      UnitMembers(s);
      UnitMembers(o);
      UnitMembers(Elements(tree.root));
      UnitMembers(Elements(other.tree.root));
      KeptFromMembers(o, s);
      forall k ensures HasKey(s, k) <==> k in Keys(s) { KeysHasKey(s, k); }
    }

    /** find(key): the node holding `key`, end() when it is absent. */
    function Find(k: int): (it: Iterator)
      requires Valid()
      reads this, tree
      ensures IsIter(it)
      ensures it.End? <==> k !in Contents()
      ensures it.At? ==> Get(it) == k
    {
      KeysHasKey(Elements(tree.root), k);
      tree.Find(k)
    }

    function Contains(k: int): (b: bool)
      requires Valid()
      reads this, tree
      ensures b <==> k in Contents()
    {
      KeysHasKey(Elements(tree.root), k);
      tree.Contains(k)
    }

    /**
     * insert_many(args...): the single insert applied to each argument in order; an argument is
     * reported new exactly when it is neither in the set nor among the earlier arguments, and
     * every reported iterator stands on its argument.
     */
    method InsertMany(items: seq<int>) returns (results: seq<(Iterator, bool)>)
      requires Valid()
      modifies tree
      ensures Valid()
      ensures forall k :: k in Contents() <==> k in old(Contents()) || k in items
      ensures |results| == |items|
      ensures forall j :: 0 <= j < |items| ==>
                (results[j].1 <==> items[j] !in old(Contents()) && items[j] !in items[..j])
      ensures forall j :: 0 <= j < |items| ==>
                results[j].0.At? && ValidPath(tree.root, results[j].0.path) && Get(results[j].0) == items[j]
    {
      ghost var c0 := Contents();
      var flags: seq<bool> := [];
      var i := 0;
      while i < |items|
        invariant 0 <= i <= |items| && |flags| == i
        invariant Valid()
        invariant forall k :: k in Contents() <==> k in c0 || k in items[..i]
        invariant ReportsNew(c0, items, flags)
      {
        ghost var before := Contents();
        var it, inserted := Insert(items[i]);
        InsertManyStep(c0, items, i, before, Contents(), inserted);
        ReportsNewStep(c0, items, flags, inserted);
        flags := flags + [inserted];
        i := i + 1;
      }
      assert items[..i] == items;
      // Paths go stale when later insertions rotate the tree; keys are unique, so each result
      // is re-read as the node now holding its key, which is the node that insert returned.
      results := seq(|items|, j requires 0 <= j < |items| && Valid() reads this, tree => (Find(items[j]), flags[j]));
    }
  }

  /** `flags[j]` says whether `items[j]` was new: absent from `c0` and from the earlier items. */
  ghost predicate ReportsNew(c0: seq<int>, items: seq<int>, flags: seq<bool>)
  {
    |flags| <= |items| &&
    forall j :: 0 <= j < |flags| ==> (flags[j] <==> items[j] !in c0 && items[j] !in items[..j])
  }

  lemma {:induction false} ReportsNewStep(c0: seq<int>, items: seq<int>, flags: seq<bool>, b: bool)
    requires ReportsNew(c0, items, flags) && |flags| < |items|
    requires b <==> items[|flags|] !in c0 && items[|flags|] !in items[..|flags|]
    ensures ReportsNew(c0, items, flags + [b])
  {
  }

  lemma {:induction false} InsertManyStep(c0: seq<int>, items: seq<int>, i: nat, before: seq<int>, after: seq<int>, inserted: bool)
    requires i < |items|
    requires forall k :: k in before <==> k in c0 || k in items[..i]
    requires inserted <==> items[i] !in before
    requires forall k :: k in after <==> k in before || k == items[i]
    ensures forall k :: k in after <==> k in c0 || k in items[..i + 1]
    ensures inserted <==> items[i] !in c0 && items[i] !in items[..i]
  {
    assert items[..i + 1] == items[..i] + [items[i]];
  }

  /** find(k) then ++ lands on the next larger key, or on end() after the largest. */
  lemma {:induction false} FindThenNext(s: Set, k: int)
    requires s.Valid() && k in s.Contents()
    ensures var it := s.Find(k); var nx := Next(s.tree.root, it);
            s.IsIter(nx) &&
            (nx.End? <==> forall m :: m in s.Contents() ==> m <= k) &&
            (nx.At? ==> k < s.Get(nx) && forall m :: m in s.Contents() && k < m ==> s.Get(nx) <= m)
  {
    var it := s.Find(k);
    var c := s.Contents();
    NextAdvances(s.tree.root, it);
    KeysIncreasing(Elements(s.tree.root));
    var p := Position(s.tree.root, it);
    var nx := Next(s.tree.root, it);
    assert c[p] == k;
    forall m | m in c && k < m ensures p + 1 < |c| && c[p + 1] <= m {
      var j :| 0 <= j < |c| && c[j] == m;
      assert p < j;
    }
    if p + 1 == |c| {
      forall m | m in c ensures m <= k {
        var j :| 0 <= j < |c| && c[j] == m;
        assert j <= p;
      }
    } else {
      assert c[p + 1] in c && k < c[p + 1];
    }
  }
}
