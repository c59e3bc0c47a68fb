// map<Key, Val>: a facade over AVLTree<Key, Val> in unique-key mode, with `int` keys and
// `int` mapped values (the value-initialised mapped value is 0).
module Maps {
  import opened Common
  import opened AvlNodes
  import opened AvlIterator
  import opened AvlTree

  /** `flags[j]` says whether the key of `items[j]` was new: absent from `c0` and from the earlier items. */
  ghost predicate ReportsNewKeys(c0: seq<(int, int)>, items: seq<(int, int)>, flags: seq<bool>)
  {
    |flags| <= |items| &&
    forall j :: 0 <= j < |flags| ==> (flags[j] <==> !HasKey(c0, items[j].0) && !HasKey(items[..j], items[j].0))
  }

  /** What `insert_many` has done after the first `i` items. */
  ghost predicate InsertManyState(c: seq<(int, int)>, c0: seq<(int, int)>, items: seq<(int, int)>, flags: seq<bool>)
  {
    |flags| <= |items| &&
    (forall e :: e in c0 ==> e in c) &&
    (forall e :: e in c ==> e in c0 || e in items[..|flags|]) &&
    (forall k :: HasKey(c, k) <==> HasKey(c0, k) || HasKey(items[..|flags|], k)) &&
    (forall j :: 0 <= j < |flags| && flags[j] ==> items[j] in c) &&
    ReportsNewKeys(c0, items, flags)
  }

  lemma {:induction false} InsertManyNext(c: seq<(int, int)>, c': seq<(int, int)>, c0: seq<(int, int)>, items: seq<(int, int)>,
                       flags: seq<bool>, inserted: bool)
    requires InsertManyState(c, c0, items, flags) && |flags| < |items|
    requires inserted <==> !HasKey(c, items[|flags|].0)
    requires inserted ==> forall e :: e in c' <==> e in c || e == items[|flags|]
    requires !inserted ==> c' == c
    ensures InsertManyState(c', c0, items, flags + [inserted])
  {
    var i, f := |flags|, flags + [inserted];
    var x := items[i];
    assert items[..i + 1] == items[..i] + [x];
    HasKeySnoc(items[..i], x);
    forall j | 0 <= j < |f|
      ensures f[j] <==> !HasKey(c0, items[j].0) && !HasKey(items[..j], items[j].0)
    {
      if j < i { assert f[j] == flags[j]; } else { assert f[j] == inserted; }
    }
    assert ReportsNewKeys(c0, items, f);
    if inserted {
      HasKeyMembers(c, c', x);
    }
    forall j | 0 <= j < |f| && f[j] ensures items[j] in c' {
      if j < i { assert f[j] == flags[j]; }
    }
  }

  /** Once every item has had its round, the state speaks of all of `items`, each of whose keys is now present. */
  lemma {:induction false} InsertManyDone(c: seq<(int, int)>, c0: seq<(int, int)>, items: seq<(int, int)>, flags: seq<bool>)
    requires InsertManyState(c, c0, items, flags) && |flags| == |items|
    ensures forall e :: e in c0 ==> e in c
    ensures forall e :: e in c ==> e in c0 || e in items
    ensures forall k :: HasKey(c, k) <==> HasKey(c0, k) || HasKey(items, k)
    ensures forall j :: 0 <= j < |items| ==> (flags[j] <==> !HasKey(c0, items[j].0) && !HasKey(items[..j], items[j].0))
    ensures forall j :: 0 <= j < |items| && flags[j] ==> items[j] in c
    ensures forall j :: 0 <= j < |items| ==> HasKey(c, items[j].0)
  {
    assert items[..|flags|] == items;
    forall j | 0 <= j < |items| ensures HasKey(c, items[j].0) {
      assert HasKey(items, items[j].0);
    }
  }

  lemma {:induction false} HasKeySnoc(s: seq<(int, int)>, x: (int, int))
    ensures forall k :: HasKey(s + [x], k) <==> HasKey(s, k) || k == x.0
  {
    forall k ensures HasKey(s + [x], k) <==> HasKey(s, k) || k == x.0 {
      if HasKey(s + [x], k) {
        var m :| 0 <= m < |s| + 1 && (s + [x])[m].0 == k;
        if m < |s| { assert s[m].0 == k; }
      }
      if HasKey(s, k) {
        var m :| 0 <= m < |s| && s[m].0 == k;
        assert (s + [x])[m].0 == k;
      }
      if k == x.0 { assert (s + [x])[|s|].0 == k; }
    }
  }

  lemma {:induction false} HasKeyMembers(c: seq<(int, int)>, c': seq<(int, int)>, x: (int, int))
    requires forall e :: e in c' <==> e in c || e == x
    ensures forall k :: HasKey(c', k) <==> HasKey(c, k) || k == x.0
  {
    forall k ensures HasKey(c', k) <==> HasKey(c, k) || k == x.0 {
      if HasKey(c', k) {
        var m :| 0 <= m < |c'| && c'[m].0 == k;
        assert c'[m] in c';
      }
      if HasKey(c, k) {
        var m :| 0 <= m < |c| && c[m].0 == k;
        assert c[m] in c;
        var m' :| 0 <= m' < |c'| && c'[m'] == c[m];
      }
      if k == x.0 {
        assert x in c';
        var m' :| 0 <= m' < |c'| && c'[m'] == x;
      }
    }
  }

  lemma {:induction false} MergeView(s: seq<(int, int)>, o: seq<(int, int)>, r: seq<(int, int)>, o': seq<(int, int)>)
    requires forall e :: e in r <==> e in s || (e in o && !HasKey(s, e.0))
    requires o' == KeptFrom(o, s)
    ensures forall e :: e in r <==> e in s || (e in o && !HasKey(s, e.0))
    ensures forall e :: e in o' <==> e in o && HasKey(s, e.0)
  {
    KeptFromMembers(o, s);
  }

  class Map {
    const tree: AVLTree<int>

    /** The tree is a valid AVL tree whose keys are all distinct. */
    ghost predicate Valid()
      reads this, tree
    {
      tree.Valid() && StrictlyAscending(Elements(tree.root))
    }

    /** The (key, value) pairs in iteration order. */
    function Contents(): seq<(int, int)>
      reads this, tree
    {
      Elements(tree.root)
    }

    constructor()
      ensures Valid() && fresh(tree) && Contents() == []
    {
      tree := new AVLTree();
    }

    /** map(initializer_list): the pairs inserted in order, so the first pair for a key wins. */
    constructor FromSeq(items: seq<(int, int)>)
      ensures Valid() && fresh(tree)
      ensures forall e :: e in Contents() ==> e in items
      ensures forall k :: HasKey(Contents(), k) <==> HasKey(items, k)
      ensures forall j :: 0 <= j < |items| && !HasKey(items[..j], items[j].0) ==> items[j] in Contents()
    {
      tree := new AVLTree();
      new;
      var results := InsertMany(items);
    }

    /** map(const map&): an independent tree with the same pairs. */
    constructor Copy(m: Map)
      requires m.Valid()
      ensures Valid() && fresh(tree) && Contents() == m.Contents()
    {
      tree := new AVLTree.Copy(m.tree);
    }

    /** map(map&&): take the other map's tree and leave it empty. */
    constructor Move(m: Map)
      requires m.Valid()
      modifies m.tree
      ensures Valid() && fresh(tree) && Contents() == old(m.Contents())
      ensures m.Valid() && m.Contents() == []
    {
      tree := new AVLTree.Move(m.tree);
    }

    /** operator=(map&&): take the other map's pairs, leaving it empty; self-assignment changes nothing. */
    method MoveAssign(m: Map)
      requires Valid() && m.Valid()
      modifies tree, m.tree
      ensures Valid() && m.Valid()
      ensures m.tree != tree ==> Contents() == old(m.Contents()) && m.Contents() == []
      ensures m.tree == tree ==> Contents() == old(Contents())
    {
      tree.MoveAssign(m.tree);
    }

    function Begin(): (it: Iterator)
      reads this, tree
      ensures IsIterator(tree.root, it) && Position(tree.root, it) == 0
    {
      tree.Begin()
    }

    function End(): (it: Iterator)
      reads this, tree
      ensures IsIterator(tree.root, it) && Position(tree.root, it) == |Contents()|
    {
      tree.End()
    }

    function Empty(): (b: bool)
      reads this, tree
      ensures b <==> Contents() == []
    {
      tree.Empty()
    }

    function Size(): (n: nat)
      reads this, tree
      ensures n == |Contents()|
    {
      tree.Size()
    }

    method Clear()
      modifies tree
      ensures Valid() && Contents() == []
    {
      tree.Clear();
    }

    /** at(key): the mapped value, or out_of_range when the key is absent. */
    function At(k: int): (r: Result<int>)
      requires Valid()
      reads this, tree
      ensures r.OutOfRange? <==> !HasKey(Contents(), k)
      ensures r.Ok? ==> (k, r.value) in Contents()
    {
      var it := tree.Find(k);
      if it.End? then OutOfRange else Ok(Deref(tree.root, it).1)
    }

    /**
     * operator[](key): the node for `key`, inserting (key, 0) first when the key is absent. The
     * returned iterator stands for the returned reference; Assign writes through it.
     */
    method Subscript(k: int) returns (it: Iterator)
      requires Valid()
      modifies tree
      ensures Valid()
      ensures it.At? && ValidPath(tree.root, it.path) && Deref(tree.root, it).0 == k
      ensures HasKey(old(Contents()), k) ==> Contents() == old(Contents())
      ensures !HasKey(old(Contents()), k) ==> Deref(tree.root, it) == (k, 0) && |Contents()| == |old(Contents())| + 1
      ensures !HasKey(old(Contents()), k) ==> forall e :: e in Contents() <==> e in old(Contents()) || e == (k, 0)
    {
      ghost var s := Elements(tree.root);
      ghost var i := LowerIndex(tree.root, k);
      var inserted;
      it, inserted := tree.Insert((k, 0), false);
      if inserted {
        InsertAtMembers(s, i, (k, 0));
      }
    }

    /** Writing `v` through the reference operator[] returned: that pair's value becomes `v`. */
    method Assign(it: Iterator, v: int)
      requires Valid() && it.At? && ValidPath(tree.root, it.path)
      modifies tree
      ensures Valid()
      ensures Contents() == old(Contents())[old(Position(tree.root, it)) := (old(Deref(tree.root, it)).0, v)]
      ensures forall e :: e in Contents() <==>
                (e == (old(Deref(tree.root, it)).0, v) || (e in old(Contents()) && e.0 != old(Deref(tree.root, it)).0))
    {
      ghost var s := Elements(tree.root);
      ghost var p := Position(tree.root, it);
      tree.SetValue(it, v);
      StrictUpdateMembers(s, p, v);
      KeysIncreasing(s);
      assert Keys(Contents()) == Keys(s);
      KeysIncreasing(Contents());
    }

    /**
     * insert(value) and insert(key, obj): a new key is added with the flag true; a present key
     * keeps its old value and the flag is false. The iterator stands on the key's node.
     */
    method Insert(k: int, v: int) returns (it: Iterator, inserted: bool)
      requires Valid()
      modifies tree
      ensures Valid()
      ensures inserted <==> !HasKey(old(Contents()), k)
      ensures !inserted ==> Contents() == old(Contents())
      ensures inserted ==> |Contents()| == |old(Contents())| + 1
      ensures inserted ==> forall e :: e in Contents() <==> e in old(Contents()) || e == (k, v)
      ensures it.At? && ValidPath(tree.root, it.path) && Deref(tree.root, it).0 == k
      ensures inserted ==> Deref(tree.root, it) == (k, v)
    {
      ghost var s := Elements(tree.root);
      ghost var i := LowerIndex(tree.root, k);
      it, inserted := tree.Insert((k, v), false);
      if inserted {
        InsertAtMembers(s, i, (k, v));
      }
    }

    /** insert_or_assign(key, obj): afterwards `key` maps to `obj`; the other pairs stay. */
    method InsertOrAssign(k: int, v: int) returns (it: Iterator, inserted: bool)
      requires Valid()
      modifies tree
      ensures Valid()
      ensures inserted <==> !HasKey(old(Contents()), k)
      ensures (k, v) in Contents()
      ensures forall e: (int, int) :: e.0 != k ==> (e in Contents() <==> e in old(Contents()))
      ensures |Contents()| == |old(Contents())| + (if inserted then 1 else 0)
      ensures it.At? && ValidPath(tree.root, it.path) && Deref(tree.root, it) == (k, v)
    {
      var found := tree.Find(k);
      if found.End? {
        it, inserted := Insert(k, v);
      } else {
        ghost var p := Position(tree.root, found);
        Assign(found, v);
        inserted := false;
        it := tree.Find(k);
        assert Contents()[p] == (k, v);
        StrictKeysDistinct(Contents(), p, Position(tree.root, it));
      }
    }

    /** erase(pos): the pair `pos` stands on goes; every other pair stays. */
    method Erase(pos: Iterator)
      requires Valid() && pos.At? && ValidPath(tree.root, pos.path)
      modifies tree
      ensures Valid()
      ensures Contents() == RemoveAt(old(Contents()), old(Position(tree.root, pos)))
      ensures forall e :: e in Contents() <==> e in old(Contents()) && e.0 != old(Deref(tree.root, pos)).0
    {
      ghost var s := Elements(tree.root);
      ghost var p := Position(tree.root, pos);
      tree.Erase(pos);
      StrictRemoveAtMembers(s, p);
    }

    /** swap(other): exchange the two maps' pairs. */
    method Swap(other: Map)
      requires Valid() && other.Valid()
      modifies tree, other.tree
      ensures Valid() && other.Valid()
      ensures Contents() == old(other.Contents()) && other.Contents() == old(Contents())
    {
      tree.Swap(other.tree);
    }

    /** merge(other): pairs with keys new here move over; the others stay behind in `other`. */
    method Merge(other: Map)
      requires Valid() && other.Valid() && other.tree != tree
      modifies tree, other.tree
      ensures Valid() && other.Valid()
      ensures forall e :: e in Contents() <==>
                e in old(Contents()) || (e in old(other.Contents()) && !HasKey(old(Contents()), e.0))
      ensures forall e :: e in other.Contents() <==> e in old(other.Contents()) && HasKey(old(Contents()), e.0)
    {
      ghost var s, o := Elements(tree.root), Elements(other.tree.root);
      tree.Merge(other.tree, false);
      MergeView(s, o, Contents(), other.Contents());
    }

    function Contains(k: int): (b: bool)
      requires Valid()
      reads this, tree
      ensures b <==> HasKey(Contents(), k)
    {
      tree.Contains(k)
    }

    /** find(key): the node holding `key`, end() when it is absent. */
    function Find(k: int): (it: Iterator)
      requires Valid()
      reads this, tree
      ensures IsIterator(tree.root, it)
      ensures it.End? <==> !HasKey(Contents(), k)
      ensures it.At? ==> Deref(tree.root, it).0 == k
    {
      tree.Find(k)
    }

    /** One round of insert_many: insert the next pair and record whether it went in. */
    method InsertNextItem(items: seq<(int, int)>, ghost c0: seq<(int, int)>, flags: seq<bool>) returns (inserted: bool)
      requires Valid() && InsertManyState(Contents(), c0, items, flags) && |flags| < |items|
      modifies tree
      ensures Valid() && InsertManyState(Contents(), c0, items, flags + [inserted])
    {
      ghost var before := Contents();
      var it;
      it, inserted := Insert(items[|flags|].0, items[|flags|].1);
      InsertManyNext(before, Contents(), c0, items, flags, inserted);
    }

    /**
     * insert_many(args...): insert(value) applied to each pair in order. A pair is reported new
     * exactly when its key is neither in the map nor among the earlier pairs; a reported pair is
     * stored as given; pairs already present keep their values.
     */
    method InsertMany(items: seq<(int, int)>) returns (results: seq<(Iterator, bool)>)
      requires Valid()
      modifies tree
      ensures Valid()
      ensures forall e :: e in old(Contents()) ==> e in Contents()
      ensures forall e :: e in Contents() ==> e in old(Contents()) || e in items
      ensures forall k :: HasKey(Contents(), k) <==> HasKey(old(Contents()), k) || HasKey(items, k)
      ensures |results| == |items|
      ensures forall j :: 0 <= j < |items| ==>
                (results[j].1 <==> !HasKey(old(Contents()), items[j].0) && !HasKey(items[..j], items[j].0))
      ensures forall j :: 0 <= j < |items| && results[j].1 ==> items[j] in Contents()
      ensures forall j :: 0 <= j < |items| ==>
                results[j].0.At? && ValidPath(tree.root, results[j].0.path) && Deref(tree.root, results[j].0).0 == items[j].0
    {
      ghost var c0 := Contents();
      var flags: seq<bool> := [];
      var i := 0;
      assert items[..0] == [];
      while i < |items|
        invariant 0 <= i <= |items| && |flags| == i
        invariant Valid()
        invariant InsertManyState(Contents(), c0, items, flags)
      {
        var inserted := InsertNextItem(items, c0, flags);
        flags := flags + [inserted];
        i := i + 1;
      }
      InsertManyDone(Contents(), c0, items, flags);
      // Paths go stale when later insertions rotate the tree; keys are unique, so each result
      // is re-read as the node now holding its key, which is the node that insert returned.
      results := seq(|items|, j requires 0 <= j < |items| && Valid() reads this, tree => (Find(items[j].0), flags[j]));
    }
  }
}
