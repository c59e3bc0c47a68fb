// The AVLTree class: the root pointer and the public operations that set, map and
// multiset forward to. The tree helpers are values (module AvlBalance); every public
// modifier replaces `root` with the subtree a helper returns.
module AvlTree {
  import opened Common
  import opened AvlNodes
  import opened AvlBalance
  import opened AvlIterator

  /** The elements of `s` whose key also occurs in `base`, in order. */
  ghost function KeptFrom<V>(s: seq<(int, V)>, base: seq<(int, V)>): seq<(int, V)>
    decreases |s|
  {
    if s == [] then []
    else KeptFrom(s[..|s| - 1], base) + (if HasKey(base, s[|s| - 1].0) then [s[|s| - 1]] else [])
  }

  lemma {:induction false} KeptFromStep<V>(s: seq<(int, V)>, base: seq<(int, V)>, i: nat)
    requires i < |s|
    ensures KeptFrom(s[..i + 1], base) ==
              KeptFrom(s[..i], base) + (if HasKey(base, s[i].0) then [s[i]] else [])
  {
    assert s[..i + 1][..i] == s[..i];
  }

  lemma {:induction false} KeptFromMembers<V>(s: seq<(int, V)>, base: seq<(int, V)>)
    ensures forall e :: e in KeptFrom(s, base) <==> e in s && HasKey(base, e.0)
    decreases |s|
  {
    if s != [] {
      KeptFromMembers(s[..|s| - 1], base);
      assert s == s[..|s| - 1] + [s[|s| - 1]];
    }
  }

  class AVLTree<V(!new)> {
    var root: Tree<V>

    /** Heights cached correctly, balanced, keys in order (non-decreasing: multi-key trees allowed). */
    ghost predicate Valid()
      reads this
    {
      Avl(root) && Ascending(Elements(root))
    }

    /** AVLTree(): the empty tree. */
    constructor()
      ensures Valid() && root == Leaf
    {
      root := Leaf;
    }

    /** AVLTree(const AVLTree&): a clone of the other tree's nodes. */
    constructor Copy(other: AVLTree<V>)
      requires other.Valid()
      ensures Valid() && root == other.root
    {
      root := Clone(other.root);
    }

    /** AVLTree(AVLTree&&): take over the other tree's nodes and leave it empty. */
    constructor Move(other: AVLTree<V>)
      modifies other
      ensures root == old(other.root) && other.root == Leaf
    {
      root := other.root;
      new;
      other.root := Leaf;
    }

    /** operator=(const AVLTree&): become a clone of the other tree. */
    method CopyAssign(other: AVLTree<V>)
      modifies this
      ensures root == old(other.root)
    {
      root := Clone(other.root);
    }

    /** operator=(AVLTree&): take over the other tree's nodes, leaving it empty. */
    method MoveAssign(other: AVLTree<V>)
      modifies this, other
      ensures other != this ==> root == old(other.root) && other.root == Leaf
      ensures other == this ==> root == old(root)
    {
      if other != this {
        root := other.root;
        other.root := Leaf;
      }
    }

    /** begin(): the first element in order, end() when empty. */
    function Begin(): (it: Iterator)
      reads this
      ensures IsIterator(root, it) && Position(root, it) == 0
    {
      AvlIterator.Begin(root)
    }

    /** end(): one past the last element. */
    function End(): (it: Iterator)
      reads this
      ensures IsIterator(root, it) && Position(root, it) == |Elements(root)|
    {
      Iterator.End
    }

    function Empty(): (b: bool)
      reads this
      ensures b <==> Elements(root) == []
    {
      root.Leaf?
    }

    /** size(): the node count, that is the number of elements iteration visits. */
    function Size(): (n: nat)
      reads this
      ensures n == |Elements(root)|
    {
      AvlNodes.Size(root)
    }

    /** find(key): a node holding the key, end() when there is none. */
    function Find(k: int): (it: Iterator)
      requires Valid()
      reads this
      ensures IsIterator(root, it)
      ensures it.End? <==> !HasKey(Elements(root), k)
      ensures it.At? ==> Deref(root, it).0 == k
    {
      FindPathComplete(root, k);
      AvlIterator.Find(root, k)
    }

    /** contains(key). */
    function Contains(k: int): (b: bool)
      requires Valid()
      reads this
      ensures b <==> HasKey(Elements(root), k)
    {
      FindPathComplete(root, k);
      FindPath(root, k).Some?
    }

    method Clear()
      modifies this
      ensures Valid() && root == Leaf
    {
      root := Leaf;
    }

    /**
     * insert(data, multi): in unique mode an existing key leaves the tree unchanged and the
     * iterator names the existing node; otherwise the pair lands before the first greater key
     * (unique mode) or after the last equal key (multi mode), and the iterator names it.
     */
    method Insert(data: (int, V), multi: bool) returns (it: Iterator, inserted: bool)
      requires Valid()
      modifies this
      ensures Valid()
      ensures inserted <==> multi || !HasKey(old(Elements(root)), data.0)
      ensures !inserted ==> root == old(root)
      ensures inserted ==> Elements(root) == InsertAt(old(Elements(root)), InsertIndex(old(root), data.0, multi), data)
      ensures !multi && StrictlyAscending(old(Elements(root))) ==> StrictlyAscending(Elements(root))
      ensures IsIterator(root, it) && it.At? && Deref(root, it).0 == data.0
      ensures inserted ==> Position(root, it) == InsertIndex(old(root), data.0, multi) && Deref(root, it) == data
    {
      var k, v := data.0, data.1;
      if multi {
        var i := UpperIndex(root, k);
        MulInsertAvl(root, k, v);
        MulInsertElements(root, k, v);
        MulInsertKeepsAscending(root, k, v);
        root := MulInsert(root, k, v);
        it := IteratorAt(root, i);
        inserted := true;
      } else if FindPath(root, k).Some? {
        FindPathComplete(root, k);
        it := AvlIterator.Find(root, k);
        inserted := false;
      } else {
        FindPathComplete(root, k);
        var i := LowerIndex(root, k);
        InsertAvl(root, k, v);
        InsertElements(root, k, v);
        InsertKeepsAscending(root, k, v);
        if StrictlyAscending(Elements(root)) { InsertKeepsStrict(root, k, v); }
        root := AvlBalance.Insert(root, k, v);
        it := IteratorAt(root, i);
        inserted := true;
      }
    }

    /**
     * erase(pos): erase by the key `pos` names. One element with that key goes; in a
     * unique-key tree it is exactly the element at `pos`.
     */
    method Erase(pos: Iterator)
      requires Valid() && pos.At? && ValidPath(root, pos.path)
      modifies this
      ensures Valid()
      ensures exists i :: 0 <= i < |old(Elements(root))| && old(Elements(root))[i].0 == old(Deref(root, pos)).0 &&
                Elements(root) == RemoveAt(old(Elements(root)), i)
      ensures StrictlyAscending(old(Elements(root))) ==>
                StrictlyAscending(Elements(root)) &&
                Elements(root) == RemoveAt(old(Elements(root)), old(Position(root, pos)))
    {
      var k := Deref(root, pos).0;
      ghost var s := Elements(root);
      FindPathComplete(root, k);
      var p := FindPath(root, k).value;
      ElementAt(root, p);
      EraseElements(root, k);
      EraseAvl(root, k);
      EraseKeepsOrder(root, k);
      ghost var j := Index(root, p);
      if StrictlyAscending(s) {
        StrictKeysDistinct(s, j, Position(root, pos));
      }
      root := EraseKey(root, k);
    }

    /** `(*it).second = v`: the value of the named node changes; keys and shape stay. */
    method SetValue(it: Iterator, v: V)
      requires Valid() && it.At? && ValidPath(root, it.path)
      modifies this
      ensures Valid()
      ensures Elements(root) == old(Elements(root))[old(Position(root, it)) := (old(Deref(root, it)).0, v)]
    {
      UpdateAtSpec(root, it.path, v);
      ElementAt(root, it.path);
      ghost var s := Elements(root);
      ghost var s' := s[Index(root, it.path) := (Subtree(root, it.path).key, v)];
      assert Ascending(s') by {
        forall a, b | 0 <= a < b < |s'| ensures s'[a].0 <= s'[b].0 { assert s'[a].0 == s[a].0 && s'[b].0 == s[b].0; }
      }
      root := UpdateAt(root, it.path, v);
    }

    /** swap(other): exchange the two roots. */
    method Swap(other: AVLTree<V>)
      modifies this, other
      ensures root == old(other.root) && other.root == old(root)
    {
      var tmp := root;
      root := other.root;
      other.root := tmp;
    }

    /**
     * merge(other, multi): insert every element of `other` here. In multi mode all of them
     * move and `other` ends empty; in unique mode an element whose key is already here
     * stays in `other`.
     */
    method Merge(other: AVLTree<V>, multi: bool)
      requires Valid() && other.Valid() && other != this
      requires !multi ==> StrictlyAscending(Elements(root)) && StrictlyAscending(Elements(other.root))
      modifies this, other
      ensures Valid() && other.Valid()
      ensures multi ==> multiset(Elements(root)) == old(multiset(Elements(root)) + multiset(Elements(other.root)))
      ensures multi ==> other.root == Leaf
      ensures !multi ==> StrictlyAscending(Elements(root)) && StrictlyAscending(Elements(other.root))
      ensures !multi ==> forall e :: e in Elements(root) <==>
                e in old(Elements(root)) || (e in old(Elements(other.root)) && !HasKey(old(Elements(root)), e.0))
      ensures !multi ==> Elements(other.root) == KeptFrom(old(Elements(other.root)), old(Elements(root)))
    {
      if multi {
        MergeAll(other);
      } else {
        MergeUnique(other);
      }
    }

    /** Multi-mode merge: every element of `other` moves here. */
    method MergeAll(other: AVLTree<V>)
      requires Valid() && other.Valid() && other != this
      modifies this, other
      ensures Valid() && other.Valid()
      ensures multiset(Elements(root)) == old(multiset(Elements(root)) + multiset(Elements(other.root)))
      ensures other.root == Leaf
    {
      var s := Elements(other.root);
      ghost var s0 := Elements(root);
      var i := 0;
      while i < |s|
        invariant 0 <= i <= |s|
        invariant Valid() && other.Valid()
        invariant multiset(Elements(root)) == multiset(s0) + multiset(s[..i])
        invariant multiset(Keys(Elements(other.root))) == multiset(Keys(s[i..]))
      {
        OfferAll(other, s, s0, i);
        i := i + 1;
      }
      assert s[..|s|] == s;
    }

    /** Unique-mode merge: elements whose key is new here move; the rest stay in `other`. */
    method MergeUnique(other: AVLTree<V>)
      requires Valid() && other.Valid() && other != this
      requires StrictlyAscending(Elements(root)) && StrictlyAscending(Elements(other.root))
      modifies this, other
      ensures Valid() && other.Valid()
      ensures StrictlyAscending(Elements(root)) && StrictlyAscending(Elements(other.root))
      ensures forall e :: e in Elements(root) <==>
                e in old(Elements(root)) || (e in old(Elements(other.root)) && !HasKey(old(Elements(root)), e.0))
      ensures Elements(other.root) == KeptFrom(old(Elements(other.root)), old(Elements(root)))
    {
      var s := Elements(other.root);
      ghost var s0 := Elements(root);
      OfferEachUnique(other, s, s0);
      UniqueMergeDone(Elements(root), Elements(other.root), s, s0);
    }

    /** The unique-mode merge loop: offer every element of `s`, the snapshot of `other`, in order. */
    method OfferEachUnique(other: AVLTree<V>, s: seq<(int, V)>, ghost s0: seq<(int, V)>)
      requires Valid() && other.Valid() && other != this
      requires StrictlyAscending(Elements(root)) && StrictlyAscending(Elements(other.root))
      requires s == Elements(other.root) && s0 == Elements(root)
      modifies this, other
      ensures Valid() && other.Valid()
      ensures StrictlyAscending(Elements(root)) && StrictlyAscending(Elements(other.root))
      ensures UniqueMergeInv(Elements(root), Elements(other.root), s, s0, |s|)
    {
      var i := 0;
      assert s[..0] == [];
      while i < |s|
        invariant 0 <= i <= |s|
        invariant Valid() && other.Valid()
        invariant StrictlyAscending(s)
        invariant StrictlyAscending(Elements(root)) && StrictlyAscending(Elements(other.root))
        invariant UniqueMergeInv(Elements(root), Elements(other.root), s, s0, i)
      {
        OfferUnique(other, s, s0, i);
        i := i + 1;
      }
    }

    /** One multi-mode merge step: insert `s[i]` here and erase one element with its key from `other`. */
    method OfferAll(other: AVLTree<V>, s: seq<(int, V)>, ghost s0: seq<(int, V)>, i: nat)
      requires Valid() && other.Valid() && other != this && i < |s|
      requires multiset(Elements(root)) == multiset(s0) + multiset(s[..i])
      requires multiset(Keys(Elements(other.root))) == multiset(Keys(s[i..]))
      modifies this, other
      ensures Valid() && other.Valid()
      ensures multiset(Elements(root)) == multiset(s0) + multiset(s[..i + 1])
      ensures multiset(Keys(Elements(other.root))) == multiset(Keys(s[i + 1..]))
    {
      var e := s[i];
      ghost var r0, o0 := Elements(root), Elements(other.root);
      ghost var at := UpperIndex(root, e.0);
      var it, inserted := Insert(e, true);
      MergeMultiInserted(r0, Elements(root), s, s0, i, at);
      MergeMultiStep(s, i, o0);
      var pos := other.Find(e.0);
      other.Erase(pos);
      MergeMultiErased(s, i, o0, Elements(other.root));
    }

    /** One unique-mode merge step: offer `s[i]` here and, when it is taken, erase it from `other`. */
    method OfferUnique(other: AVLTree<V>, s: seq<(int, V)>, ghost s0: seq<(int, V)>, i: nat)
      requires Valid() && other.Valid() && other != this
      requires i < |s| && StrictlyAscending(s)
      requires StrictlyAscending(Elements(root)) && StrictlyAscending(Elements(other.root))
      requires UniqueMergeInv(Elements(root), Elements(other.root), s, s0, i)
      modifies this, other
      ensures Valid() && other.Valid()
      ensures StrictlyAscending(Elements(root)) && StrictlyAscending(Elements(other.root))
      ensures UniqueMergeInv(Elements(root), Elements(other.root), s, s0, i + 1)
    {
      var e := s[i];
      ghost var r0, o0 := Elements(root), Elements(other.root);
      ghost var at := LowerIndex(root, e.0);
      ghost var q := 0;
      MergeUniqueHasKey(r0, o0, s, s0, i);
      var it, inserted := Insert(e, false);
      if inserted {
        var pos := other.Find(e.0);
        q := Position(other.root, pos);
        other.Erase(pos);
      }
      MergeUniqueNext(r0, Elements(root), o0, Elements(other.root), s, s0, i, inserted, at, q);
    }
  }

  /** Where insert places a new pair: before equal keys in unique mode, after them in multi mode. */
  function InsertIndex<V>(t: Tree<V>, k: int, multi: bool): nat
  {
    if multi then UpperIndex(t, k) else LowerIndex(t, k)
  }

  lemma {:induction false} MergeMultiInserted<V>(r: seq<(int, V)>, r': seq<(int, V)>, s: seq<(int, V)>, s0: seq<(int, V)>, i: nat, at: nat)
    requires i < |s| && at <= |r| && r' == InsertAt(r, at, s[i])
    requires multiset(r) == multiset(s0) + multiset(s[..i])
    ensures multiset(r') == multiset(s0) + multiset(s[..i + 1])
  {
    MultisetInsertAt(r, at, s[i]);
    assert s[..i + 1] == s[..i] + [s[i]];
  }

  lemma {:induction false} MergeMultiStep<V>(s: seq<(int, V)>, i: nat, o: seq<(int, V)>)
    requires i < |s| && multiset(Keys(o)) == multiset(Keys(s[i..]))
    ensures HasKey(o, s[i].0)
  {
    assert Keys(s[i..])[0] == s[i].0;
    assert s[i].0 in multiset(Keys(o));
    var j :| 0 <= j < |Keys(o)| && Keys(o)[j] == s[i].0;
  }

  lemma {:induction false} MergeMultiErased<V>(s: seq<(int, V)>, i: nat, o: seq<(int, V)>, o': seq<(int, V)>)
    requires i < |s| && multiset(Keys(o)) == multiset(Keys(s[i..]))
    requires exists j :: 0 <= j < |o| && o[j].0 == s[i].0 && o' == RemoveAt(o, j)
    ensures multiset(Keys(o')) == multiset(Keys(s[i + 1..]))
  {
    var j :| 0 <= j < |o| && o[j].0 == s[i].0 && o' == RemoveAt(o, j);
    KeysRemoveAt(o, j);
    MultisetRemoveAt(Keys(o), j);
    assert Keys(s[i..]) == [s[i].0] + Keys(s[i + 1..]);
  }

  /** The state of a unique-mode merge after the first `i` elements of `s` were offered. */
  ghost predicate UniqueMergeInv<V(!new)>(r: seq<(int, V)>, o: seq<(int, V)>, s: seq<(int, V)>, s0: seq<(int, V)>, i: nat)
  {
    i <= |s| &&
    (forall e :: e in r <==> e in s0 || (e in s[..i] && !HasKey(s0, e.0))) &&
    (forall k :: HasKey(r, k) <==> HasKey(s0, k) || HasKey(s[..i], k)) &&
    o == KeptFrom(s[..i], s0) + s[i..]
  }

  /** Once every element was offered, the merge state speaks of all of `s`. */
  lemma {:induction false} UniqueMergeDone<V(!new)>(r: seq<(int, V)>, o: seq<(int, V)>, s: seq<(int, V)>, s0: seq<(int, V)>)
    requires UniqueMergeInv(r, o, s, s0, |s|)
    ensures forall e :: e in r <==> e in s0 || (e in s && !HasKey(s0, e.0))
    ensures o == KeptFrom(s, s0)
  {
    assert s[..|s|] == s;
    assert o == KeptFrom(s, s0) + [];
  }

  lemma {:induction false} MergeUniqueHasKey<V(!new)>(r: seq<(int, V)>, o: seq<(int, V)>, s: seq<(int, V)>, s0: seq<(int, V)>, i: nat)
    requires UniqueMergeInv(r, o, s, s0, i) && i < |s| && StrictlyAscending(s)
    ensures HasKey(o, s[i].0)
    ensures HasKey(r, s[i].0) <==> HasKey(s0, s[i].0)
  {
    assert o[|KeptFrom(s[..i], s0)|] == s[i];
    MergeUniqueStep(s, s0, i, r);
  }

  /** One unique-mode merge step keeps the merge state. */
  lemma {:induction false} MergeUniqueNext<V(!new)>(r: seq<(int, V)>, r': seq<(int, V)>, o: seq<(int, V)>, o': seq<(int, V)>,
                           s: seq<(int, V)>, s0: seq<(int, V)>, i: nat, inserted: bool, at: nat, q: nat)
    requires UniqueMergeInv(r, o, s, s0, i) && i < |s| && StrictlyAscending(s) && StrictlyAscending(o)
    requires inserted <==> !HasKey(r, s[i].0)
    requires inserted ==> at <= |r| && r' == InsertAt(r, at, s[i])
    requires inserted ==> q < |o| && o[q].0 == s[i].0 && o' == RemoveAt(o, q)
    requires !inserted ==> r' == r && o' == o
    ensures UniqueMergeInv(r', o', s, s0, i + 1)
  {
    MergeUniqueStep(s, s0, i, r);
    MergeUniqueMembers(s, s0, i, r, r', inserted, at);
    MergeUniqueOther(o, o', s, s0, i, inserted, q);
    MergeUniqueInvIntro(r', o', s, s0, i + 1);
  }

  lemma {:induction false} MergeUniqueInvIntro<V(!new)>(r: seq<(int, V)>, o: seq<(int, V)>, s: seq<(int, V)>, s0: seq<(int, V)>, i: nat)
    requires i <= |s|
    requires forall e :: e in r <==> e in s0 || (e in s[..i] && !HasKey(s0, e.0))
    requires forall k :: HasKey(r, k) <==> HasKey(s0, k) || HasKey(s[..i], k)
    requires o == KeptFrom(s[..i], s0) + s[i..]
    ensures UniqueMergeInv(r, o, s, s0, i)
  {
  }

  lemma {:induction false} MergeUniqueOther<V>(o: seq<(int, V)>, o': seq<(int, V)>, s: seq<(int, V)>, s0: seq<(int, V)>, i: nat, inserted: bool, q: nat)
    requires i < |s| && StrictlyAscending(o) && o == KeptFrom(s[..i], s0) + s[i..]
    requires inserted <==> !HasKey(s0, s[i].0)
    requires inserted ==> q < |o| && o[q].0 == s[i].0 && o' == RemoveAt(o, q)
    requires !inserted ==> o' == o
    ensures o' == KeptFrom(s[..i + 1], s0) + s[i + 1..]
  {
    KeptFromStep(s, s0, i);
    if inserted {
      MergeUniqueErase(s, s0, i, o, q);
    } else {
      assert s[i..] == [s[i]] + s[i + 1..];
      ConcatAssoc(KeptFrom(s[..i], s0), [s[i]], s[i + 1..]);
    }
  }

  lemma {:induction false} MergeUniqueStep<V>(s: seq<(int, V)>, s0: seq<(int, V)>, i: nat, r: seq<(int, V)>)
    requires i < |s| && StrictlyAscending(s)
    requires forall k :: HasKey(r, k) <==> HasKey(s0, k) || HasKey(s[..i], k)
    ensures HasKey(r, s[i].0) <==> HasKey(s0, s[i].0)
  {
  }

  /** The membership facts of one unique-mode merge step. */
  lemma {:induction false} MergeUniqueMembers<V>(s: seq<(int, V)>, s0: seq<(int, V)>, i: nat, r: seq<(int, V)>, r': seq<(int, V)>, inserted: bool, j: nat)
    requires i < |s| && StrictlyAscending(s)
    requires forall e :: e in r <==> e in s0 || (e in s[..i] && !HasKey(s0, e.0))
    requires forall k :: HasKey(r, k) <==> HasKey(s0, k) || HasKey(s[..i], k)
    requires inserted <==> !HasKey(s0, s[i].0)
    requires inserted ==> j <= |r| && r' == InsertAt(r, j, s[i])
    requires !inserted ==> r' == r
    ensures forall e :: e in r' <==> e in s0 || (e in s[..i + 1] && !HasKey(s0, e.0))
    ensures forall k :: HasKey(r', k) <==> HasKey(s0, k) || HasKey(s[..i + 1], k)
  {
    assert s[..i + 1] == s[..i] + [s[i]];
    if inserted {
      assert forall e :: e in r' <==> e in r || e == s[i];
      forall k ensures HasKey(r', k) <==> HasKey(r, k) || k == s[i].0 {
        if HasKey(r', k) {
          var m :| 0 <= m < |r'| && r'[m].0 == k;
          assert r'[m] in r';
        }
        if k == s[i].0 { assert r'[j] == s[i]; }
        if HasKey(r, k) {
          var m :| 0 <= m < |r| && r[m].0 == k;
          assert r[m] in r';
          var m' :| 0 <= m' < |r'| && r'[m'] == r[m];
        }
      }
      forall k ensures HasKey(s[..i + 1], k) <==> HasKey(s[..i], k) || k == s[i].0 {
        if HasKey(s[..i + 1], k) {
          var m :| 0 <= m < i + 1 && s[..i + 1][m].0 == k;
          if m < i { assert s[..i][m].0 == k; }
        }
        if HasKey(s[..i], k) {
          var m :| 0 <= m < i && s[..i][m].0 == k;
          assert s[..i + 1][m].0 == k;
        }
        if k == s[i].0 { assert s[..i + 1][i].0 == k; }
      }
    } else {
      assert HasKey(s0, s[i].0);
      forall k ensures HasKey(s[..i + 1], k) <==> HasKey(s[..i], k) || k == s[i].0 {
        if HasKey(s[..i + 1], k) {
          var m :| 0 <= m < i + 1 && s[..i + 1][m].0 == k;
          if m < i { assert s[..i][m].0 == k; }
        }
        if HasKey(s[..i], k) {
          var m :| 0 <= m < i && s[..i][m].0 == k;
          assert s[..i + 1][m].0 == k;
        }
        if k == s[i].0 { assert s[..i + 1][i].0 == k; }
      }
    }
  }

  lemma {:induction false} StrictKeysDistinct<V>(s: seq<(int, V)>, i: nat, j: nat)
    requires StrictlyAscending(s) && i < |s| && j < |s| && s[i].0 == s[j].0
    ensures i == j
  {
  }

  lemma {:induction false} MergeUniqueErase<V>(s: seq<(int, V)>, s0: seq<(int, V)>, i: nat, o: seq<(int, V)>, q: nat)
    requires i < |s| && StrictlyAscending(o)
    requires o == KeptFrom(s[..i], s0) + s[i..]
    requires q < |o| && o[q].0 == s[i].0
    ensures q == |KeptFrom(s[..i], s0)|
    ensures RemoveAt(o, q) == KeptFrom(s[..i], s0) + s[i + 1..]
  {
    var n := |KeptFrom(s[..i], s0)|;
    assert o[n] == s[i];
    StrictKeysDistinct(o, q, n);
    assert o[..n] == KeptFrom(s[..i], s0);
    assert o[n + 1..] == s[i + 1..];
  }
}
