// The rebalancing helpers of the AVL tree and the recursive insert, mul_insert and
// erase that use them. Each takes a subtree and returns the new subtree root, as the
// `Node* f(Node*)` helpers do; relinking in place becomes building the new value.
module AvlBalance {
  import opened Common
  import opened AvlNodes

  /** A node whose cached height is recomputed from its children. */
  function MakeNode<V>(l: Tree<V>, k: int, v: V, r: Tree<V>): Tree<V>
  {
    Node(l, k, v, r, 1 + Max(Height(l), Height(r)))
  }

  /** rotate_right(y): the left child rises; y becomes its right child and adopts its old right subtree. */
  function RotateRight<V>(y: Tree<V>): (x: Tree<V>)
    requires y.Node? && y.left.Node?
    ensures Elements(x) == Elements(y)
  {
    var a := y.left;
    MakeNode(a.left, a.key, a.value, MakeNode(a.right, y.key, y.value, y.right))
  }

  /** rotate_left(x): the right child rises; x becomes its left child and adopts its old left subtree. */
  function RotateLeft<V>(x: Tree<V>): (y: Tree<V>)
    requires x.Node? && x.right.Node?
    ensures Elements(y) == Elements(x)
  {
    var b := x.right;
    MakeNode(MakeNode(x.left, x.key, x.value, b.left), b.key, b.value, b.right)
  }

  /**
   * balance(node): recompute the height, then repair a balance factor of +2 (rotate right,
   * after rotating the left child left when it leans right) or -2 (the mirror image).
   * The `Node?` tests only keep the function total; they hold whenever the heights are right.
   */
  function Balance<V>(t: Tree<V>): (b: Tree<V>)
    ensures Elements(b) == Elements(t)
  {
    match t
    case Leaf => Leaf
    case Node(l, k, v, r, _) =>
      var n := MakeNode(l, k, v, r);
      if Height(l) - Height(r) > 1 && l.Node? then
        if BalanceFactor(l) < 0 && l.right.Node? then RotateRight(MakeNode(RotateLeft(l), k, v, r))
        else RotateRight(n)
      else if Height(l) - Height(r) < -1 && r.Node? then
        if BalanceFactor(r) > 0 && r.left.Node? then RotateLeft(MakeNode(l, k, v, RotateRight(r)))
        else RotateLeft(n)
      else n
  }

  /** insert(node, data, ...) in unique-key mode: an equal key leaves the subtree as it is. */
  function Insert<V>(t: Tree<V>, k: int, v: V): Tree<V>
  {
    match t
    case Leaf => Node(Leaf, k, v, Leaf, 1)
    case Node(l, key, val, rt, h) =>
      if k < key then Balance(Node(Insert(l, k, v), key, val, rt, h))
      else if key < k then Balance(Node(l, key, val, Insert(rt, k, v), h))
      else t
  }

  /** mul_insert(node, data, ...): equal keys go to the right subtree. */
  function MulInsert<V>(t: Tree<V>, k: int, v: V): Tree<V>
  {
    match t
    case Leaf => Node(Leaf, k, v, Leaf, 1)
    case Node(l, key, val, rt, h) =>
      if k < key then Balance(Node(MulInsert(l, k, v), key, val, rt, h))
      else Balance(Node(l, key, val, MulInsert(rt, k, v), h))
  }

  /** find_min(node): the pair of the leftmost node. */
  function FindMin<V>(t: Tree<V>): (m: (int, V))
    requires t.Node?
    ensures m == Elements(t)[0]
  {
    if t.left.Leaf? then (t.key, t.value) else FindMin(t.left)
  }

  /** Unlink the leftmost node (the successor erase promotes), rebalancing on the way up. */
  function RemoveMin<V>(t: Tree<V>): Tree<V>
    requires t.Node?
  {
    if t.left.Leaf? then t.right
    else Balance(Node(RemoveMin(t.left), t.key, t.value, t.right, t.height))
  }

  /**
   * erase(node, key): descend to the first node holding `key`; a node with at most one child
   * is replaced by that child, a node with two children takes over its in-order successor's
   * pair and the successor is unlinked. Rebalance on the way up; a missing key changes nothing.
   */
  function EraseKey<V>(t: Tree<V>, k: int): Tree<V>
  {
    match t
    case Leaf => Leaf
    case Node(l, key, val, rt, h) =>
      if k < key then Balance(Node(EraseKey(l, k), key, val, rt, h))
      else if key < k then Balance(Node(l, key, val, EraseKey(rt, k), h))
      else if l.Leaf? then rt
      else if rt.Leaf? then l
      else
        var m := FindMin(rt);
        Balance(Node(l, m.0, m.1, RemoveMin(rt), h))
  }

  // ---------------------------------------------------------------- the AVL shape

  /** Balance repairs any height difference of at most 2 between AVL children. */
  lemma {:induction false} BalanceAvl<V>(t: Tree<V>)
    requires t.Node? && Avl(t.left) && Avl(t.right)
    requires -2 <= Height(t.left) - Height(t.right) <= 2
    ensures Avl(Balance(t))
    ensures Max(Height(t.left), Height(t.right)) <= Height(Balance(t))
    ensures Height(Balance(t)) <= 1 + Max(Height(t.left), Height(t.right))
    ensures -1 <= Height(t.left) - Height(t.right) <= 1 ==>
              Height(Balance(t)) == 1 + Max(Height(t.left), Height(t.right))
  {
    var l, r := t.left, t.right;
    AvlHeight(l);
    AvlHeight(r);
    if Height(l) - Height(r) > 1 {
      if BalanceFactor(l) < 0 {
        LeftRightAvl(l, t.key, t.value, r);
      } else {
        LeftLeftAvl(l, t.key, t.value, r);
      }
    } else if Height(l) - Height(r) < -1 {
      if BalanceFactor(r) > 0 {
        RightLeftAvl(l, t.key, t.value, r);
      } else {
        RightRightAvl(l, t.key, t.value, r);
      }
    }
  }

  /** Left child two higher and not leaning right: one right rotation. */
  lemma {:induction false} LeftLeftAvl<V>(l: Tree<V>, k: int, v: V, r: Tree<V>)
    requires Avl(l) && Avl(r) && Height(l) == Height(r) + 2 && BalanceFactor(l) >= 0
    ensures l.Node?
    ensures Avl(RotateRight(MakeNode(l, k, v, r)))
    ensures Height(l) <= Height(RotateRight(MakeNode(l, k, v, r))) <= Height(l) + 1
  {
    AvlHeight(r);
    AvlHeight(l);
    AvlHeight(l.left);
    AvlHeight(l.right);
    var inner := MakeNode(l.right, k, v, r);
    assert Avl(inner);
    assert RotateRight(MakeNode(l, k, v, r)) == MakeNode(l.left, l.key, l.value, inner);
  }

  /** Left child two higher and leaning right: rotate it left, then rotate right. */
  lemma {:induction false} LeftRightAvl<V>(l: Tree<V>, k: int, v: V, r: Tree<V>)
    requires Avl(l) && Avl(r) && Height(l) == Height(r) + 2 && BalanceFactor(l) < 0
    ensures l.Node? && l.right.Node?
    ensures Avl(RotateRight(MakeNode(RotateLeft(l), k, v, r)))
    ensures Height(RotateRight(MakeNode(RotateLeft(l), k, v, r))) == Height(l)
  {
    AvlHeight(r);
    AvlHeight(l);
    AvlHeight(l.left);
    AvlHeight(l.right);
    var c := l.right;
    AvlHeight(c.left);
    AvlHeight(c.right);
    var a1 := MakeNode(l.left, l.key, l.value, c.left);
    var b1 := MakeNode(c.right, k, v, r);
    assert Avl(a1) && Avl(b1);
    assert RotateRight(MakeNode(RotateLeft(l), k, v, r)) == MakeNode(a1, c.key, c.value, b1);
  }

  /** Right child two higher and not leaning left: one left rotation. */
  lemma {:induction false} RightRightAvl<V>(l: Tree<V>, k: int, v: V, r: Tree<V>)
    requires Avl(l) && Avl(r) && Height(r) == Height(l) + 2 && BalanceFactor(r) <= 0
    ensures r.Node?
    ensures Avl(RotateLeft(MakeNode(l, k, v, r)))
    ensures Height(r) <= Height(RotateLeft(MakeNode(l, k, v, r))) <= Height(r) + 1
  {
    AvlHeight(l);
    AvlHeight(r);
    AvlHeight(r.left);
    AvlHeight(r.right);
    var inner := MakeNode(l, k, v, r.left);
    assert Avl(inner);
    assert RotateLeft(MakeNode(l, k, v, r)) == MakeNode(inner, r.key, r.value, r.right);
  }

  /** Right child two higher and leaning left: rotate it right, then rotate left. */
  lemma {:induction false} RightLeftAvl<V>(l: Tree<V>, k: int, v: V, r: Tree<V>)
    requires Avl(l) && Avl(r) && Height(r) == Height(l) + 2 && BalanceFactor(r) > 0
    ensures r.Node? && r.left.Node?
    ensures Avl(RotateLeft(MakeNode(l, k, v, RotateRight(r))))
    ensures Height(RotateLeft(MakeNode(l, k, v, RotateRight(r)))) == Height(r)
  {
    AvlHeight(l);
    AvlHeight(r);
    AvlHeight(r.left);
    AvlHeight(r.right);
    var c := r.left;
    AvlHeight(c.left);
    AvlHeight(c.right);
    var a1 := MakeNode(l, k, v, c.left);
    var b1 := MakeNode(c.right, r.key, r.value, r.right);
    assert Avl(a1) && Avl(b1);
    assert RotateLeft(MakeNode(l, k, v, RotateRight(r))) == MakeNode(a1, c.key, c.value, b1);
  }

  /** Insert keeps the tree AVL and grows its height by at most one. */
  lemma {:induction false} InsertAvl<V>(t: Tree<V>, k: int, v: V)
    requires Avl(t)
    ensures Avl(Insert(t, k, v))
    ensures Height(t) <= Height(Insert(t, k, v)) <= Height(t) + 1
  {
    match t
    case Leaf =>
    case Node(l, key, val, rt, h) =>
      if k < key {
        InsertAvl(l, k, v);
        BalanceAvl(Node(Insert(l, k, v), key, val, rt, h));
      } else if key < k {
        InsertAvl(rt, k, v);
        BalanceAvl(Node(l, key, val, Insert(rt, k, v), h));
      }
  }

  /** MulInsert keeps the tree AVL and grows its height by at most one. */
  lemma {:induction false} MulInsertAvl<V>(t: Tree<V>, k: int, v: V)
    requires Avl(t)
    ensures Avl(MulInsert(t, k, v))
    ensures Height(t) <= Height(MulInsert(t, k, v)) <= Height(t) + 1
  {
    match t
    case Leaf =>
    case Node(l, key, val, rt, h) =>
      if k < key {
        MulInsertAvl(l, k, v);
        BalanceAvl(Node(MulInsert(l, k, v), key, val, rt, h));
      } else {
        MulInsertAvl(rt, k, v);
        BalanceAvl(Node(l, key, val, MulInsert(rt, k, v), h));
      }
  }

  /** Unlinking the leftmost node keeps the tree AVL and lowers its height by at most one. */
  lemma {:induction false} RemoveMinAvl<V>(t: Tree<V>)
    requires t.Node? && Avl(t)
    ensures Avl(RemoveMin(t))
    ensures Height(t) - 1 <= Height(RemoveMin(t)) <= Height(t)
  {
    AvlHeight(t.left);
    AvlHeight(t.right);
    if t.left.Node? {
      RemoveMinAvl(t.left);
      BalanceAvl(Node(RemoveMin(t.left), t.key, t.value, t.right, t.height));
    }
  }

  /** EraseKey keeps the tree AVL and lowers its height by at most one. */
  lemma {:induction false} EraseAvl<V>(t: Tree<V>, k: int)
    requires Avl(t)
    ensures Avl(EraseKey(t, k))
    ensures Height(t) - 1 <= Height(EraseKey(t, k)) <= Height(t)
  {
    match t
    case Leaf =>
    case Node(l, key, val, rt, h) =>
      AvlHeight(l);
      AvlHeight(rt);
      if k < key {
        EraseAvl(l, k);
        BalanceAvl(Node(EraseKey(l, k), key, val, rt, h));
      } else if key < k {
        EraseAvl(rt, k);
        BalanceAvl(Node(l, key, val, EraseKey(rt, k), h));
      } else if l.Node? && rt.Node? {
        var m := FindMin(rt);
        RemoveMinAvl(rt);
        BalanceAvl(Node(l, m.0, m.1, RemoveMin(rt), h));
      }
  }

  // ---------------------------------------------------------------- the in-order sequence

  /** Unique-key insert: an existing key changes nothing; a new pair lands where lower_bound points. */
  lemma {:induction false} InsertElements<V>(t: Tree<V>, k: int, v: V)
    ensures FindPath(t, k).Some? ==> Elements(Insert(t, k, v)) == Elements(t)
    ensures FindPath(t, k).None? ==>
              Elements(Insert(t, k, v)) == InsertAt(Elements(t), LowerIndex(t, k), (k, v))
  {
    if t.Node? {
      if k < t.key {
        InsertElements(t.left, k, v);
        InsertElementsLeft(t, k, v);
      } else if t.key < k {
        InsertElements(t.right, k, v);
        InsertElementsRight(t, k, v);
      }
    }
  }

  lemma {:induction false} InsertElementsLeft<V>(t: Tree<V>, k: int, v: V)
    requires t.Node? && k < t.key
    requires FindPath(t.left, k).Some? ==> Elements(Insert(t.left, k, v)) == Elements(t.left)
    requires FindPath(t.left, k).None? ==>
               Elements(Insert(t.left, k, v)) == InsertAt(Elements(t.left), LowerIndex(t.left, k), (k, v))
    ensures FindPath(t, k).Some? ==> Elements(Insert(t, k, v)) == Elements(t)
    ensures FindPath(t, k).None? ==>
              Elements(Insert(t, k, v)) == InsertAt(Elements(t), LowerIndex(t, k), (k, v))
  {
    var l, x, rt := t.left, (t.key, t.value), t.right;
    assert Elements(Insert(t, k, v)) == Elements(Insert(l, k, v)) + [x] + Elements(rt);
    assert FindPath(t, k).None? <==> FindPath(l, k).None?;
    if FindPath(l, k).None? {
      assert LowerIndex(t, k) == LowerIndex(l, k);
      InsertAtLeft(Elements(l), x, Elements(rt), LowerIndex(l, k), (k, v));
    }
  }

  lemma {:induction false} InsertElementsRight<V>(t: Tree<V>, k: int, v: V)
    requires t.Node? && t.key < k
    requires FindPath(t.right, k).Some? ==> Elements(Insert(t.right, k, v)) == Elements(t.right)
    requires FindPath(t.right, k).None? ==>
               Elements(Insert(t.right, k, v)) == InsertAt(Elements(t.right), LowerIndex(t.right, k), (k, v))
    ensures FindPath(t, k).Some? ==> Elements(Insert(t, k, v)) == Elements(t)
    ensures FindPath(t, k).None? ==>
              Elements(Insert(t, k, v)) == InsertAt(Elements(t), LowerIndex(t, k), (k, v))
  {
    var l, x, rt := t.left, (t.key, t.value), t.right;
    assert Elements(Insert(t, k, v)) == Elements(l) + [x] + Elements(Insert(rt, k, v));
    assert FindPath(t, k).None? <==> FindPath(rt, k).None?;
    if FindPath(rt, k).None? {
      assert LowerIndex(t, k) == |Elements(l)| + 1 + LowerIndex(rt, k);
      InsertAtRight(Elements(l), x, Elements(rt), LowerIndex(rt, k), (k, v));
    }
  }

  /** Multi-key insert: the new pair lands after every equal key, where upper_bound points. */
  lemma {:induction false} MulInsertElements<V>(t: Tree<V>, k: int, v: V)
    ensures Elements(MulInsert(t, k, v)) == InsertAt(Elements(t), UpperIndex(t, k), (k, v))
  {
    if t.Node? {
      if k < t.key {
        MulInsertElements(t.left, k, v);
        MulInsertElementsLeft(t, k, v);
      } else {
        MulInsertElements(t.right, k, v);
        MulInsertElementsRight(t, k, v);
      }
    }
  }

  lemma {:induction false} MulInsertElementsLeft<V>(t: Tree<V>, k: int, v: V)
    requires t.Node? && k < t.key
    requires Elements(MulInsert(t.left, k, v)) == InsertAt(Elements(t.left), UpperIndex(t.left, k), (k, v))
    ensures Elements(MulInsert(t, k, v)) == InsertAt(Elements(t), UpperIndex(t, k), (k, v))
  {
    var l, x, rt := t.left, (t.key, t.value), t.right;
    assert Elements(MulInsert(t, k, v)) == Elements(MulInsert(l, k, v)) + [x] + Elements(rt);
    assert UpperIndex(t, k) == UpperIndex(l, k);
    InsertAtLeft(Elements(l), x, Elements(rt), UpperIndex(l, k), (k, v));
  }

  lemma {:induction false} MulInsertElementsRight<V>(t: Tree<V>, k: int, v: V)
    requires t.Node? && t.key <= k
    requires Elements(MulInsert(t.right, k, v)) == InsertAt(Elements(t.right), UpperIndex(t.right, k), (k, v))
    ensures Elements(MulInsert(t, k, v)) == InsertAt(Elements(t), UpperIndex(t, k), (k, v))
  {
    var l, x, rt := t.left, (t.key, t.value), t.right;
    assert Elements(MulInsert(t, k, v)) == Elements(l) + [x] + Elements(MulInsert(rt, k, v));
    assert UpperIndex(t, k) == |Elements(l)| + 1 + UpperIndex(rt, k);
    InsertAtRight(Elements(l), x, Elements(rt), UpperIndex(rt, k), (k, v));
  }

  /** Unlinking the leftmost node drops the first element of the in-order sequence. */
  lemma {:induction false} RemoveMinElements<V>(t: Tree<V>)
    requires t.Node?
    ensures Elements(RemoveMin(t)) == Elements(t)[1..]
  {
    if t.left.Node? {
      RemoveMinElements(t.left);
      assert Elements(t)[1..] == Elements(t.left)[1..] + [(t.key, t.value)] + Elements(t.right);
    }
  }

  /** EraseKey removes exactly the element that find(key) names, and nothing when find fails. */
  lemma {:induction false} EraseElements<V>(t: Tree<V>, k: int)
    ensures FindPath(t, k).None? ==> Elements(EraseKey(t, k)) == Elements(t)
    ensures FindPath(t, k).Some? ==>
              Elements(EraseKey(t, k)) == RemoveAt(Elements(t), Index(t, FindPath(t, k).value))
  {
    if t.Node? {
      if k < t.key {
        EraseElements(t.left, k);
        EraseElementsLeft(t, k);
      } else if t.key < k {
        EraseElements(t.right, k);
        EraseElementsRight(t, k);
      } else {
        EraseHere(t);
      }
    }
  }

  lemma {:induction false} EraseElementsLeft<V>(t: Tree<V>, k: int)
    requires t.Node? && k < t.key
    requires FindPath(t.left, k).None? ==> Elements(EraseKey(t.left, k)) == Elements(t.left)
    requires FindPath(t.left, k).Some? ==>
               Elements(EraseKey(t.left, k)) == RemoveAt(Elements(t.left), Index(t.left, FindPath(t.left, k).value))
    ensures FindPath(t, k).None? ==> Elements(EraseKey(t, k)) == Elements(t)
    ensures FindPath(t, k).Some? ==>
              Elements(EraseKey(t, k)) == RemoveAt(Elements(t), Index(t, FindPath(t, k).value))
  {
    var l, x, rt := t.left, (t.key, t.value), t.right;
    assert Elements(EraseKey(t, k)) == Elements(EraseKey(l, k)) + [x] + Elements(rt);
    assert FindPath(t, k) == Prepend(L, FindPath(l, k));
    if FindPath(l, k).Some? {
      var p := FindPath(l, k).value;
      assert FindPath(t, k).value == [L] + p;
      IndexStep(t, L, p);
      RemoveAtLeft(Elements(l), x, Elements(rt), Index(l, p));
    }
  }

  lemma {:induction false} EraseElementsRight<V>(t: Tree<V>, k: int)
    requires t.Node? && t.key < k
    requires FindPath(t.right, k).None? ==> Elements(EraseKey(t.right, k)) == Elements(t.right)
    requires FindPath(t.right, k).Some? ==>
               Elements(EraseKey(t.right, k)) == RemoveAt(Elements(t.right), Index(t.right, FindPath(t.right, k).value))
    ensures FindPath(t, k).None? ==> Elements(EraseKey(t, k)) == Elements(t)
    ensures FindPath(t, k).Some? ==>
              Elements(EraseKey(t, k)) == RemoveAt(Elements(t), Index(t, FindPath(t, k).value))
  {
    var l, x, rt := t.left, (t.key, t.value), t.right;
    EraseKeyRight(t, k);
    if FindPath(rt, k).Some? {
      var p := FindPath(rt, k).value;
      IndexStep(t, R, p);
      RemoveAtRight(Elements(l), x, Elements(rt), Index(rt, p));
    }
  }

  /** Erasing a key above the node's: only the right subtree changes, and the search goes right. */
  lemma {:induction false} EraseKeyRight<V>(t: Tree<V>, k: int)
    requires t.Node? && t.key < k
    ensures Elements(t) == Elements(t.left) + [(t.key, t.value)] + Elements(t.right)
    ensures Elements(EraseKey(t, k)) == Elements(t.left) + [(t.key, t.value)] + Elements(EraseKey(t.right, k))
    ensures FindPath(t, k).Some? <==> FindPath(t.right, k).Some?
    ensures FindPath(t, k).Some? ==> FindPath(t, k).value == [R] + FindPath(t.right, k).value
  {
  }


  /** Erasing the node at the root of a subtree leaves its other elements in order. */
  lemma {:induction false} EraseHere<V>(t: Tree<V>)
    requires t.Node?
    ensures Elements(EraseKey(t, t.key)) == Elements(t.left) + Elements(t.right)
    ensures Index(t, []) == |Elements(t.left)|
    ensures RemoveAt(Elements(t), |Elements(t.left)|) == Elements(t.left) + Elements(t.right)
  {
    var s := Elements(t);
    assert s[..|Elements(t.left)|] == Elements(t.left);
    assert s[|Elements(t.left)| + 1..] == Elements(t.right);
    if t.left.Node? && t.right.Node? {
      EraseTwoChildren(t);
    }
  }

  lemma {:induction false} EraseTwoChildren<V>(t: Tree<V>)
    requires t.Node? && t.left.Node? && t.right.Node?
    ensures Elements(EraseKey(t, t.key)) == Elements(t.left) + Elements(t.right)
  {
    var rt := t.right;
    var m := FindMin(rt);
    RemoveMinElements(rt);
    var e := Balance(Node(t.left, m.0, m.1, RemoveMin(rt), t.height));
    assert EraseKey(t, t.key) == e;
    var tail := Elements(rt)[1..];
    assert Elements(e) == Elements(t.left) + [m] + tail;
    assert [m] + tail == Elements(rt);
    ConcatAssoc(Elements(t.left), [m], tail);
  }

  lemma {:induction false} ConcatAssoc<T>(a: seq<T>, b: seq<T>, c: seq<T>)
    ensures a + b + c == a + (b + c)
  {
  }

  // ---------------------------------------------------------------- key order

  /** A unique-key insert keeps the keys of a unique-key tree strictly increasing. */
  lemma {:induction false} InsertKeepsStrict<V>(t: Tree<V>, k: int, v: V)
    requires StrictlyAscending(Elements(t))
    ensures StrictlyAscending(Elements(Insert(t, k, v)))
  {
    InsertElements(t, k, v);
    if FindPath(t, k).None? {
      var s := Elements(t);
      FindPathComplete(t, k);
      LowerIndexSplits(t, k);
      forall j | LowerIndex(t, k) <= j < |s| ensures k < s[j].0 {
        assert s[j].0 != k;
      }
      StrictlyAscendingInsertAt(s, LowerIndex(t, k), (k, v));
    }
  }

  /** A unique-key insert keeps a sorted tree sorted. */
  lemma {:induction false} InsertKeepsAscending<V>(t: Tree<V>, k: int, v: V)
    requires Ascending(Elements(t))
    ensures Ascending(Elements(Insert(t, k, v)))
  {
    InsertElements(t, k, v);
    if FindPath(t, k).None? {
      LowerIndexSplits(t, k);
      AscendingInsertAt(Elements(t), LowerIndex(t, k), (k, v));
    }
  }

  /** A multi-key insert keeps a sorted tree sorted. */
  lemma {:induction false} MulInsertKeepsAscending<V>(t: Tree<V>, k: int, v: V)
    requires Ascending(Elements(t))
    ensures Ascending(Elements(MulInsert(t, k, v)))
  {
    MulInsertElements(t, k, v);
    UpperIndexSplits(t, k);
    AscendingInsertAt(Elements(t), UpperIndex(t, k), (k, v));
  }

  /** Erasing keeps the keys sorted, and strictly increasing when they were. */
  lemma {:induction false} EraseKeepsOrder<V>(t: Tree<V>, k: int)
    ensures Ascending(Elements(t)) ==> Ascending(Elements(EraseKey(t, k)))
    ensures StrictlyAscending(Elements(t)) ==> StrictlyAscending(Elements(EraseKey(t, k)))
  {
    EraseElements(t, k);
    if FindPath(t, k).Some? {
      var i := Index(t, FindPath(t, k).value);
      ElementAt(t, FindPath(t, k).value);
      if Ascending(Elements(t)) { AscendingRemoveAt(Elements(t), i); }
      if StrictlyAscending(Elements(t)) { StrictlyAscendingRemoveAt(Elements(t), i); }
    }
  }
}
