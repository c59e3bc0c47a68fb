// Iterators over the AVL tree. The library's iterator holds a node pointer (`current`,
// null for end()) and `++` climbs parent pointers; here an iterator holds the path from
// the root to its node, so climbing to the parent is dropping the last step of the path.
module AvlIterator {
  import opened Common
  import opened AvlNodes

  /** end() (a null `current`) or the node reached by a path from the root. */
  datatype Iterator = End | At(path: Path)

  /** The iterator is end() or names a node of `t`. */
  predicate IsIterator<V>(t: Tree<V>, it: Iterator)
  {
    it.End? || ValidPath(t, it.path)
  }

  /** In-order position: end() sits just past the last element. */
  ghost function Position<V>(t: Tree<V>, it: Iterator): (i: nat)
    requires IsIterator(t, it)
    ensures i <= |Elements(t)|
    ensures i == |Elements(t)| <==> it.End?
  {
    if it.End? then |Elements(t)| else Index(t, it.path)
  }

  function ToIterator(o: Option<Path>): Iterator
  {
    if o.None? then End else At(o.value)
  }

  /** operator*: the pair stored in the node the iterator stands on. */
  function Deref<V>(t: Tree<V>, it: Iterator): (e: (int, V))
    requires it.At? && ValidPath(t, it.path)
    ensures e == Elements(t)[Position(t, it)]
  {
    ElementAt(t, it.path);
    var n := Subtree(t, it.path);
    (n.key, n.value)
  }

  /** Equal positions mean the same node: iterator equality is node identity. */
  lemma {:induction false} PositionInjective<V>(t: Tree<V>, p: Path, q: Path)
    requires ValidPath(t, p) && ValidPath(t, q) && Index(t, p) == Index(t, q)
    ensures p == q
    decreases |p|
  {
    IndexSide(t, p);
    IndexSide(t, q);
    if p != [] && q != [] && p[0] == q[0] {
      PositionInjective(if p[0] == L then t.left else t.right, p[1..], q[1..]);
      assert p == [p[0]] + p[1..] && q == [q[0]] + q[1..];
    }
  }

  /** The path to the leftmost node of a non-empty subtree. */
  function LeftmostPath<V>(t: Tree<V>): Path
    requires t.Node?
  {
    if t.left.Leaf? then [] else [L] + LeftmostPath(t.left)
  }

  /** The leftmost node is the first element in order. */
  lemma {:induction false} LeftmostFirst<V>(t: Tree<V>)
    requires t.Node?
    ensures ValidPath(t, LeftmostPath(t)) && Index(t, LeftmostPath(t)) == 0
  {
    if t.left.Node? {
      LeftmostFirst(t.left);
      IndexStep(t, L, LeftmostPath(t.left));
    }
  }

  /** begin(): the leftmost node, or end() for the empty tree; either way the first position. */
  function Begin<V>(t: Tree<V>): (it: Iterator)
    ensures IsIterator(t, it) && Position(t, it) == 0
  {
    if t.Leaf? then End
    else
      LeftmostFirst(t);
      At(LeftmostPath(t))
  }

  /**
   * Climbing parent links from a node until the climb arrives from a left child: drop
   * trailing right steps, then one left step. None means the climb passed the root.
   */
  function Ascend(p: Path): Option<Path>
    decreases |p|
  {
    if p == [] then None
    else if p[|p| - 1] == R then Ascend(p[..|p| - 1])
    else Some(p[..|p| - 1])
  }

  /** The climb lands on the element just after the whole subtree at `p`, or on end(). */
  lemma {:induction false} AscendSpec<V>(t: Tree<V>, p: Path)
    requires ValidPath(t, p)
    ensures var e := Start(t, p) + |Elements(Subtree(t, p))|;
            (Ascend(p).None? <==> e == |Elements(t)|) &&
            (Ascend(p).Some? ==> ValidPath(t, Ascend(p).value) && Index(t, Ascend(p).value) == e)
    decreases |p|
  {
    SubtreeSlice(t, p);
    if p != [] {
      var q, d := p[..|p| - 1], p[|p| - 1];
      assert p == q + [d];
      PathAppend(t, q, [d]);
      assert Subtree(t, q).Node?;
      StepDown(t, q, d);
      AscendSpec(t, q);
      var nq := Subtree(t, q);
      NodeElements(nq);
    }
  }

  /** operator++: the leftmost node of the right subtree if there is one, else climb. */
  function Next<V>(t: Tree<V>, it: Iterator): Iterator
    requires it.At? && ValidPath(t, it.path)
  {
    var n := Subtree(t, it.path);
    if n.right.Node? then At(it.path + [R] + LeftmostPath(n.right))
    else ToIterator(Ascend(it.path))
  }

  /** ++ moves exactly one position forward in order (onto end() after the last element). */
  lemma {:induction false} NextAdvances<V>(t: Tree<V>, it: Iterator)
    requires it.At? && ValidPath(t, it.path)
    ensures IsIterator(t, Next(t, it)) && Position(t, Next(t, it)) == Position(t, it) + 1
  {
    var p := it.path;
    var n := Subtree(t, p);
    NodeElements(n);
    if n.right.Node? {
      var lm := LeftmostPath(n.right);
      LeftmostFirst(n.right);
      StepDown(t, p, R);
      PathAppend(t, p + [R], lm);
    } else {
      AscendSpec(t, p);
    }
  }

  /** `k` applications of ++. */
  ghost function Advance<V>(t: Tree<V>, it: Iterator, k: nat): Iterator
    requires IsIterator(t, it) && Position(t, it) + k <= |Elements(t)|
    decreases k
  {
    if k == 0 then it
    else
      NextAdvances(t, it);
      Advance(t, Next(t, it), k - 1)
  }

  lemma {:induction false} AdvancePosition<V>(t: Tree<V>, it: Iterator, k: nat)
    requires IsIterator(t, it) && Position(t, it) + k <= |Elements(t)|
    ensures IsIterator(t, Advance(t, it, k))
    ensures Position(t, Advance(t, it, k)) == Position(t, it) + k
    decreases k
  {
    if k > 0 {
      NextAdvances(t, it);
      AdvancePosition(t, Next(t, it), k - 1);
    }
  }

  /**
   * Walking from begin() with ++ visits the elements one by one in in-order sequence and
   * reaches end() exactly after the last one.
   */
  lemma {:induction false} WalkFromBegin<V>(t: Tree<V>, k: nat)
    requires k <= |Elements(t)|
    ensures IsIterator(t, Advance(t, Begin(t), k))
    ensures Advance(t, Begin(t), k).End? <==> k == |Elements(t)|
    ensures k < |Elements(t)| ==> Deref(t, Advance(t, Begin(t), k)) == Elements(t)[k]
  {
    AdvancePosition(t, Begin(t), k);
    var it := Advance(t, Begin(t), k);
    assert Position(t, it) == k;
  }

  /** The iterator standing at in-order position `i` (end() at the size). */
  function IteratorAt<V>(t: Tree<V>, i: nat): (it: Iterator)
    requires i <= |Elements(t)|
    ensures IsIterator(t, it) && Position(t, it) == i
  {
    if i == Size(t) then End else At(PathAt(t, i))
  }

  /** find(key) as an iterator: end() when the descent fails. */
  function Find<V>(t: Tree<V>, k: int): Iterator
  {
    ToIterator(FindPath(t, k))
  }

  /** lower_bound(key): the descent that remembers the last node whose key is at least `key`. */
  function LowerBoundPath<V>(t: Tree<V>, k: int): Option<Path>
  {
    match t
    case Leaf => None
    case Node(l, key, _, rt, _) =>
      if k <= key then
        var p := LowerBoundPath(l, k);
        if p.None? then Some([]) else Some([L] + p.value)
      else Prepend(R, LowerBoundPath(rt, k))
  }

  /** upper_bound(key): the descent that remembers the last node whose key exceeds `key`. */
  function UpperBoundPath<V>(t: Tree<V>, k: int): Option<Path>
  {
    match t
    case Leaf => None
    case Node(l, key, _, rt, _) =>
      if k < key then
        var p := UpperBoundPath(l, k);
        if p.None? then Some([]) else Some([L] + p.value)
      else Prepend(R, UpperBoundPath(rt, k))
  }

  lemma {:induction false} LowerBoundPosition<V>(t: Tree<V>, k: int)
    ensures IsIterator(t, ToIterator(LowerBoundPath(t, k)))
    ensures Position(t, ToIterator(LowerBoundPath(t, k))) == LowerIndex(t, k)
  {
    match t
    case Leaf =>
    case Node(l, key, _, rt, _) =>
      if k <= key {
        LowerBoundPosition(l, k);
        if LowerBoundPath(l, k).Some? { IndexStep(t, L, LowerBoundPath(l, k).value); }
        else { assert Index(t, []) == |Elements(l)|; }
      } else {
        LowerBoundPosition(rt, k);
        if LowerBoundPath(rt, k).Some? { IndexStep(t, R, LowerBoundPath(rt, k).value); }
      }
  }

  lemma {:induction false} UpperBoundPosition<V>(t: Tree<V>, k: int)
    ensures IsIterator(t, ToIterator(UpperBoundPath(t, k)))
    ensures Position(t, ToIterator(UpperBoundPath(t, k))) == UpperIndex(t, k)
  {
    match t
    case Leaf =>
    case Node(l, key, _, rt, _) =>
      if k < key {
        UpperBoundPosition(l, k);
        if UpperBoundPath(l, k).Some? { IndexStep(t, L, UpperBoundPath(l, k).value); }
        else { assert Index(t, []) == |Elements(l)|; }
      } else {
        UpperBoundPosition(rt, k);
        if UpperBoundPath(rt, k).Some? { IndexStep(t, R, UpperBoundPath(rt, k).value); }
      }
  }
}
