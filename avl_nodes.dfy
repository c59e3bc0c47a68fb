// The nodes of the AVL tree behind set, map and multiset, modelled as values.
// A `Node*` subtree becomes a `Tree`: `Leaf` is the null pointer, a `Node` carries
// its key/value pair, its two children and its cached height. Parent pointers are
// not stored: a node is reached by a `Path` of left/right steps from the root, and
// walking "up to the parent" is dropping the last step of that path.
module AvlNodes {
  import opened Common

  datatype Tree<V> = Leaf | Node(left: Tree<V>, key: int, value: V, right: Tree<V>, height: int)

  function Max(a: int, b: int): int { if a < b then b else a }

  /** height(nullptr) is 0; otherwise the height cached in the node. */
  function Height<V>(t: Tree<V>): int { if t.Leaf? then 0 else t.height }

  /** Height of the left child minus height of the right child; 0 for the empty subtree. */
  function BalanceFactor<V>(t: Tree<V>): int
  {
    if t.Leaf? then 0 else Height(t.left) - Height(t.right)
  }

  /** The in-order sequence of key/value pairs: the order iteration visits them. */
  function Elements<V>(t: Tree<V>): seq<(int, V)>
  {
    match t
    case Leaf => []
    case Node(l, k, v, r, _) => Elements(l) + [(k, v)] + Elements(r)
  }

  /** Every cached height is 1 + the larger child height, and sibling heights differ by at most 1. */
  ghost predicate Avl<V>(t: Tree<V>)
  {
    match t
    case Leaf => true
    case Node(l, _, _, r, h) =>
      Avl(l) && Avl(r) && h == 1 + Max(Height(l), Height(r)) && -1 <= Height(l) - Height(r) <= 1
  }

  /** Keys never decrease along the in-order sequence (multi-key mode). */
  ghost predicate Ascending<V>(s: seq<(int, V)>)
  {
    forall i, j :: 0 <= i < j < |s| ==> s[i].0 <= s[j].0
  }

  /** Keys strictly increase along the in-order sequence (unique-key mode). */
  ghost predicate StrictlyAscending<V>(s: seq<(int, V)>)
  {
    forall i, j :: 0 <= i < j < |s| ==> s[i].0 < s[j].0
  }

  ghost predicate HasKey<V>(s: seq<(int, V)>, k: int)
  {
    exists i :: 0 <= i < |s| && s[i].0 == k
  }

  lemma {:induction false} InsertAtLeft<T>(a: seq<T>, y: T, b: seq<T>, i: nat, x: T)
    requires i <= |a|
    ensures InsertAt(a, i, x) + [y] + b == InsertAt(a + [y] + b, i, x)
  {
    assert (a + [y] + b)[..i] == a[..i];
    assert (a + [y] + b)[i..] == a[i..] + [y] + b;
  }

  lemma {:induction false} InsertAtRight<T>(a: seq<T>, y: T, b: seq<T>, i: nat, x: T)
    requires i <= |b|
    ensures a + [y] + InsertAt(b, i, x) == InsertAt(a + [y] + b, |a| + 1 + i, x)
  {
    assert (a + [y] + b)[..|a| + 1 + i] == a + [y] + b[..i];
    assert (a + [y] + b)[|a| + 1 + i..] == b[i..];
  }

  lemma {:induction false} RemoveAtLeft<T>(a: seq<T>, y: T, b: seq<T>, i: nat)
    requires i < |a|
    ensures RemoveAt(a, i) + [y] + b == RemoveAt(a + [y] + b, i)
  {
    assert (a + [y] + b)[..i] == a[..i];
    assert (a + [y] + b)[i + 1..] == a[i + 1..] + [y] + b;
  }

  lemma {:induction false} RemoveAtRight<T>(a: seq<T>, y: T, b: seq<T>, i: nat)
    requires i < |b|
    ensures a + [y] + RemoveAt(b, i) == RemoveAt(a + [y] + b, |a| + 1 + i)
  {
    assert (a + [y] + b)[..|a| + 1 + i] == a + [y] + b[..i];
    assert (a + [y] + b)[|a| + 1 + i + 1..] == b[i + 1..];
  }

  /** Placing a pair whose key fits between its neighbours keeps a sequence sorted. */
  lemma {:induction false} AscendingInsertAt<V>(s: seq<(int, V)>, i: nat, x: (int, V))
    requires i <= |s| && Ascending(s)
    requires forall j :: 0 <= j < i ==> s[j].0 <= x.0
    requires forall j :: i <= j < |s| ==> x.0 <= s[j].0
    ensures Ascending(InsertAt(s, i, x))
  {
    var u := InsertAt(s, i, x);
    forall a, b | 0 <= a < b < |u| ensures u[a].0 <= u[b].0 {
      if b < i { assert u[a] == s[a] && u[b] == s[b]; }
      else if b == i { assert u[a] == s[a]; }
      else if a < i { assert u[a] == s[a] && u[b] == s[b - 1]; }
      else if a == i { assert u[b] == s[b - 1]; }
      else { assert u[a] == s[a - 1] && u[b] == s[b - 1]; }
    }
  }

  lemma {:induction false} StrictlyAscendingInsertAt<V>(s: seq<(int, V)>, i: nat, x: (int, V))
    requires i <= |s| && StrictlyAscending(s)
    requires forall j :: 0 <= j < i ==> s[j].0 < x.0
    requires forall j :: i <= j < |s| ==> x.0 < s[j].0
    ensures StrictlyAscending(InsertAt(s, i, x))
  {
    var u := InsertAt(s, i, x);
    forall a, b | 0 <= a < b < |u| ensures u[a].0 < u[b].0 {
      if b < i { assert u[a] == s[a] && u[b] == s[b]; }
      else if b == i { assert u[a] == s[a]; }
      else if a < i { assert u[a] == s[a] && u[b] == s[b - 1]; }
      else if a == i { assert u[b] == s[b - 1]; }
      else { assert u[a] == s[a - 1] && u[b] == s[b - 1]; }
    }
  }

  lemma {:induction false} AscendingRemoveAt<V>(s: seq<(int, V)>, i: nat)
    requires i < |s| && Ascending(s)
    ensures Ascending(RemoveAt(s, i))
  {
    var u := RemoveAt(s, i);
    forall a, b | 0 <= a < b < |u| ensures u[a].0 <= u[b].0 {
      var a', b' := if a < i then a else a + 1, if b < i then b else b + 1;
      assert u[a] == s[a'] && u[b] == s[b'];
    }
  }

  lemma {:induction false} StrictlyAscendingRemoveAt<V>(s: seq<(int, V)>, i: nat)
    requires i < |s| && StrictlyAscending(s)
    ensures StrictlyAscending(RemoveAt(s, i))
  {
    var u := RemoveAt(s, i);
    forall a, b | 0 <= a < b < |u| ensures u[a].0 < u[b].0 {
      var a', b' := if a < i then a else a + 1, if b < i then b else b + 1;
      assert u[a] == s[a'] && u[b] == s[b'];
    }
  }

  lemma {:induction false} AvlHeight<V>(t: Tree<V>)
    requires Avl(t)
    ensures Height(t) >= 0
    ensures Height(t) == 0 <==> t.Leaf?
  {
    if t.Node? {
      AvlHeight(t.left);
      AvlHeight(t.right);
    }
  }

  /** Every node of a well-formed AVL tree, not only the root, is AVL with balance factor in -1..1. */
  lemma {:induction false} AvlBalanceFactor<V>(t: Tree<V>, p: Path)
    requires Avl(t) && ValidPath(t, p)
    ensures Avl(Subtree(t, p)) && -1 <= BalanceFactor(Subtree(t, p)) <= 1
    decreases |p|
  {
    if p != [] {
      AvlBalanceFactor(if p[0] == L then t.left else t.right, p[1..]);
    }
  }

  /** size(Node*): the number of nodes, which is the length of the in-order sequence. */
  function Size<V>(t: Tree<V>): (n: nat)
    ensures n == |Elements(t)|
  {
    if t.Leaf? then 0 else Size(t.left) + 1 + Size(t.right)
  }

  /** clone(Node*, parent): a node-by-node copy, equal to the original. */
  function Clone<V>(t: Tree<V>): (c: Tree<V>)
    ensures c == t
  {
    match t
    case Leaf => Leaf
    case Node(l, k, v, r, h) => Node(Clone(l), k, v, Clone(r), h)
  }

  // ---------------------------------------------------------------- node splitting

  lemma {:induction false} NodeElements<V>(t: Tree<V>)
    requires t.Node?
    ensures |Elements(t)| == |Elements(t.left)| + 1 + |Elements(t.right)|
    ensures forall i :: 0 <= i < |Elements(t.left)| ==> Elements(t)[i] == Elements(t.left)[i]
    ensures Elements(t)[|Elements(t.left)|] == (t.key, t.value)
    ensures forall j :: 0 <= j < |Elements(t.right)| ==>
              Elements(t)[|Elements(t.left)| + 1 + j] == Elements(t.right)[j]
  {
  }

  /** Sorted `a + [x] + b`: both sides sorted, `a` at most `x`, `b` at least `x`. */
  lemma {:induction false} AscendingParts<V>(a: seq<(int, V)>, x: (int, V), b: seq<(int, V)>)
    requires Ascending(a + [x] + b)
    ensures Ascending(a) && Ascending(b)
    ensures forall i :: 0 <= i < |a| ==> a[i].0 <= x.0
    ensures forall j :: 0 <= j < |b| ==> x.0 <= b[j].0
  {
    var s, n := a + [x] + b, |a|;
    assert s[n] == x;
    forall i, j | 0 <= i < j < |a| ensures a[i].0 <= a[j].0 {
      assert s[i] == a[i] && s[j] == a[j];
    }
    forall i | 0 <= i < |a| ensures a[i].0 <= x.0 {
      assert s[i] == a[i];
    }
    forall i, j | 0 <= i < j < |b| ensures b[i].0 <= b[j].0 {
      assert s[n + 1 + i] == b[i] && s[n + 1 + j] == b[j];
    }
    forall j | 0 <= j < |b| ensures x.0 <= b[j].0 {
      assert s[n + 1 + j] == b[j];
    }
  }

  /** Strictly sorted `a + [x] + b`: both sides strictly sorted, `a` below `x`, `b` above `x`. */
  lemma {:induction false} StrictlyAscendingParts<V>(a: seq<(int, V)>, x: (int, V), b: seq<(int, V)>)
    requires StrictlyAscending(a + [x] + b)
    ensures StrictlyAscending(a) && StrictlyAscending(b)
    ensures forall i :: 0 <= i < |a| ==> a[i].0 < x.0
    ensures forall j :: 0 <= j < |b| ==> x.0 < b[j].0
  {
    var s, n := a + [x] + b, |a|;
    assert s[n] == x;
    forall i, j | 0 <= i < j < |a| ensures a[i].0 < a[j].0 {
      assert s[i] == a[i] && s[j] == a[j];
    }
    forall i | 0 <= i < |a| ensures a[i].0 < x.0 {
      assert s[i] == a[i];
    }
    forall i, j | 0 <= i < j < |b| ensures b[i].0 < b[j].0 {
      assert s[n + 1 + i] == b[i] && s[n + 1 + j] == b[j];
    }
    forall j | 0 <= j < |b| ensures x.0 < b[j].0 {
      assert s[n + 1 + j] == b[j];
    }
  }

  /** A sorted node: both children sorted, left keys at most the node key, right keys at least it. */
  lemma {:induction false} AscendingNode<V>(t: Tree<V>)
    requires t.Node? && Ascending(Elements(t))
    ensures Ascending(Elements(t.left)) && Ascending(Elements(t.right))
    ensures forall i :: 0 <= i < |Elements(t.left)| ==> Elements(t.left)[i].0 <= t.key
    ensures forall j :: 0 <= j < |Elements(t.right)| ==> t.key <= Elements(t.right)[j].0
  {
    AscendingParts(Elements(t.left), (t.key, t.value), Elements(t.right));
  }

  /** A unique-key node: the binary-search-tree order, left keys below the node key, right keys above it. */
  lemma {:induction false} StrictlyAscendingNode<V>(t: Tree<V>)
    requires t.Node? && StrictlyAscending(Elements(t))
    ensures StrictlyAscending(Elements(t.left)) && StrictlyAscending(Elements(t.right))
    ensures forall i :: 0 <= i < |Elements(t.left)| ==> Elements(t.left)[i].0 < t.key
    ensures forall j :: 0 <= j < |Elements(t.right)| ==> t.key < Elements(t.right)[j].0
  {
    StrictlyAscendingParts(Elements(t.left), (t.key, t.value), Elements(t.right));
  }

  // ---------------------------------------------------------------- paths

  datatype Dir = L | R

  /** The steps from the root to a node; the parent of the node at `p + [d]` is the node at `p`. */
  type Path = seq<Dir>

  /** The subtree a path leads to (the empty subtree once the path falls off the tree). */
  function Subtree<V>(t: Tree<V>, p: Path): Tree<V>
    decreases |p|
  {
    if p == [] then t
    else if t.Leaf? then Leaf
    else if p[0] == L then Subtree(t.left, p[1..])
    else Subtree(t.right, p[1..])
  }

  /** The path names a node of the tree. */
  predicate ValidPath<V>(t: Tree<V>, p: Path)
  {
    Subtree(t, p).Node?
  }

  /** In-order position of the first element of the subtree at `p`. */
  ghost function Start<V>(t: Tree<V>, p: Path): nat
    decreases |p|
  {
    if p == [] || t.Leaf? then 0
    else if p[0] == L then Start(t.left, p[1..])
    else |Elements(t.left)| + 1 + Start(t.right, p[1..])
  }

  /** In-order position of the node a path names. */
  ghost function Index<V>(t: Tree<V>, p: Path): (i: nat)
    requires ValidPath(t, p)
    ensures i < |Elements(t)|
  {
    SubtreeSlice(t, p);
    Start(t, p) + |Elements(Subtree(t, p).left)|
  }

  lemma {:induction false} PathAppend<V>(t: Tree<V>, p: Path, q: Path)
    ensures Subtree(t, p + q) == Subtree(Subtree(t, p), q)
    ensures Start(t, p + q) == Start(t, p) + Start(Subtree(t, p), q)
    decreases |p|
  {
    if p == [] {
      assert p + q == q;
    } else {
      assert (p + q)[0] == p[0];
      assert (p + q)[1..] == p[1..] + q;
      if t.Node? {
        if p[0] == L {
          PathAppend(t.left, p[1..], q);
        } else {
          PathAppend(t.right, p[1..], q);
        }
      }
    }
  }

  /** One step down: the subtree and start position of `p + [d]` in terms of those of `p`. */
  lemma {:induction false} StepDown<V>(t: Tree<V>, p: Path, d: Dir)
    requires ValidPath(t, p)
    ensures Subtree(t, p + [d]) == (if d == L then Subtree(t, p).left else Subtree(t, p).right)
    ensures Start(t, p + [d]) ==
              if d == L then Start(t, p)
              else Start(t, p) + |Elements(Subtree(t, p).left)| + 1
  {
    PathAppend(t, p, [d]);
    var n := Subtree(t, p);
    assert [d][1..] == [];
  }

  /** A node's subtree occupies a contiguous slice of the in-order sequence, starting at `Start`. */
  lemma {:induction false} SubtreeSlice<V>(t: Tree<V>, p: Path)
    ensures Start(t, p) + |Elements(Subtree(t, p))| <= |Elements(t)|
    ensures Elements(t)[Start(t, p)..Start(t, p) + |Elements(Subtree(t, p))|] == Elements(Subtree(t, p))
    decreases |p|
  {
    if p != [] && t.Node? {
      var s, n := Start(t, p), |Elements(Subtree(t, p))|;
      var a, x, b := Elements(t.left), (t.key, t.value), Elements(t.right);
      assert Elements(t) == a + [x] + b;
      if p[0] == L {
        SubtreeSlice(t.left, p[1..]);
        SliceOfLeft(a, x, b, s, n);
      } else {
        SubtreeSlice(t.right, p[1..]);
        SliceOfRight(a, x, b, s, n);
      }
    }
  }

  /** Dereferencing a node: its pair sits at its in-order position. */
  lemma {:induction false} ElementAt<V>(t: Tree<V>, p: Path)
    requires ValidPath(t, p)
    ensures Elements(t)[Index(t, p)] == (Subtree(t, p).key, Subtree(t, p).value)
  {
    SubtreeSlice(t, p);
    var n := Subtree(t, p);
    NodeElements(n);
    var s := Start(t, p);
    assert Elements(t)[s + |Elements(n.left)|] == Elements(t)[s..s + |Elements(n)|][|Elements(n.left)|];
  }

  lemma {:induction false} IndexStep<V>(t: Tree<V>, d: Dir, p: Path)
    requires t.Node?
    requires ValidPath(if d == L then t.left else t.right, p)
    ensures ValidPath(t, [d] + p)
    ensures Index(t, [d] + p) ==
              if d == L then Index(t.left, p) else |Elements(t.left)| + 1 + Index(t.right, p)
  {
    assert ([d] + p)[0] == d;
    assert ([d] + p)[1..] == p;
  }

  // ---------------------------------------------------------------- search

  /** Prefix a step to an optional path. */
  function Prepend(d: Dir, o: Option<Path>): (r: Option<Path>)
    ensures r.Some? <==> o.Some?
    ensures r.Some? ==> r.value == [d] + o.value
  {
    if o.None? then None else Some([d] + o.value)
  }

  /** find(key): descend left on smaller keys, right on larger ones, stop on the first equal key. */
  function FindPath<V>(t: Tree<V>, k: int): (r: Option<Path>)
    ensures r.Some? ==> ValidPath(t, r.value) && Subtree(t, r.value).key == k
  {
    match t
    case Leaf => None
    case Node(l, key, _, rt, _) =>
      if k < key then
        var r := Prepend(L, FindPath(l, k));
        assert r.Some? ==> r.value[0] == L && r.value[1..] == FindPath(l, k).value;
        r
      else if key < k then
        var r := Prepend(R, FindPath(rt, k));
        assert r.Some? ==> r.value[0] == R && r.value[1..] == FindPath(rt, k).value;
        r
      else Some([])
  }

  /** A key other than the node's, absent from the child on its side of the node, is absent from the node. */
  lemma {:induction false} NoKeyNode<V>(t: Tree<V>, k: int)
    requires t.Node? && k != t.key
    requires forall i :: 0 <= i < |Elements(t.left)| ==> Elements(t.left)[i].0 <= t.key
    requires forall j :: 0 <= j < |Elements(t.right)| ==> t.key <= Elements(t.right)[j].0
    requires k < t.key ==> !HasKey(Elements(t.left), k)
    requires t.key < k ==> !HasKey(Elements(t.right), k)
    ensures !HasKey(Elements(t), k)
  {
    var a, x, b := Elements(t.left), (t.key, t.value), Elements(t.right);
    var s, n := a + [x] + b, |a|;
    assert Elements(t) == s;
    forall i | 0 <= i < |s| ensures s[i].0 != k {
      if i < n {
        assert s[i] == a[i];
      } else if n < i {
        assert s[i] == b[i - n - 1];
      }
    }
  }


  /** On a sorted tree the search fails exactly when no element has the key. */
  lemma {:induction false} FindPathComplete<V>(t: Tree<V>, k: int)
    requires Ascending(Elements(t))
    ensures FindPath(t, k).None? <==> !HasKey(Elements(t), k)
  {
    if FindPath(t, k).Some? {
      var p := FindPath(t, k).value;
      ElementAt(t, p);
    } else if t.Node? {
      AscendingNode(t);
      if k < t.key {
        FindPathComplete(t.left, k);
      } else {
        FindPathComplete(t.right, k);
      }
      NoKeyNode(t, k);
    }
  }

  /** Number of elements a lower_bound descent passes over: the insertion point before equal keys. */
  function LowerIndex<V>(t: Tree<V>, k: int): (i: nat)
    ensures i <= |Elements(t)|
  {
    match t
    case Leaf => 0
    case Node(l, key, _, rt, _) =>
      if k <= key then LowerIndex(l, k) else |Elements(l)| + 1 + LowerIndex(rt, k)
  }

  /** Number of elements an upper_bound descent passes over: the insertion point after equal keys. */
  function UpperIndex<V>(t: Tree<V>, k: int): (i: nat)
    ensures i <= |Elements(t)|
  {
    match t
    case Leaf => 0
    case Node(l, key, _, rt, _) =>
      if k < key then UpperIndex(l, k) else |Elements(l)| + 1 + UpperIndex(rt, k)
  }

  /** The lower_bound insertion point never passes the upper_bound one. */
  lemma {:induction false} LowerBelowUpper<V>(t: Tree<V>, k: int)
    ensures LowerIndex(t, k) <= UpperIndex(t, k)
  {
    if t.Node? {
      if k < t.key { LowerBelowUpper(t.left, k); }
      else if t.key < k { LowerBelowUpper(t.right, k); }
    }
  }

  /** On a sorted tree, LowerIndex splits the elements into keys below `k` and keys at least `k`. */
  lemma {:induction false} LowerIndexSplits<V>(t: Tree<V>, k: int)
    requires Ascending(Elements(t))
    ensures forall i :: 0 <= i < LowerIndex(t, k) ==> Elements(t)[i].0 < k
    ensures forall i :: LowerIndex(t, k) <= i < |Elements(t)| ==> k <= Elements(t)[i].0
  {
    if t.Node? {
      AscendingNode(t);
      if k <= t.key {
        LowerIndexSplits(t.left, k);
        LowerIndexLeft(t, k);
      } else {
        LowerIndexSplits(t.right, k);
        LowerIndexRight(t, k);
      }
    }
  }

  lemma {:induction false} LowerIndexLeft<V>(t: Tree<V>, k: int)
    requires t.Node? && k <= t.key
    requires forall i :: 0 <= i < LowerIndex(t.left, k) ==> Elements(t.left)[i].0 < k
    requires forall i :: LowerIndex(t.left, k) <= i < |Elements(t.left)| ==> k <= Elements(t.left)[i].0
    requires forall i :: 0 <= i < |Elements(t.left)| ==> Elements(t.left)[i].0 <= t.key
    requires forall j :: 0 <= j < |Elements(t.right)| ==> t.key <= Elements(t.right)[j].0
    ensures forall i :: 0 <= i < LowerIndex(t, k) ==> Elements(t)[i].0 < k
    ensures forall i :: LowerIndex(t, k) <= i < |Elements(t)| ==> k <= Elements(t)[i].0
  {
    var a, x, b := Elements(t.left), (t.key, t.value), Elements(t.right);
    var s, n := a + [x] + b, |a|;
    assert Elements(t) == s;
    assert LowerIndex(t, k) == LowerIndex(t.left, k);
    forall i | 0 <= i < LowerIndex(t, k) ensures s[i].0 < k {
      assert s[i] == a[i];
    }
    forall i | LowerIndex(t, k) <= i < |s| ensures k <= s[i].0 {
      if i < n {
        assert s[i] == a[i];
      } else if n < i {
        assert s[i] == b[i - n - 1];
      }
    }
  }


  lemma {:induction false} LowerIndexRight<V>(t: Tree<V>, k: int)
    requires t.Node? && t.key < k
    requires forall i :: 0 <= i < LowerIndex(t.right, k) ==> Elements(t.right)[i].0 < k
    requires forall i :: LowerIndex(t.right, k) <= i < |Elements(t.right)| ==> k <= Elements(t.right)[i].0
    requires forall i :: 0 <= i < |Elements(t.left)| ==> Elements(t.left)[i].0 <= t.key
    requires forall j :: 0 <= j < |Elements(t.right)| ==> t.key <= Elements(t.right)[j].0
    ensures forall i :: 0 <= i < LowerIndex(t, k) ==> Elements(t)[i].0 < k
    ensures forall i :: LowerIndex(t, k) <= i < |Elements(t)| ==> k <= Elements(t)[i].0
  {
    var a, x, b := Elements(t.left), (t.key, t.value), Elements(t.right);
    var s, n := a + [x] + b, |a|;
    assert Elements(t) == s;
    assert LowerIndex(t, k) == n + 1 + LowerIndex(t.right, k);
    forall i | 0 <= i < LowerIndex(t, k) ensures s[i].0 < k {
      if i < n {
        assert s[i] == a[i];
      } else if n < i {
        assert s[i] == b[i - n - 1];
      }
    }
    forall i | LowerIndex(t, k) <= i < |s| ensures k <= s[i].0 {
      assert s[i] == b[i - n - 1];
    }
  }


  lemma {:induction false} UpperIndexLeft<V>(t: Tree<V>, k: int)
    requires t.Node? && k < t.key
    requires forall i :: 0 <= i < UpperIndex(t.left, k) ==> Elements(t.left)[i].0 <= k
    requires forall i :: UpperIndex(t.left, k) <= i < |Elements(t.left)| ==> k < Elements(t.left)[i].0
    requires forall i :: 0 <= i < |Elements(t.left)| ==> Elements(t.left)[i].0 <= t.key
    requires forall j :: 0 <= j < |Elements(t.right)| ==> t.key <= Elements(t.right)[j].0
    ensures forall i :: 0 <= i < UpperIndex(t, k) ==> Elements(t)[i].0 <= k
    ensures forall i :: UpperIndex(t, k) <= i < |Elements(t)| ==> k < Elements(t)[i].0
  {
    var a, x, b := Elements(t.left), (t.key, t.value), Elements(t.right);
    var s, n := a + [x] + b, |a|;
    assert Elements(t) == s;
    assert UpperIndex(t, k) == UpperIndex(t.left, k);
    forall i | 0 <= i < UpperIndex(t, k) ensures s[i].0 <= k {
      assert s[i] == a[i];
    }
    forall i | UpperIndex(t, k) <= i < |s| ensures k < s[i].0 {
      if i < n {
        assert s[i] == a[i];
      } else if n < i {
        assert s[i] == b[i - n - 1];
      }
    }
  }


  lemma {:induction false} UpperIndexRight<V>(t: Tree<V>, k: int)
    requires t.Node? && t.key <= k
    requires forall i :: 0 <= i < UpperIndex(t.right, k) ==> Elements(t.right)[i].0 <= k
    requires forall i :: UpperIndex(t.right, k) <= i < |Elements(t.right)| ==> k < Elements(t.right)[i].0
    requires forall i :: 0 <= i < |Elements(t.left)| ==> Elements(t.left)[i].0 <= t.key
    requires forall j :: 0 <= j < |Elements(t.right)| ==> t.key <= Elements(t.right)[j].0
    ensures forall i :: 0 <= i < UpperIndex(t, k) ==> Elements(t)[i].0 <= k
    ensures forall i :: UpperIndex(t, k) <= i < |Elements(t)| ==> k < Elements(t)[i].0
  {
    var a, x, b := Elements(t.left), (t.key, t.value), Elements(t.right);
    var s, n := a + [x] + b, |a|;
    assert Elements(t) == s;
    assert UpperIndex(t, k) == n + 1 + UpperIndex(t.right, k);
    forall i | 0 <= i < UpperIndex(t, k) ensures s[i].0 <= k {
      if i < n {
        assert s[i] == a[i];
      } else if n < i {
        assert s[i] == b[i - n - 1];
      }
    }
    forall i | UpperIndex(t, k) <= i < |s| ensures k < s[i].0 {
      assert s[i] == b[i - n - 1];
    }
  }


  /** On a sorted tree, UpperIndex splits the elements into keys at most `k` and keys above `k`. */
  lemma {:induction false} UpperIndexSplits<V>(t: Tree<V>, k: int)
    requires Ascending(Elements(t))
    ensures forall i :: 0 <= i < UpperIndex(t, k) ==> Elements(t)[i].0 <= k
    ensures forall i :: UpperIndex(t, k) <= i < |Elements(t)| ==> k < Elements(t)[i].0
  {
    if t.Node? {
      AscendingNode(t);
      if k < t.key {
        UpperIndexSplits(t.left, k);
        UpperIndexLeft(t, k);
      } else {
        UpperIndexSplits(t.right, k);
        UpperIndexRight(t, k);
      }
    }
  }

  // ---------------------------------------------------------------- writing through an iterator

  /** `(*it).second = v`: the node at `p` keeps its key and takes the value `v`. */
  function UpdateAt<V>(t: Tree<V>, p: Path, v: V): Tree<V>
    decreases |p|
  {
    if t.Leaf? then Leaf
    else if p == [] then Node(t.left, t.key, v, t.right, t.height)
    else if p[0] == L then Node(UpdateAt(t.left, p[1..], v), t.key, t.value, t.right, t.height)
    else Node(t.left, t.key, t.value, UpdateAt(t.right, p[1..], v), t.height)
  }

  /** Writing a value changes that one element of the in-order sequence and keeps the shape. */
  lemma {:induction false} UpdateAtSpec<V>(t: Tree<V>, p: Path, v: V)
    requires ValidPath(t, p)
    ensures Height(UpdateAt(t, p, v)) == Height(t) && (Avl(t) ==> Avl(UpdateAt(t, p, v)))
    ensures Elements(UpdateAt(t, p, v)) == Elements(t)[Index(t, p) := (Subtree(t, p).key, v)]
    decreases |p|
  {
    IndexSide(t, p);
    var u := UpdateAt(t, p, v);
    if p == [] {
      assert Elements(u) == Elements(t.left) + [(t.key, v)] + Elements(t.right);
    } else if p[0] == L {
      UpdateAtSpec(t.left, p[1..], v);
      assert Subtree(t, p) == Subtree(t.left, p[1..]);
      var i := Index(t.left, p[1..]);
      assert Elements(u) == Elements(t.left)[i := (Subtree(t, p).key, v)] + [(t.key, t.value)] + Elements(t.right);
    } else {
      UpdateAtSpec(t.right, p[1..], v);
      assert Subtree(t, p) == Subtree(t.right, p[1..]);
      var i := Index(t.right, p[1..]);
      assert Elements(u) == Elements(t.left) + [(t.key, t.value)] + Elements(t.right)[i := (Subtree(t, p).key, v)];
    }
  }

  /** The first step of a path decides on which side of the root its node lies. */
  lemma {:induction false} IndexSide<V>(t: Tree<V>, p: Path)
    requires ValidPath(t, p)
    ensures t.Node?
    ensures p == [] ==> Index(t, p) == |Elements(t.left)|
    ensures p != [] && p[0] == L ==>
              ValidPath(t.left, p[1..]) && Index(t, p) == Index(t.left, p[1..]) < |Elements(t.left)|
    ensures p != [] && p[0] == R ==>
              ValidPath(t.right, p[1..]) && Index(t, p) == |Elements(t.left)| + 1 + Index(t.right, p[1..])
  {
    if p != [] {
      assert p == [p[0]] + p[1..];
      IndexStep(t, p[0], p[1..]);
    }
  }

  /** The path of the element at in-order position `i`, found by counting subtree sizes. */
  function PathAt<V>(t: Tree<V>, i: nat): (p: Path)
    requires i < |Elements(t)|
    ensures ValidPath(t, p) && Index(t, p) == i
  {
    var n := Size(t.left);
    if i < n then
      var q := PathAt(t.left, i);
      IndexStep(t, L, q);
      [L] + q
    else if i == n then []
    else
      var q := PathAt(t.right, i - n - 1);
      IndexStep(t, R, q);
      [R] + q
  }

  // ---------------------------------------------------------------- keys and counts

  /** The keys of a pair sequence, in order. */
  function Keys<V>(s: seq<(int, V)>): (ks: seq<int>)
    ensures |ks| == |s| && forall i :: 0 <= i < |s| ==> ks[i] == s[i].0
  {
    seq(|s|, i requires 0 <= i < |s| => s[i].0)
  }

  lemma {:induction false} KeysRemoveAt<V>(s: seq<(int, V)>, i: nat)
    requires i < |s|
    ensures Keys(RemoveAt(s, i)) == RemoveAt(Keys(s), i)
  {
  }

  // ---------------------------------------------------------------- key views

  /** Keys strictly increase: the order of a unique-key container. */
  ghost predicate Increasing(ks: seq<int>)
  {
    forall i, j :: 0 <= i < j < |ks| ==> ks[i] < ks[j]
  }

  lemma {:induction false} KeysHasKey<V>(s: seq<(int, V)>, k: int)
    ensures k in Keys(s) <==> HasKey(s, k)
  {
    if HasKey(s, k) {
      var i :| 0 <= i < |s| && s[i].0 == k;
      assert Keys(s)[i] == k;
    }
  }

  lemma {:induction false} KeysInsertAt<V>(s: seq<(int, V)>, i: nat, x: (int, V))
    requires i <= |s|
    ensures Keys(InsertAt(s, i, x)) == InsertAt(Keys(s), i, x.0)
  {
  }

  lemma {:induction false} KeysIncreasing<V>(s: seq<(int, V)>)
    ensures StrictlyAscending(s) <==> Increasing(Keys(s))
  {
  }

  lemma {:induction false} RemoveAtMembers(ks: seq<int>, i: nat)
    requires Increasing(ks) && i < |ks|
    ensures forall y :: y in RemoveAt(ks, i) <==> y in ks && y != ks[i]
  {
    assert ks == ks[..i] + [ks[i]] + ks[i + 1..];
    forall y | y in RemoveAt(ks, i) ensures y != ks[i] {
      var j :| 0 <= j < |RemoveAt(ks, i)| && RemoveAt(ks, i)[j] == y;
      if j < i { assert y == ks[j]; } else { assert y == ks[j + 1]; }
    }
  }

  lemma {:induction false} HasKeyInsertAt<V>(s: seq<(int, V)>, i: nat, x: (int, V))
    requires i <= |s|
    ensures forall k :: HasKey(InsertAt(s, i, x), k) <==> HasKey(s, k) || k == x.0
  {
    KeysInsertAt(s, i, x);
    InsertAtMembers(Keys(s), i, x.0);
    forall k ensures HasKey(InsertAt(s, i, x), k) <==> HasKey(s, k) || k == x.0 {
      KeysHasKey(InsertAt(s, i, x), k);
      KeysHasKey(s, k);
    }
  }

  /** In a unique-key sequence, removing position `i` removes exactly the pairs with that key. */
  lemma {:induction false} StrictRemoveAtMembers<V>(s: seq<(int, V)>, i: nat)
    requires StrictlyAscending(s) && i < |s|
    ensures forall e :: e in RemoveAt(s, i) <==> e in s && e.0 != s[i].0
  {
    var r := RemoveAt(s, i);
    RemoveAtIndex(s, i);
    forall e | e in r ensures e in s && e.0 != s[i].0 {
      var j :| 0 <= j < |r| && r[j] == e;
      if j < i { assert e == s[j]; } else { assert e == s[j + 1]; }
    }
    forall e | e in s && e.0 != s[i].0 ensures e in r {
      var j :| 0 <= j < |s| && s[j] == e;
      if j < i { assert r[j] == e; } else { assert r[j - 1] == e; }
    }
  }

  /** In a unique-key sequence, overwriting the pair at `i` leaves the pairs with other keys as they were. */
  lemma {:induction false} StrictUpdateMembers<V>(s: seq<(int, V)>, i: nat, v: V)
    requires StrictlyAscending(s) && i < |s|
    ensures forall e :: e in s[i := (s[i].0, v)] <==> e == (s[i].0, v) || (e in s && e.0 != s[i].0)
  {
    var s' := s[i := (s[i].0, v)];
    forall e | e in s' ensures e == (s[i].0, v) || (e in s && e.0 != s[i].0) {
      var j :| 0 <= j < |s'| && s'[j] == e;
      if j != i { assert e == s[j]; }
    }
    forall e | e in s && e.0 != s[i].0 ensures e in s' {
      var j :| 0 <= j < |s| && s[j] == e;
      assert s'[j] == e;
    }
    assert s'[i] == (s[i].0, v);
  }

  lemma {:induction false} KeysAscending<V>(s: seq<(int, V)>)
    ensures Ascending(s) <==> NonDecreasing(Keys(s))
  {
  }
}
