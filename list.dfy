// list<T>: a circular doubly linked ring of nodes closed by a sentinel node `tail`, which is
// end(); begin() is tail->next. Elements are `int`; an iterator is the node it points at.
module Lists {
  import opened Common
  import opened ListSeqs

  class Node {
    var next: Node?
    var prev: Node?
    var data: int

    /** Node(): a one-element ring holding a value-initialised datum; used as the sentinel. */
    constructor Sentinel()
      ensures next == this && prev == this && data == 0
    {
      data := 0;
      new;
      next := this;
      prev := this;
    }

    /** Node(value): an unlinked node. */
    constructor(value: int)
      ensures next == null && prev == null && data == value
    {
      next, prev, data := null, null, value;
    }

    /** links_insert(n): splice `n` in just before this node; no other link changes. */
    method LinksInsert(n: Node)
      requires prev != null && n != this && n != prev
      modifies this, n, prev
      ensures n.next == this && n.prev == old(prev) && old(prev).next == n && prev == n
      ensures old(prev) != this ==> next == old(next) && old(prev).prev == old(prev.prev)
      ensures data == old(data) && n.data == old(n.data) && old(prev).data == old(prev.data)
    {
      n.next := this;
      n.prev := prev;
      prev.next := n;
      prev := n;
    }

    /** links_erase(): join the neighbours to each other and leave this node self-looped. */
    method LinksErase()
      requires next != null && prev != null && (next == this <==> prev == this)
      modifies this, next, prev
      ensures old(next).prev == old(prev) && old(prev).next == old(next)
      ensures next == this && prev == this
      ensures old(next) != old(prev) ==> old(next).next == old(next.next) && old(prev).prev == old(prev.prev)
      ensures data == old(data) && old(next).data == old(next.data) && old(prev).data == old(prev.data)
    {
      next.prev := prev;
      prev.next := next;
      next := this;
      prev := this;
    }
  }

  ghost function NodeSet(ns: seq<Node>): set<object>
  {
    set n | n in ns
  }

  ghost predicate Distinct(ns: seq<Node>)
  {
    forall i, j :: 0 <= i < j < |ns| ==> ns[i] != ns[j]
  }

  lemma {:induction false} DistinctInsert(ns: seq<Node>, i: nat, x: Node)
    requires Distinct(ns) && i <= |ns| && x !in ns
    ensures Distinct(InsertAt(ns, i, x)) && NodeSet(InsertAt(ns, i, x)) == NodeSet(ns) + {x}
  {
    var r := InsertAt(ns, i, x);
    forall a, b | 0 <= a < b < |r| ensures r[a] != r[b] {
      if b < i { assert r[a] == ns[a] && r[b] == ns[b]; }
      else if b == i { assert r[a] == ns[a]; }
      else if a < i { assert r[a] == ns[a] && r[b] == ns[b - 1]; }
      else if a == i { assert r[b] == ns[b - 1]; }
      else { assert r[a] == ns[a - 1] && r[b] == ns[b - 1]; }
    }
    InsertAtMembers(ns, i, x);
  }

  lemma {:induction false} DistinctRemove(ns: seq<Node>, i: nat)
    requires Distinct(ns) && i < |ns|
    ensures Distinct(RemoveAt(ns, i)) && NodeSet(RemoveAt(ns, i)) == NodeSet(ns) - {ns[i]}
  {
    var r := RemoveAt(ns, i);
    forall a, b | 0 <= a < b < |r| ensures r[a] != r[b] {
      if b < i { assert r[a] == ns[a] && r[b] == ns[b]; }
      else if a < i { assert r[a] == ns[a] && r[b] == ns[b + 1]; }
      else { assert r[a] == ns[a + 1] && r[b] == ns[b + 1]; }
    }
    forall n | n in r ensures n != ns[i] {
      var a :| 0 <= a < |r| && r[a] == n;
      if a < i { assert r[a] == ns[a]; } else { assert r[a] == ns[a + 1]; }
    }
    assert ns == r[..i] + [ns[i]] + r[i..];
  }


  /**
   * The nodes `ns` form a ring closed by the sentinel `t`, the last of them: each node's `next`
   * is the following node and its `prev` the preceding one, and the data nodes hold `c`.
   */
  ghost predicate Ring(t: Node, ns: seq<Node>, c: seq<int>)
    reads NodeSet(ns)
  {
    |ns| == |c| + 1 && ns[|ns| - 1] == t &&
    Distinct(ns) &&
    (forall i {:trigger ns[i].data} :: 0 <= i < |c| ==> ns[i].data == c[i]) &&
    (forall i {:trigger ns[i].next} :: 0 <= i < |ns| - 1 ==> ns[i].next == ns[i + 1]) &&
    (forall i {:trigger ns[i].prev} :: 0 < i < |ns| ==> ns[i].prev == ns[i - 1]) &&
    t.next == ns[0] && ns[0].prev == t
  }

  /** links_insert on a ring: `x` joins it just before the node at position `i`. */
  method RingLinkBefore(t: Node, ghost ns: seq<Node>, ghost c: seq<int>, ghost i: nat, pos: Node, x: Node)
    requires Ring(t, ns, c) && i < |ns| && ns[i] == pos && x !in ns
    modifies pos, pos.prev, x
    ensures Ring(t, InsertAt(ns, i, x), InsertAt(c, i, old(x.data)))
  {
    ghost var q := if i == 0 then t else ns[i - 1];
    assert pos.prev == q;
    pos.LinksInsert(x);
    ghost var r, d := InsertAt(ns, i, x), InsertAt(c, i, x.data);
    DistinctInsert(ns, i, x);
    forall j | 0 <= j < |d| ensures r[j].data == d[j] {
      if j < i { assert r[j] == ns[j]; } else if j > i { assert r[j] == ns[j - 1]; }
    }
    forall j | 0 <= j < |r| - 1 ensures r[j].next == r[j + 1] {
      if j + 1 < i {
        assert r[j] == ns[j] && r[j + 1] == ns[j + 1];
      } else if j + 1 == i {
        assert r[j] == q;
      } else if j > i {
        assert r[j] == ns[j - 1] && r[j + 1] == ns[j];
      }
    }
    forall j | 0 < j < |r| ensures r[j].prev == r[j - 1] {
      if j < i {
        assert r[j] == ns[j] && r[j - 1] == ns[j - 1];
      } else if j == i + 1 {
        assert r[j] == pos;
      } else if j > i + 1 {
        assert r[j] == ns[j - 1] && r[j - 1] == ns[j - 2];
      }
    }
  }

  /** links_erase on a ring: the data node at position `i` leaves it, self-looped. */
  method RingUnlink(t: Node, ghost ns: seq<Node>, ghost c: seq<int>, ghost i: nat, pos: Node)
    requires Ring(t, ns, c) && i < |c| && ns[i] == pos
    modifies pos, pos.prev, pos.next
    ensures Ring(t, RemoveAt(ns, i), RemoveAt(c, i))
    ensures pos.next == pos && pos.prev == pos && pos.data == old(pos.data)
  {
    ghost var q := if i == 0 then t else ns[i - 1];
    assert pos.prev == q && pos.next == ns[i + 1];
    pos.LinksErase();
    ghost var r, d := RemoveAt(ns, i), RemoveAt(c, i);
    DistinctRemove(ns, i);
    forall j | 0 <= j < |d| ensures r[j].data == d[j] {
      if j < i { assert r[j] == ns[j]; } else { assert r[j] == ns[j + 1]; }
    }
    forall j | 0 <= j < |r| - 1 ensures r[j].next == r[j + 1] {
      if j + 1 < i {
        assert r[j] == ns[j] && r[j + 1] == ns[j + 1];
      } else if j + 1 == i {
        assert r[j] == q && r[j + 1] == ns[i + 1];
      } else if j >= i {
        assert r[j] == ns[j + 1] && r[j + 1] == ns[j + 2];
      }
    }
    forall j | 0 < j < |r| ensures r[j].prev == r[j - 1] {
      if j < i {
        assert r[j] == ns[j] && r[j - 1] == ns[j - 1];
      } else if j == i {
        assert r[j] == ns[i + 1];
      } else {
        assert r[j] == ns[j + 1] && r[j - 1] == ns[j];
      }
    }
  }

  /**
   * The ring `ns` closed by `t` with every link turned around: each node's `prev` is the
   * following node and its `next` the preceding one.
   */
  ghost predicate Turned(t: Node, ns: seq<Node>, c: seq<int>)
    reads NodeSet(ns)
  {
    |ns| == |c| + 1 && ns[|ns| - 1] == t &&
    Distinct(ns) &&
    (forall i {:trigger ns[i].data} :: 0 <= i < |c| ==> ns[i].data == c[i]) &&
    (forall i {:trigger ns[i].prev} :: 0 <= i < |ns| - 1 ==> ns[i].prev == ns[i + 1]) &&
    (forall i {:trigger ns[i].next} :: 0 < i < |ns| ==> ns[i].next == ns[i - 1]) &&
    t.prev == ns[0] && ns[0].next == t
  }

  /** A turned ring is a ring of the data nodes in the opposite order, closed by the same sentinel. */
  lemma {:induction false} TurnedRing(t: Node, ns: seq<Node>, c: seq<int>)
    requires Turned(t, ns, c)
    ensures Ring(t, Rev(ns[..|ns| - 1]) + [t], Rev(c))
  {
    var m := |ns|;
    var r := Rev(ns[..m - 1]) + [t];
    forall a, b | 0 <= a < b < |r| ensures r[a] != r[b] {
      if b < m - 1 { assert r[a] == ns[m - 2 - a] && r[b] == ns[m - 2 - b]; }
      else { assert r[a] == ns[m - 2 - a]; }
    }
    forall j | 0 <= j < |c| ensures r[j].data == Rev(c)[j] {
      assert r[j] == ns[m - 2 - j];
    }
    forall j | 0 <= j < |r| - 1 ensures r[j].next == r[j + 1] {
      assert r[j] == ns[m - 2 - j];
    }
    forall j | 0 < j < |r| ensures r[j].prev == r[j - 1] {
      if j < m - 1 { assert r[j] == ns[m - 2 - j] && r[j - 1] == ns[m - 1 - j]; }
    }
  }

  /** reverse on a ring: every node, the sentinel first, exchanges its `next` and `prev`. */
  method TurnRing(t: Node, ghost ns: seq<Node>, ghost c: seq<int>)
    requires Ring(t, ns, c)
    modifies NodeSet(ns)
    ensures Turned(t, ns, c)
  {
    ghost var m := |ns|;
    var cur := t;
    var nxt := cur.next;
    cur.next := cur.prev;
    cur.prev := nxt;
    cur := nxt;
    ghost var k := 0;
    while cur != t
      invariant k < m && cur == ns[k]
      invariant t.next == (if m > 1 then ns[m - 2] else t) && t.prev == ns[0]
      invariant forall j {:trigger ns[j].data} :: 0 <= j < |c| ==> ns[j].data == c[j]
      invariant forall j {:trigger ns[j].prev} :: 0 <= j < k ==> ns[j].prev == ns[j + 1]
      invariant forall j {:trigger ns[j].next} :: 0 < j < k ==> ns[j].next == ns[j - 1]
      invariant k > 0 ==> ns[0].next == t
      invariant forall j {:trigger ns[j].next} :: k <= j < m - 1 ==> ns[j].next == ns[j + 1]
      invariant forall j {:trigger ns[j].prev} :: 0 < j && k <= j < m - 1 ==> ns[j].prev == ns[j - 1]
      invariant k == 0 && m > 1 ==> ns[0].prev == t
      decreases m - 1 - k
    {
      nxt := cur.next;
      cur.next := cur.prev;
      cur.prev := nxt;
      cur := nxt;
      k := k + 1;
    }
  }

  class List {
    var tail: Node
    var size: nat
    /** The data nodes in list order, followed by the sentinel `tail`. */
    ghost var nodes: seq<Node>
    /** The elements in list order. */
    ghost var Contents: seq<int>
    ghost var Repr: set<object>

    /**
     * The ring: each node's `next` is the following node and its `prev` the preceding one,
     * the sentinel closes the ring, and list_sz counts the data nodes.
     */
    ghost predicate Valid()
      reads this, Repr
    {
      Repr == {this} + NodeSet(nodes) && size == |Contents| && Ring(tail, nodes, Contents)
    }

    /** The in-order position of a node of the ring; the sentinel's is the size. */
    ghost function IndexOf(n: Node): (i: nat)
      requires Valid() && n in nodes
      reads this, Repr
      ensures i < |nodes| && nodes[i] == n
    {
      var i :| 0 <= i < |nodes| && nodes[i] == n; i
    }

    lemma {:induction false} IndexOfUnique(n: Node, i: nat)
      requires Valid() && i < |nodes| && nodes[i] == n
      ensures IndexOf(n) == i
    {
    }

    /** list(): just the sentinel. */
    constructor()
      ensures Valid() && fresh(Repr) && Contents == []
    {
      var t := new Node.Sentinel();
      tail, size := t, 0;
      nodes, Contents := [t], [];
      Repr := {this, t};
    }

    /** list(n): n value-initialised (zero) elements. */
    constructor Sized(n: nat)
      ensures Valid() && fresh(Repr) && |Contents| == n
      ensures forall i :: 0 <= i < n ==> Contents[i] == 0
    {
      var t := new Node.Sentinel();
      tail, size := t, 0;
      nodes, Contents := [t], [];
      Repr := {this, t};
      new;
      InsertManyBack(seq(n, _ => 0));
    }

    /** list(initializer_list): the listed values in order. */
    constructor FromSeq(items: seq<int>)
      ensures Valid() && fresh(Repr) && Contents == items
    {
      var t := new Node.Sentinel();
      tail, size := t, 0;
      nodes, Contents := [t], [];
      Repr := {this, t};
      new;
      InsertManyBack(items);
    }

    /** list(const list&): a walk over other from begin() to end(), appending each element. */
    constructor Copy(other: List)
      requires other.Valid()
      ensures Valid() && fresh(Repr) && Contents == other.Contents
    {
      var t := new Node.Sentinel();
      tail, size := t, 0;
      nodes, Contents := [t], [];
      Repr := {this, t};
      new;
      AppendAll(other);
    }

    /** list(list&&): this takes over other's ring; other is left with a new empty ring. */
    constructor Move(other: List)
      requires other.Valid()
      modifies other
      ensures Valid() && Contents == old(other.Contents)
      ensures other.Valid() && other.Contents == [] && fresh(other.Repr - {other})
      ensures Repr == old(other.Repr) - {other} + {this}
    {
      tail, size := other.tail, other.size;
      nodes, Contents := other.nodes, other.Contents;
      Repr := {this} + NodeSet(other.nodes);
      new;
      var t := new Node.Sentinel();
      other.tail, other.size := t, 0;
      other.nodes, other.Contents := [t], [];
      other.Repr := {other, t};
    }

    /** Insert the unlinked node `x` just before `pos`, the node at position `i`. */
    method LinkBefore(pos: Node, x: Node, ghost i: nat)
      requires Valid() && i < |nodes| && nodes[i] == pos && x !in Repr
      modifies Repr, x
      ensures Valid() && tail == old(tail)
      ensures nodes == InsertAt(old(nodes), i, x)
      ensures Contents == InsertAt(old(Contents), i, old(x.data))
      ensures Repr == old(Repr) + {x}
    {
      ghost var ns, c := nodes, Contents;
      assert Ring(tail, ns, c);
      assert pos.prev == if i == 0 then tail else ns[i - 1];
      RingLinkBefore(tail, ns, c, i, pos, x);
      Adopt(tail, size + 1, InsertAt(ns, i, x), InsertAt(c, i, x.data));
      DistinctInsert(ns, i, x);
    }

    /** Unlink the data node `pos`, the node at position `i`, leaving it self-looped. */
    method Unlink(pos: Node, ghost i: nat)
      requires Valid() && i < |Contents| && nodes[i] == pos
      modifies Repr
      ensures Valid() && tail == old(tail)
      ensures nodes == RemoveAt(old(nodes), i)
      ensures Contents == RemoveAt(old(Contents), i)
      ensures Repr == old(Repr) - {pos}
      ensures pos.next == pos && pos.prev == pos && pos.data == old(pos.data)
    {
      ghost var ns, c := nodes, Contents;
      assert Ring(tail, ns, c);
      assert pos.prev == (if i == 0 then tail else ns[i - 1]) && pos.next == ns[i + 1];
      RingUnlink(tail, ns, c, i, pos);
      Adopt(tail, size - 1, RemoveAt(ns, i), RemoveAt(c, i));
      DistinctRemove(ns, i);
    }

    /** front(): the first element, the one after the sentinel. */
    function Front(): (x: int)
      requires Valid() && Contents != []
      reads this, Repr
      ensures x == Contents[0]
    {
      tail.next.data
    }

    /** back(): the last element, the one before the sentinel. */
    function Back(): (x: int)
      requires Valid() && Contents != []
      reads this, Repr
      ensures x == Contents[|Contents| - 1]
    {
      assert tail.prev == nodes[|nodes| - 2];
      tail.prev.data
    }

    /** begin(): the node after the sentinel, at position 0. */
    function Begin(): (n: Node)
      requires Valid()
      reads this, Repr
      ensures n in nodes && IndexOf(n) == 0
    {
      IndexOfUnique(nodes[0], 0);
      tail.next
    }

    /** end(): the sentinel itself, one past the last element. */
    function End(): (n: Node)
      requires Valid()
      reads this, Repr
      ensures n in nodes && IndexOf(n) == |Contents|
    {
      IndexOfUnique(tail, |nodes| - 1);
      tail
    }

    function Empty(): (b: bool)
      requires Valid()
      reads this, Repr
      ensures b <==> Contents == []
    {
      size == 0
    }

    function Size(): (n: nat)
      requires Valid()
      reads this, Repr
      ensures n == |Contents|
    {
      size
    }

    /** An empty list is exactly one whose begin() is its end(). */
    lemma {:induction false} EmptyIffBeginIsEnd()
      requires Valid()
      ensures Contents == [] <==> Begin() == End()
    {
      if Begin() == End() {
        assert IndexOf(Begin()) == IndexOf(End());
      }
    }

    /** Iterator operator*: the element a data node holds. */
    function Deref(n: Node): (x: int)
      requires Valid() && n in nodes && n != tail
      reads this, Repr
      ensures IndexOf(n) < |Contents| && x == Contents[IndexOf(n)]
    {
      n.data
    }

    /** Iterator operator++: the following node; the sentinel is followed by begin(). */
    function Next(n: Node): (m: Node)
      requires Valid() && n in nodes
      reads this, Repr
      ensures m in nodes
      ensures IndexOf(m) == if IndexOf(n) < |Contents| then IndexOf(n) + 1 else 0
    {
      var i := IndexOf(n);
      var j := if i < |Contents| then i + 1 else 0;
      IndexOfUnique(nodes[j], j);
      n.next
    }

    /** Iterator operator--: the preceding node; begin() is preceded by the sentinel. */
    function Prev(n: Node): (m: Node)
      requires Valid() && n in nodes
      reads this, Repr
      ensures m in nodes
      ensures IndexOf(m) == if IndexOf(n) > 0 then IndexOf(n) - 1 else |Contents|
    {
      var i := IndexOf(n);
      var j := if i > 0 then i - 1 else |Contents|;
      IndexOfUnique(nodes[j], j);
      n.prev
    }

    /** On a well-formed ring ++ then -- comes back to the same node, and so does -- then ++. */
    lemma {:induction false} NextPrevInverse(n: Node)
      requires Valid() && n in nodes
      ensures Next(n) in nodes && Prev(Next(n)) == n
      ensures Prev(n) in nodes && Next(Prev(n)) == n
    {
      IndexOfUnique(Prev(Next(n)), IndexOf(n));
      IndexOfUnique(Next(Prev(n)), IndexOf(n));
    }

    /** A new node holding value, linked in just before pos (position `i`). */
    method LinkNew(pos: Node, value: int, ghost i: nat) returns (x: Node)
      requires Valid() && i < |nodes| && nodes[i] == pos
      modifies Repr
      ensures Valid() && tail == old(tail) && fresh(x)
      ensures nodes == InsertAt(old(nodes), i, x) && nodes[i] == x && nodes[i + 1] == pos
      ensures Contents == InsertAt(old(Contents), i, value)
      ensures Repr == old(Repr) + {x}
    {
      x := new Node(value);
      ghost var ns := nodes;
      LinkBefore(pos, x, i);
      InsertAtIndex(ns, i, x, i);
    }

    /** insert(pos, value): a new node holding value just before pos; returns it. */
    method Insert(pos: Node, value: int) returns (it: Node)
      requires Valid() && pos in nodes
      modifies Repr
      ensures Valid() && tail == old(tail) && fresh(it)
      ensures it in nodes && IndexOf(it) == old(IndexOf(pos))
      ensures pos in nodes && IndexOf(pos) == old(IndexOf(pos)) + 1
      ensures Contents == InsertAt(old(Contents), old(IndexOf(pos)), value)
      ensures nodes == InsertAt(old(nodes), old(IndexOf(pos)), it)
      ensures Repr == old(Repr) + {it}
    {
      ghost var i := IndexOf(pos);
      it := LinkNew(pos, value, i);
      IndexOfUnique(it, i);
      IndexOfUnique(pos, i + 1);
    }

    /** erase(pos): only the element at pos goes. */
    method Erase(pos: Node)
      requires Valid() && pos in nodes && pos != tail
      modifies Repr
      ensures Valid() && tail == old(tail)
      ensures Contents == RemoveAt(old(Contents), old(IndexOf(pos)))
      ensures Repr == old(Repr) - {pos}
    {
      Unlink(pos, IndexOf(pos));
    }

    /** push_back(value): value becomes the last element. */
    method PushBack(value: int)
      requires Valid()
      modifies Repr
      ensures Valid() && tail == old(tail) && Contents == old(Contents) + [value]
      ensures fresh(Repr - old(Repr))
    {
      var it := Insert(tail, value);
      assert old(Contents)[..|old(Contents)|] == old(Contents);
    }

    /** push_front(value): value becomes the first element. */
    method PushFront(value: int)
      requires Valid()
      modifies Repr
      ensures Valid() && tail == old(tail) && Contents == [value] + old(Contents)
      ensures fresh(Repr - old(Repr))
    {
      var it := Insert(Begin(), value);
    }

    /** pop_back(): the last element goes. */
    method PopBack()
      requires Valid() && Contents != []
      modifies Repr
      ensures Valid() && tail == old(tail) && Contents == old(Contents[..|Contents| - 1])
      ensures Repr < old(Repr)
    {
      IndexOfUnique(nodes[|nodes| - 2], |nodes| - 2);
      Erase(Prev(tail));
    }

    /** pop_front(): the first element goes. */
    method PopFront()
      requires Valid() && Contents != []
      modifies Repr
      ensures Valid() && tail == old(tail) && Contents == old(Contents[1..])
      ensures Repr < old(Repr)
    {
      Erase(Begin());
    }

    /** clear(): every element goes; the sentinel stays. */
    method Clear()
      requires Valid()
      modifies Repr
      ensures Valid() && tail == old(tail) && Contents == [] && Repr <= old(Repr)
    {
      while size > 0
        invariant Valid() && tail == old(tail) && Repr <= old(Repr)
        decreases size
      {
        PopFront();
      }
    }

    /** swap(other): the two lists exchange their rings and sizes. */
    method Swap(other: List)
      requires Valid() && other.Valid()
      modifies this, other
      ensures Valid() && other.Valid()
      ensures Contents == old(other.Contents) && other.Contents == old(Contents)
      ensures nodes == old(other.nodes) && other.nodes == old(nodes)
    {
      if other == this {
        return;
      }
      ghost var ns1, c1, ns2, c2 := nodes, Contents, other.nodes, other.Contents;
      assert Ring(tail, ns1, c1) && Ring(other.tail, ns2, c2);
      var t1, s1 := tail, size;
      Adopt(other.tail, other.size, ns2, c2);
      other.Adopt(t1, s1, ns1, c1);
    }

    /** Make this list the owner of the ring `ns` closed by `t`. */
    method Adopt(t: Node, sz: nat, ghost ns: seq<Node>, ghost c: seq<int>)
      requires Ring(t, ns, c) && sz == |c|
      modifies this
      ensures Valid() && tail == t && nodes == ns && Contents == c && Repr == {this} + NodeSet(ns)
    {
      tail, size, nodes, Contents := t, sz, ns, c;
      Repr := {this} + NodeSet(ns);
    }

    /** operator=(const list&): this ends holding other's elements; other is untouched. */
    method CopyAssign(other: List)
      requires Valid() && other.Valid() && Repr !! other.Repr
      modifies Repr
      ensures Valid() && Contents == old(other.Contents)
      ensures other.Valid() && other.Contents == old(other.Contents)
      ensures Repr !! other.Repr
    {
      Clear();
      AppendAll(other);
    }

    /** Append a copy of each of other's elements, walking other from begin() to end(). */
    method AppendAll(other: List)
      requires Valid() && other.Valid() && Repr !! other.Repr
      modifies Repr
      ensures Valid() && tail == old(tail) && Contents == old(Contents) + other.Contents
      ensures other.Valid() && Repr !! other.Repr && fresh(Repr - old(Repr))
    {
      ghost var c0 := Contents;
      var cur := other.tail.next;
      ghost var k := 0;
      while cur != other.tail
        invariant Valid() && tail == old(tail) && Repr !! other.Repr && fresh(Repr - old(Repr))
        invariant 0 <= k < |other.nodes| && cur == other.nodes[k]
        invariant Contents == c0 + other.Contents[..k]
        decreases |other.nodes| - k
      {
        PushBack(cur.data);
        assert other.Contents[..k + 1] == other.Contents[..k] + [other.Contents[k]];
        cur := cur.next;
        k := k + 1;
      }
      assert other.Contents[..k] == other.Contents;
    }

    /** operator=(list&&): this takes over other's elements and other is left empty. */
    method MoveAssign(other: List)
      requires Valid() && other.Valid() && (other == this || Repr !! other.Repr)
      modifies this, Repr, other
      ensures Valid() && other.Valid()
      ensures other != this ==> Contents == old(other.Contents) && other.Contents == []
      ensures other == this ==> Contents == old(Contents)
    {
      if other != this {
        Clear();
        Swap(other);
      }
    }

    /**
     * insert_many(pos, args...): the arguments go just before pos in argument order; the result
     * is the first inserted node, or pos itself when there are no arguments.
     */
    method InsertMany(pos: Node, items: seq<int>) returns (it: Node)
      requires Valid() && pos in nodes
      modifies Repr
      ensures Valid() && tail == old(tail) && fresh(Repr - old(Repr))
      ensures it in nodes && IndexOf(it) == old(IndexOf(pos))
      ensures items == [] ==> it == pos
      ensures Contents == old(Contents)[..old(IndexOf(pos))] + items + old(Contents)[old(IndexOf(pos))..]
    {
      ghost var i0, c0 := IndexOf(pos), Contents;
      it := pos;
      var k := 0;
      while k < |items|
        invariant Valid() && tail == old(tail) && fresh(Repr - old(Repr))
        invariant k <= |items| && i0 + k < |nodes| && nodes[i0 + k] == pos && nodes[i0] == it
        invariant k == 0 ==> it == pos
        invariant Contents == c0[..i0] + items[..k] + c0[i0..]
      {
        it := InsertStep(pos, items, k, i0, c0, it);
        k := k + 1;
      }
      IndexOfUnique(it, i0);
      assert items[..k] == items;
    }

    /** One round of insert_many: items[k] goes in just before pos, after the k items already there. */
    method InsertStep(pos: Node, items: seq<int>, k: nat, ghost i0: nat, ghost c0: seq<int>, it: Node)
      returns (first: Node)
      requires Valid() && k < |items| && i0 <= |c0|
      requires i0 + k < |nodes| && nodes[i0 + k] == pos && nodes[i0] == it
      requires Contents == c0[..i0] + items[..k] + c0[i0..]
      modifies Repr
      ensures Valid() && tail == old(tail) && fresh(Repr - old(Repr))
      ensures i0 + k + 1 < |nodes| && nodes[i0 + k + 1] == pos && nodes[i0] == first
      ensures k > 0 ==> first == it
      ensures Contents == c0[..i0] + items[..k + 1] + c0[i0..]
    {
      ghost var ns := nodes;
      var x := LinkNew(pos, items[k], i0 + k);
      if k == 0 {
        first := x;
      } else {
        first := it;
        InsertAtIndex(ns, i0 + k, x, i0);
      }
      InsertNext(c0, i0, items, k);
    }

    /** insert_many_back(args...): the arguments are appended in argument order. */
    method InsertManyBack(items: seq<int>)
      requires Valid()
      modifies Repr
      ensures Valid() && tail == old(tail) && fresh(Repr - old(Repr))
      ensures Contents == old(Contents) + items
    {
      var it := InsertMany(End(), items);
    }

    /** insert_many_front(args...): the arguments go before the first element in argument order. */
    method InsertManyFront(items: seq<int>)
      requires Valid()
      modifies Repr
      ensures Valid() && tail == old(tail) && fresh(Repr - old(Repr))
      ensures Contents == items + old(Contents)
    {
      var it := InsertMany(Begin(), items);
    }

    /** Move other's first node, with its element, to just before pos (position `i`). */
    method TakeFront(other: List, pos: Node, ghost i: nat)
      requires Valid() && other.Valid() && Repr !! other.Repr && other.Contents != []
      requires i < |nodes| && nodes[i] == pos
      modifies Repr, other.Repr
      ensures Valid() && other.Valid() && Repr !! other.Repr
      ensures tail == old(tail) && other.tail == old(other.tail)
      ensures Repr + other.Repr == old(Repr + other.Repr)
      ensures Contents == InsertAt(old(Contents), i, old(other.Contents[0]))
      ensures other.Contents == old(other.Contents[1..])
      ensures i + 1 < |nodes| && nodes[i + 1] == pos
    {
      var y := other.tail.next;
      other.Unlink(y, 0);
      LinkBefore(pos, y, i);
    }

    /**
     * One comparison of merge: the node at `cur` stays when other's first element is not smaller,
     * otherwise other's first node moves in before `cur`; either way the merged prefix grows by one.
     */
    method MergeStep(other: List, cur: Node, ghost i: nat, ghost a0: seq<int>, ghost b0: seq<int>) returns (next: Node)
      requires Valid() && other.Valid() && Repr !! other.Repr && other.Contents != []
      requires i < |nodes| && cur == nodes[i]
      requires Contents[..i] + MergeSeq(Contents[i..], other.Contents) == MergeSeq(a0, b0)
      modifies Repr, other.Repr
      ensures Valid() && other.Valid() && Repr !! other.Repr
      ensures tail == old(tail) && other.tail == old(other.tail)
      ensures Repr + other.Repr == old(Repr + other.Repr)
      ensures i + 1 < |nodes| && next == nodes[i + 1]
      ensures Contents[..i + 1] + MergeSeq(Contents[i + 1..], other.Contents) == MergeSeq(a0, b0)
      ensures |other.Contents| + |Contents| == old(|other.Contents| + |Contents|)
    {
      if cur != tail && !(other.tail.next.data < cur.data) {
        MergeKeep(Contents, i, other.Contents);
        next := cur.next;
      } else {
        MergeTake(Contents, i, other.Contents);
        TakeFront(other, cur, i);
        next := cur;
      }
    }

    /**
     * merge(other): the standard merge of the two sequences, relinking other's nodes into this
     * list; other ends empty. Two ascending lists give their ascending merge.
     */
    method Merge(other: List)
      requires Valid() && other.Valid() && Repr !! other.Repr
      modifies Repr, other.Repr
      ensures Valid() && other.Valid() && other.Contents == []
      ensures Contents == MergeSeq(old(Contents), old(other.Contents))
      ensures Repr + other.Repr == old(Repr + other.Repr)
    {
      ghost var a0, b0 := Contents, other.Contents;
      var cur := tail.next;
      ghost var i := 0;
      MergeStart(a0, b0);
      while other.size > 0
        invariant Valid() && other.Valid() && Repr !! other.Repr
        invariant tail == old(tail) && other.tail == old(other.tail)
        invariant Repr + other.Repr == old(Repr + other.Repr)
        invariant i < |nodes| && cur == nodes[i]
        invariant Contents[..i] + MergeSeq(Contents[i..], other.Contents) == MergeSeq(a0, b0)
        decreases |other.Contents| + |Contents| - i
      {
        cur := MergeStep(other, cur, i, a0, b0);
        i := i + 1;
      }
      MergeDone(Contents, i, MergeSeq(a0, b0));
    }

    /** splice(pos, other): all of other, in order, goes just before pos; other ends empty. */
    method Splice(pos: Node, other: List)
      requires Valid() && other.Valid() && Repr !! other.Repr && pos in nodes
      modifies Repr, other.Repr
      ensures Valid() && other.Valid() && other.Contents == []
      ensures Contents == old(Contents)[..old(IndexOf(pos))] + old(other.Contents) + old(Contents)[old(IndexOf(pos))..]
      ensures Repr + other.Repr == old(Repr + other.Repr)
    {
      ghost var i0, c0, b0 := IndexOf(pos), Contents, other.Contents;
      ghost var k := 0;
      while other.size > 0
        invariant Valid() && other.Valid() && Repr !! other.Repr
        invariant tail == old(tail) && other.tail == old(other.tail)
        invariant Repr + other.Repr == old(Repr + other.Repr)
        invariant k <= |b0| && i0 + k < |nodes| && nodes[i0 + k] == pos
        invariant Contents == c0[..i0] + b0[..k] + c0[i0..] && other.Contents == b0[k..]
        decreases |other.Contents|
      {
        TakeFront(other, pos, i0 + k);
        InsertNext(c0, i0, b0, k);
        k := k + 1;
      }
      assert b0[..k] == b0;
    }

    /** reverse(): the same elements back to front, by turning every node around. */
    method Reverse()
      requires Valid()
      modifies Repr
      ensures Valid() && tail == old(tail) && Repr == old(Repr)
      ensures Contents == Rev(old(Contents))
    {
      ghost var ns, c := nodes, Contents;
      assert Ring(tail, ns, c);
      TurnRing(tail, ns, c);
      TurnedRing(tail, ns, c);
      ghost var r := Rev(ns[..|ns| - 1]) + [tail];
      assert NodeSet(r) == NodeSet(ns) by {
        forall n | n in ns ensures n in r {
          var j :| 0 <= j < |ns| && ns[j] == n;
          if j < |ns| - 1 { assert r[|ns| - 2 - j] == n; }
        }
      }
      Adopt(tail, size, r, Rev(c));
    }

    /** unique(): of each run of equal neighbouring elements only the first stays. */
    method Unique()
      requires Valid()
      modifies Repr
      ensures Valid() && tail == old(tail) && Repr <= old(Repr)
      ensures Contents == Dedup(old(Contents))
    {
      if size == 0 {
        return;
      }
      ghost var c0 := Contents;
      var cur := tail.next;
      ghost var i := 0;
      while cur.next != tail
        invariant Valid() && tail == old(tail) && Repr <= old(Repr)
        invariant i < |Contents| && cur == nodes[i]
        invariant Contents[..i] + Dedup(Contents[i..]) == Dedup(c0)
        decreases |Contents| - i
      {
        if cur.next.data == cur.data {
          DedupDrop(Contents, i);
          Unlink(cur.next, i + 1);
        } else {
          DedupKeep(Contents, i);
          cur := cur.next;
          i := i + 1;
        }
      }
      assert Contents[i..] == [Contents[i]];
      assert Contents[..i] + Contents[i..] == Contents;
    }

    /**
     * sort(): insertion sort by relinking. Each node in turn is moved back to just before the
     * first element of the sorted prefix that is greater than it, so equal elements keep their
     * order; the result is the ascending permutation of the elements.
     */
    method Sort()
      requires Valid()
      modifies Repr
      ensures Valid() && tail == old(tail) && Repr == old(Repr)
      ensures NonDecreasing(Contents) && multiset(Contents) == multiset(old(Contents))
    {
      ghost var c0 := Contents;
      var x := tail.next;
      ghost var i := 0;
      while x != tail
        invariant Valid() && tail == old(tail) && Repr == old(Repr)
        invariant i < |nodes| && x == nodes[i]
        invariant NonDecreasing(Contents[..i]) && multiset(Contents) == multiset(c0)
        decreases |nodes| - i
      {
        var nx := x.next;
        var p, j := FirstGreater(x, i);
        ghost var c, ns := Contents, nodes;
        MoveBefore(x, i, p, j);
        SortStep(c, i, j);
        MoveBack(ns, i, j);
        x := nx;
        i := i + 1;
      }
      assert Contents[..i] == Contents;
    }

    /** The scan of sort: the first node of the prefix before position i whose element exceeds x's. */
    method FirstGreater(x: Node, ghost i: nat) returns (p: Node, ghost j: nat)
      requires Valid() && i < |Contents| && nodes[i] == x
      ensures j <= i && nodes[j] == p
      ensures forall t :: 0 <= t < j ==> Contents[t] <= Contents[i]
      ensures j < i ==> Contents[i] < Contents[j]
    {
      p := tail.next;
      j := 0;
      while p != x && p.data <= x.data
        invariant j <= i && p == nodes[j]
        invariant forall t :: 0 <= t < j ==> Contents[t] <= Contents[i]
        decreases i - j
      {
        p := p.next;
        j := j + 1;
      }
    }

    /** The relinking step of sort: x, at position i, moves to just before p, at position j. */
    method MoveBefore(x: Node, ghost i: nat, p: Node, ghost j: nat)
      requires Valid() && i < |Contents| && nodes[i] == x && j <= i && nodes[j] == p
      modifies Repr
      ensures Valid() && tail == old(tail) && Repr == old(Repr)
      ensures Contents == InsertAt(RemoveAt(old(Contents), i), j, old(Contents[i]))
      ensures nodes == InsertAt(RemoveAt(old(nodes), i), j, x)
    {
      MoveBack(Contents, i, j);
      MoveBack(nodes, i, j);
      if p != x {
        Unlink(x, i);
        LinkBefore(p, x, j);
      }
    }
  }
}
