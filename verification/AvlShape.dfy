/** Height-balanced shape: what the stored balance factors mean, and that every rotation restores them. */
module AvlShape {
  import opened Records
  import opened BinTree

  const AVL_RH := -1
  const AVL_EH := 0
  const AVL_LH := 1

  predicate IsFactor(bf: int) { bf == AVL_RH || bf == AVL_EH || bf == AVL_LH }

  /** Every stored factor is the height of the left side less that of the right, and at most one off zero. */
  ghost predicate Avl(t: Tree<int>) {
    match t
    case Leaf => true
    case Fork(_, bf, l, _, r) => bf == Levels(l) - Levels(r) && IsFactor(bf) && Avl(l) && Avl(r)
  }

  /** Sound but for its root, where the right side has come to be two levels deeper. */
  ghost predicate RightHeavy(t: Tree<int>) {
    t.Fork? && Avl(t.left) && Avl(t.right) && Levels(t.right) == Levels(t.left) + 2
  }

  ghost predicate LeftHeavy(t: Tree<int>) {
    t.Fork? && Avl(t.left) && Avl(t.right) && Levels(t.left) == Levels(t.right) + 2
  }

  // ---------------------------------------------------------------- rotations

  /** One rotation to the left; the old root is marked `mn`, the new one `mr`. */
  ghost function SpunLeft(t: Tree<int>, mn: int, mr: int): (s: Tree<int>)
    requires t.Fork? && t.right.Fork?
    ensures InOrder(s) == InOrder(t)
  {
    RotateLeft(t.(mark := mn, right := t.right.(mark := mr)))
  }

  ghost function SpunRight(t: Tree<int>, mn: int, ml: int): (s: Tree<int>)
    requires t.Fork? && t.left.Fork?
    ensures InOrder(s) == InOrder(t)
  {
    RotateRight(t.(mark := mn, left := t.left.(mark := ml)))
  }

  /** The right child's left child comes to the top: a rotation of the child, then one of the node. */
  ghost function TwistedLeft(t: Tree<int>, mn: int, mr: int): (s: Tree<int>)
    requires t.Fork? && t.right.Fork? && t.right.left.Fork?
    ensures InOrder(s) == InOrder(t)
  {
    var r := t.right.(mark := mr, left := t.right.left.(mark := AVL_EH));
    assert InOrder(r.left) == InOrder(t.right.left);
    assert InOrder(RotateRight(r)) == InOrder(t.right);
    RotateLeft(t.(mark := mn, right := RotateRight(r)))
  }

  ghost function TwistedRight(t: Tree<int>, mn: int, ml: int): (s: Tree<int>)
    requires t.Fork? && t.left.Fork? && t.left.right.Fork?
    ensures InOrder(s) == InOrder(t)
  {
    var l := t.left.(mark := ml, right := t.left.right.(mark := AVL_EH));
    assert InOrder(l.right) == InOrder(t.left.right);
    assert InOrder(RotateLeft(l)) == InOrder(t.left);
    RotateRight(t.(mark := mn, left := RotateLeft(l)))
  }

  // ---------------------------------------------------------------- balance after each rotation

  lemma SpunLeftFits(t: Tree<int>)
    requires RightHeavy(t) && t.right.mark != AVL_LH
    ensures t.right.mark == AVL_RH ==>
      Avl(SpunLeft(t, AVL_EH, AVL_EH))
      && Levels(SpunLeft(t, AVL_EH, AVL_EH)) == Levels(t.right)
    ensures t.right.mark == AVL_EH ==>
      Avl(SpunLeft(t, AVL_RH, AVL_LH))
      && Levels(SpunLeft(t, AVL_RH, AVL_LH)) == Levels(t.right) + 1
  {
  }

  lemma SpunRightFits(t: Tree<int>)
    requires LeftHeavy(t) && t.left.mark != AVL_RH
    ensures t.left.mark == AVL_LH ==>
      Avl(SpunRight(t, AVL_EH, AVL_EH))
      && Levels(SpunRight(t, AVL_EH, AVL_EH)) == Levels(t.left)
    ensures t.left.mark == AVL_EH ==>
      Avl(SpunRight(t, AVL_LH, AVL_RH))
      && Levels(SpunRight(t, AVL_LH, AVL_RH)) == Levels(t.left) + 1
  {
  }

  /** The factors of the two halves after a double rotation, by the factor of the node brought up. */
  function NearMark(bf: int, heavy: int): int { if bf == heavy then -heavy else AVL_EH }

  function FarMark(bf: int, heavy: int): int { if bf == -heavy then heavy else AVL_EH }

  lemma TwistedLeftFits(t: Tree<int>)
    requires RightHeavy(t) && t.right.mark == AVL_LH
    ensures t.right.left.Fork? && IsFactor(t.right.left.mark)
    ensures var b := t.right.left.mark; var s := TwistedLeft(t, NearMark(b, AVL_RH), FarMark(b, AVL_RH));
      Avl(s) && Levels(s) == Levels(t.right)
  {
    var b := t.right.left;
    assert Avl(b);
    var s := TwistedLeft(t, NearMark(b.mark, AVL_RH), FarMark(b.mark, AVL_RH));
    assert s.left.right == b.left && s.right.left == b.right;
    assert Avl(s.left) && Avl(s.right);
  }

  lemma TwistedRightFits(t: Tree<int>)
    requires LeftHeavy(t) && t.left.mark == AVL_RH
    ensures t.left.right.Fork? && IsFactor(t.left.right.mark)
    ensures var b := t.left.right.mark; var s := TwistedRight(t, NearMark(b, AVL_LH), FarMark(b, AVL_LH));
      Avl(s) && Levels(s) == Levels(t.left)
  {
    var b := t.left.right;
    assert Avl(b);
    var s := TwistedRight(t, NearMark(b.mark, AVL_LH), FarMark(b.mark, AVL_LH));
    assert s.left.right == b.left && s.right.left == b.right;
    assert Avl(s.left) && Avl(s.right);
  }

  // ---------------------------------------------------------------- what insertion and removal mean

  /** A sorted run with `d` put in its place, unless its key is there already. */
  ghost function Put(s: seq<Data>, d: Data): seq<Data> {
    if s == [] then [d]
    else if d.key < s[0].key then [d] + s
    else if d.key == s[0].key then s
    else [s[0]] + Put(s[1..], d)
  }

  lemma {:induction false} PutSize(s: seq<Data>, d: Data)
    ensures |s| <= |Put(s, d)| <= |s| + 1
  {
    if s != [] { PutSize(s[1..], d); }
  }

  /** A sorted run without the record of that key. */
  ghost function Without(s: seq<Data>, key: int): seq<Data> {
    if s == [] then []
    else if s[0].key == key then s[1..]
    else [s[0]] + Without(s[1..], key)
  }

  lemma {:induction false} PutLeft(a: seq<Data>, x: Data, b: seq<Data>, d: Data)
    requires d.key < x.key
    ensures Put(a + [x] + b, d) == Put(a, d) + [x] + b
  {
    if a == [] {
      assert a + [x] + b == [x] + b;
      assert Put([x] + b, d) == [d] + ([x] + b);
      assert Put(a, d) + [x] + b == [d] + ([x] + b);
    } else {
      assert (a + [x] + b)[1..] == a[1..] + [x] + b;
      PutLeft(a[1..], x, b, d);
    }
  }

  lemma {:induction false} PutRight(a: seq<Data>, x: Data, b: seq<Data>, d: Data)
    requires Below(a + [x], d.key)
    ensures Put(a + [x] + b, d) == a + [x] + Put(b, d)
  {
    var s := a + [x] + b;
    if a == [] {
      assert s == [x] + b && s[1..] == b && (a + [x])[0] == x;
    } else {
      assert (a + [x])[0] == a[0] && (a + [x])[1..] == a[1..] + [x];
      assert s[1..] == a[1..] + [x] + b;
      PutRight(a[1..], x, b, d);
    }
  }

  lemma {:induction false} PutThere(a: seq<Data>, x: Data, b: seq<Data>, d: Data)
    requires Below(a, d.key) && d.key == x.key
    ensures Put(a + [x] + b, d) == a + [x] + b
  {
    if a == [] {
      assert a + [x] + b == [x] + b;
    } else {
      assert (a + [x] + b)[1..] == a[1..] + [x] + b;
      PutThere(a[1..], x, b, d);
    }
  }

  lemma {:induction false} WithoutLeft(a: seq<Data>, x: Data, b: seq<Data>, key: int)
    requires key < x.key && Above(b, key)
    ensures Without(a + [x] + b, key) == Without(a, key) + [x] + b
  {
    if a == [] {
      WithoutNone([x] + b, key);
      assert a + [x] + b == [x] + b;
    } else {
      assert (a + [x] + b)[1..] == a[1..] + [x] + b;
      WithoutLeft(a[1..], x, b, key);
    }
  }

  lemma {:induction false} WithoutNone(s: seq<Data>, key: int)
    requires forall i :: 0 <= i < |s| ==> s[i].key != key
    ensures Without(s, key) == s
  {
    if s != [] { WithoutNone(s[1..], key); }
  }

  lemma WithFirst(a: seq<Data>, b: seq<Data>)
    requires a != []
    ensures a + b == [a[0]] + (a[1..] + b)
  {
  }

  lemma {:induction false} WithoutRight(a: seq<Data>, x: Data, b: seq<Data>, key: int)
    requires Below(a, key) && x.key <= key
    ensures Without(a + [x] + b, key) == if x.key == key then a + b else a + [x] + Without(b, key)
  {
    var s := a + [x] + b;
    if a == [] {
      assert s[0] == x && s[1..] == b && a + b == b;
      assert a + [x] + Without(b, key) == [x] + Without(b, key);
    } else {
      assert a[0].key < key && s[0] == a[0] && s[1..] == a[1..] + [x] + b;
      WithoutRight(a[1..], x, b, key);
      assert Without(s, key) == [a[0]] + Without(s[1..], key);
      WithFirst(a, b);
      WithFirst(a, [x]);
      assert a + [x] + Without(b, key) == [a[0]] + (a[1..] + [x] + Without(b, key));
    }
  }

  /** How many records come before `key`. */
  ghost function Place(s: seq<Data>, key: int): (k: nat)
    ensures k <= |s|
  {
    if s == [] || key <= s[0].key then 0 else 1 + Place(s[1..], key)
  }

  lemma {:induction false} PlaceSplits(s: seq<Data>, d: Data)
    requires Ascending(s) && forall i :: 0 <= i < |s| ==> s[i].key != d.key
    ensures var k := Place(s, d.key); Below(s[..k], d.key) && Above(s[k..], d.key) && Put(s, d) == s[..k] + [d] + s[k..]
  {
    PlaceBounds(s, d.key);
    PutsThere(s, d);
  }

  lemma {:induction false} PlaceBounds(s: seq<Data>, key: int)
    requires Ascending(s) && forall i :: 0 <= i < |s| ==> s[i].key != key
    ensures var k := Place(s, key); Below(s[..k], key) && Above(s[k..], key)
  {
    if s != [] && key > s[0].key {
      var k, rest := Place(s, key), s[1..];
      PlaceBounds(rest, key);
      assert s[..k] == [s[0]] + rest[..k - 1] && s[k..] == rest[k - 1..];
    }
  }

  lemma {:induction false} PutsThere(s: seq<Data>, d: Data)
    requires forall i :: 0 <= i < |s| ==> s[i].key != d.key
    ensures var k := Place(s, d.key); Put(s, d) == s[..k] + [d] + s[k..]
  {
    if s != [] && d.key > s[0].key {
      var k, rest := Place(s, d.key), s[1..];
      PutsThere(rest, d);
      hide Place;
      assert s[..k] + [d] + s[k..] == [s[0]] + (rest[..k - 1] + [d] + rest[k - 1..]);
    }
  }

  /** `Put` adds to the map unless the key is there; the run stays sorted. */
  lemma PutIsAdd(s: seq<Data>, d: Data)
    requires Ascending(s)
    ensures Ascending(Put(s, d))
    ensures AsMap(Put(s, d)) == if d.key in AsMap(s) then AsMap(s) else AsMap(s)[d.key := d]
    ensures |Put(s, d)| == if d.key in AsMap(s) then |s| else |s| + 1
  {
    if i :| 0 <= i < |s| && s[i].key == d.key {
      assert s == s[..i] + [s[i]] + s[i + 1..] && s[i] in s;
      PutThere(s[..i], s[i], s[i + 1..], d);
    } else {
      PlaceSplits(s, d);
      var k := Place(s, d.key);
      assert s == s[..k] + s[k..];
      Added(s[..k], d, s[k..]);
    }
  }

  lemma HasKey(s: seq<Data>, key: int)
    requires Ascending(s)
    ensures key in AsMap(s) <==> exists i :: 0 <= i < |s| && s[i].key == key
  {
    if i :| 0 <= i < |s| && s[i].key == key { assert s[i] in s; }
  }

  lemma WithoutAt(s: seq<Data>, i: nat)
    requires Ascending(s) && i < |s|
    ensures var rest := Without(s, s[i].key);
      Ascending(rest) && AsMap(rest) == AsMap(s) - {s[i].key} && |rest| == |s| - 1
  {
    var a, d, b := s[..i], s[i], s[i + 1..];
    assert s == a + [d] + b;
    SplitAscending(a, d, b);
    WithoutRight(a, d, b, d.key);
    Removed(a, d, b);
  }

  lemma WithoutMissing(s: seq<Data>, key: int)
    requires Ascending(s) && key !in AsMap(s)
    ensures Without(s, key) == s && AsMap(s) - {key} == AsMap(s)
  {
    HasKey(s, key);
    WithoutNone(s, key);
  }

  /** `Without` removes from the map; the run stays sorted. */
  lemma WithoutIsRemove(s: seq<Data>, key: int)
    requires Ascending(s)
    ensures var rest := Without(s, key);
      && Ascending(rest) && AsMap(rest) == AsMap(s) - {key}
      && |rest| == if key in AsMap(s) then |s| - 1 else |s|
  {
    HasKey(s, key);
    hide AsMap, Without, Ascending;
    if key in AsMap(s) {
      var i :| 0 <= i < |s| && s[i].key == key;
      WithoutAt(s, i);
    } else {
      WithoutMissing(s, key);
    }
  }

  // ---------------------------------------------------------------- at one node

  function Max(a: int, b: int): int { if a > b then a else b }

  /** Each side of a sorted tree is sorted, and on its side of the record at the root. */
  lemma Halves(t: Tree<int>)
    requires t.Fork? && Ascending(InOrder(t))
    ensures Ascending(InOrder(t.left)) && Ascending(InOrder(t.right))
    ensures Below(InOrder(t.left), t.data.key) && Above(InOrder(t.right), t.data.key)
  {
    var a, b := InOrder(t.left), InOrder(t.right);
    assert InOrder(t) == a + [t.data] + b;
    hide InOrder;
    SplitAscending(a, t.data, b);
    AscendingParts(a, b);
  }

  lemma AscendingParts(a: seq<Data>, b: seq<Data>)
    requires Ascending(a + b)
    ensures Ascending(a) && Ascending(b)
  {
    assert forall i :: 0 <= i < |a| ==> (a + b)[i] == a[i];
    assert forall i :: 0 <= i < |b| ==> (a + b)[|a| + i] == b[i];
  }

  lemma PutInLeft(t: Tree<int>, d: Data)
    requires t.Fork? && Ascending(InOrder(t)) && d.key < t.data.key
    ensures Put(InOrder(t), d) == Put(InOrder(t.left), d) + [t.data] + InOrder(t.right)
    ensures |InOrder(t)| == |InOrder(t.left)| + 1 + |InOrder(t.right)| && Ascending(InOrder(t.left))
    ensures t.left.Leaf? ==> Put(InOrder(t.left), d) == [d] && InOrder(t.left) == []
  {
    Halves(t);
    PutLeft(InOrder(t.left), t.data, InOrder(t.right), d);
  }

  lemma PutInRight(t: Tree<int>, d: Data)
    requires t.Fork? && Ascending(InOrder(t)) && t.data.key < d.key
    ensures Put(InOrder(t), d) == InOrder(t.left) + [t.data] + Put(InOrder(t.right), d)
    ensures |InOrder(t)| == |InOrder(t.left)| + 1 + |InOrder(t.right)| && Ascending(InOrder(t.right))
    ensures t.right.Leaf? ==> Put(InOrder(t.right), d) == [d] && InOrder(t.right) == []
  {
    Halves(t);
    PutRight(InOrder(t.left), t.data, InOrder(t.right), d);
  }

  /** Removing a key other than the root's touches one side only. */
  lemma WithoutSides(t: Tree<int>, key: int)
    requires t.Fork? && Ascending(InOrder(t)) && key != t.data.key
    ensures |InOrder(t)| == |InOrder(t.left)| + 1 + |InOrder(t.right)|
    ensures key < t.data.key ==> Without(InOrder(t), key) == Without(InOrder(t.left), key) + [t.data] + InOrder(t.right)
    ensures t.data.key < key ==> Without(InOrder(t), key) == InOrder(t.left) + [t.data] + Without(InOrder(t.right), key)
    ensures forall d :: d in InOrder(t.left) || d in InOrder(t.right) ==> d in InOrder(t)
  {
    Halves(t);
    if key < t.data.key {
      WithoutLeft(InOrder(t.left), t.data, InOrder(t.right), key);
    } else {
      WithoutRight(InOrder(t.left), t.data, InOrder(t.right), key);
    }
  }

  lemma LeftReplaced(t: Tree<int>, left: Tree<int>, d: Data)
    requires t.Fork?
    ensures InOrder(t.(left := left)) == InOrder(left) + [t.data] + InOrder(t.right)
    ensures InOrder(Fork(t.node, t.mark, left, d, t.right)) == InOrder(left) + [d] + InOrder(t.right)
    ensures left.Fork? && left.left.Leaf? && left.right.Leaf? ==> InOrder(left) == [left.data] && Levels(left) == 1
  {
  }

  lemma RightReplaced(t: Tree<int>, right: Tree<int>, d: Data)
    requires t.Fork?
    ensures InOrder(t.(right := right)) == InOrder(t.left) + [t.data] + InOrder(right)
    ensures InOrder(Fork(t.node, t.mark, t.left, d, right)) == InOrder(t.left) + [d] + InOrder(right)
    ensures right.Fork? && right.left.Leaf? && right.right.Leaf?
      ==> InOrder(right) == [right.data] && Levels(right) == 1
  {
  }

  lemma SameOrder(t: Tree<int>)
    requires t.Fork?
    ensures forall bf :: InOrder(t.(mark := bf)) == InOrder(t)
  {
  }

  lemma FirstHeld(n: Node<int>, d: Data, m: Memory<int>)
    requires m == map[n := Fields(AVL_EH, d, null, null, null)]
    ensures Holds(Top, Fork(n, AVL_EH, Leaf, d, Leaf), n, m, null)
    ensures InOrder(Fork(n, AVL_EH, Leaf, d, Leaf)) == [d] && Avl(Fork(n, AVL_EH, Leaf, d, Leaf))
  {
  }

  // ---------------------------------------------------------------- rotations in the heap

  /** Subtree `t.right` repainted in place. */
  lemma RightPainted(path: Path<int>, t: Tree<int>, mark: int, root: Node?<int>, m0: Memory<int>, m1: Memory<int>)
    requires t.Fork? && t.right.Fork? && Holds(path, t, root, m0, null)
    requires t.right.node in m0 && m1 == m0[t.right.node := m0[t.right.node].(mark := mark)]
    ensures Holds(path, t.(right := t.right.(mark := mark)), root, m1, null)
  {
    hide Holds;
    HoldsRight(path, t, root, m0, null);
    Painted(RightOf(path, t), t.right, mark, root, m0, m1, null);
    HoldsUp(RightOf(path, t), t.right.(mark := mark), root, m1, null);
  }

  lemma LeftPainted(path: Path<int>, t: Tree<int>, mark: int, root: Node?<int>, m0: Memory<int>, m1: Memory<int>)
    requires t.Fork? && t.left.Fork? && Holds(path, t, root, m0, null)
    requires t.left.node in m0 && m1 == m0[t.left.node := m0[t.left.node].(mark := mark)]
    ensures Holds(path, t.(left := t.left.(mark := mark)), root, m1, null)
  {
    hide Holds;
    HoldsLeft(path, t, root, m0, null);
    Painted(LeftOf(path, t), t.left, mark, root, m0, m1, null);
    HoldsUp(LeftOf(path, t), t.left.(mark := mark), root, m1, null);
  }

  /** What a step about the node `n` at the root of a subtree leaves where: the nodes it wrote, and the
      link above. */
  ghost predicate LinkAbove(path: Path<int>, n: Node<int>, heir: Node<int>, root0: Node?<int>, root1: Node?<int>,
      m0: Memory<int>, m1: Memory<int>)
  {
    && (if path.Top? then root1 == heir else root1 == root0)
    && (!path.Top? ==> path.node in m0 && path.node in m1 && m1[path.node] == Relinked(m0[path.node], n, heir))
  }

  lemma SpunLeftHeld(path: Path<int>, t: Tree<int>, mn: int, mr: int, root0: Node?<int>, root1: Node?<int>,
      m0: Memory<int>, m1: Memory<int>)
    requires t.Fork? && t.right.Fork? && Holds(path, t, root0, m0, null) && m1.Keys == m0.Keys
    requires LinkAbove(path, t.node, t.right.node, root0, root1, m0, m1)
    requires t.node in m0 && t.right.node in m0
    requires var n, r, b := t.node, t.right.node, RootOf(t.right.left, null);
      && m1[r] == m0[r].(parent := ParentOf(path, null), lchild := n, mark := mr)
      && m1[n] == m0[n].(parent := r, rchild := b, mark := mn)
      && (t.right.left.Fork? ==>
         t.right.left.node in m0 && m1[t.right.left.node]
         == m0[t.right.left.node].(parent := n))
      && Agree(m0, m1, m0.Keys - {ParentOf(path, null), n, r, b})
    ensures Holds(path, SpunLeft(t, mn, mr), root1, m1, null)
  {
    LeftReady(path, t, root0, m0, null);
    hide Holds;
    var n, r := t.node, t.right.node;
    var mA := m0[n := m0[n].(mark := mn)];
    var mB := mA[r := mA[r].(mark := mr)];
    var tA := t.(mark := mn);
    Painted(path, t, mn, root0, m0, mA, null);
    RightPainted(path, tA, mr, root0, mA, mB);
    RotatedLeft(path, tA.(right := t.right.(mark := mr)), root0, root1, mB, m1, null);
  }

  lemma SpunRightHeld(path: Path<int>, t: Tree<int>, mn: int, ml: int, root0: Node?<int>, root1: Node?<int>,
      m0: Memory<int>, m1: Memory<int>)
    requires t.Fork? && t.left.Fork? && Holds(path, t, root0, m0, null) && m1.Keys == m0.Keys
    requires LinkAbove(path, t.node, t.left.node, root0, root1, m0, m1)
    requires t.node in m0 && t.left.node in m0
    requires var n, l, b := t.node, t.left.node, RootOf(t.left.right, null);
      && m1[l] == m0[l].(parent := ParentOf(path, null), rchild := n, mark := ml)
      && m1[n] == m0[n].(parent := l, lchild := b, mark := mn)
      && (t.left.right.Fork? ==>
         t.left.right.node in m0 && m1[t.left.right.node]
         == m0[t.left.right.node].(parent := n))
      && Agree(m0, m1, m0.Keys - {ParentOf(path, null), n, l, b})
    ensures Holds(path, SpunRight(t, mn, ml), root1, m1, null)
  {
    RightReady(path, t, root0, m0, null);
    hide Holds;
    var n, l := t.node, t.left.node;
    var mA := m0[n := m0[n].(mark := mn)];
    var mB := mA[l := mA[l].(mark := ml)];
    var tA := t.(mark := mn);
    Painted(path, t, mn, root0, m0, mA, null);
    LeftPainted(path, tA, ml, root0, mA, mB);
    RotatedRight(path, tA.(left := t.left.(mark := ml)), root0, root1, mB, m1, null);
  }

  predicate Apart(x: Node?<int>, a: Node<int>, b: Node<int>, c: Node<int>) { x != a && x != b && x != c }

  /** What a double rotation about the root of `t` may rely on. */
  lemma TwistLeftReady(path: Path<int>, t: Tree<int>, root: Node?<int>, m: Memory<int>)
    requires t.Fork? && t.right.Fork? && t.right.left.Fork? && Holds(path, t, root, m, null)
    ensures var n, r, b, p := t.node, t.right.node, t.right.left.node, ParentOf(path, null);
      var x, y := RootOf(t.right.left.left, null), RootOf(t.right.left.right, null);
      && n in m && r in m && b in m && (x != null ==> x in m) && (y != null ==> y in m) && (p != null ==> p in m)
      && m[n].parent == p && m[n].rchild == r && m[n].lchild != r && m[r].lchild == b && m[b].lchild == x
         && m[b].rchild == y
      && m[b].mark == t.right.left.mark && (path.Top? <==> p == null)
      && n != r && n != b && r != b && Apart(x, n, r, b) && Apart(y, n, r, b) && Apart(p, n, r, b)
      && (x != null ==> x != y && x != p) && (y != null ==> y != p)
  {
    HoldsRight(path, t, root, m, null);
    HoldsLeft(RightOf(path, t), t.right, root, m, null);
    var b := t.right.left;
    RootInside(b.left);
    RootInside(b.right);
    RootInside(t.left);
    assert HoldsTree(b, t.right.node, m, null);
    assert TreeApart(b);
  }

  /** Repainting, then the rotation of the right child: the memory between the two rotations. */
  ghost function BetweenLeft(t: Tree<int>, mn: int, mr: int, m: Memory<int>): Memory<int>
    requires t.Fork? && t.right.Fork? && t.right.left.Fork?
  {
    var n, r, b, y := t.node, t.right.node, t.right.left.node, RootOf(t.right.left.right, null);
    map k | k in m ::
      if k == n then m[k].(mark := mn, rchild := b)
      else if k == r then m[k].(mark := mr, parent := b, lchild := y)
      else if k == b then m[k].(mark := AVL_EH, parent := n, rchild := r)
      else if k == y then m[k].(parent := r)
      else m[k]
  }

  lemma TwistLeftHalf(path: Path<int>, t: Tree<int>, mn: int, mr: int, root: Node?<int>, m: Memory<int>)
    requires t.Fork? && t.right.Fork? && t.right.left.Fork? && Holds(path, t, root, m, null)
    ensures var r := t.right;
      Holds(path, t.(mark := mn, right := RotateRight(r.(mark := mr, left := r.left.(mark := AVL_EH)))),
            root, BetweenLeft(t, mn, mr, m), null)
  {
    TwistLeftReady(path, t, root, m);
    hide Holds;
    var n := t.node;
    var mA, tA := m[n := m[n].(mark := mn)], t.(mark := mn);
    Painted(path, t, mn, root, m, mA, null);
    HoldsRight(path, tA, root, mA, null);
    var below, r := RightOf(path, tA), t.right;
    var mid := BetweenLeft(t, mn, mr, m);
    SpunRightHeld(below, r, mr, AVL_EH, root, root, mA, mid);
    HoldsUp(below, SpunRight(r, mr, AVL_EH), root, mid, null);
  }

  lemma TwistedLeftHeld(path: Path<int>, t: Tree<int>, mn: int, mr: int, root0: Node?<int>, root1: Node?<int>,
      m0: Memory<int>, m1: Memory<int>)
    requires t.Fork? && t.right.Fork? && t.right.left.Fork? && Holds(path, t, root0, m0, null) && m1.Keys == m0.Keys
    requires LinkAbove(path, t.node, t.right.left.node, root0, root1, m0, m1)
    requires t.node in m0 && t.right.node in m0 && t.right.left.node in m0
    requires var n, r, b := t.node, t.right.node, t.right.left.node;
      var x, y, p := RootOf(t.right.left.left, null), RootOf(t.right.left.right, null), ParentOf(path, null);
      && m1[b] == m0[b].(parent := p, lchild := n, rchild := r, mark := AVL_EH)
      && m1[n] == m0[n].(parent := b, rchild := x, mark := mn)
      && m1[r] == m0[r].(parent := b, lchild := y, mark := mr)
      && (x != null ==> x in m0 && m1[x] == m0[x].(parent := n))
         && (y != null ==> y in m0 && m1[y] == m0[y].(parent := r))
      && Agree(m0, m1, m0.Keys - {p, n, r, b, x, y})
    ensures Holds(path, TwistedLeft(t, mn, mr), root1, m1, null)
  {
    TwistLeftReady(path, t, root0, m0);
    TwistLeftHalf(path, t, mn, mr, root0, m0);
    hide Holds;
    var r := t.right;
    var mid := BetweenLeft(t, mn, mr, m0);
    RotatedLeft(path, t.(mark := mn, right := RotateRight(r.(mark := mr, left := r.left.(mark := AVL_EH)))),
                root0, root1, mid, m1, null);
  }

  /** What a double rotation about the root of `t` may rely on. */
  lemma TwistRightReady(path: Path<int>, t: Tree<int>, root: Node?<int>, m: Memory<int>)
    requires t.Fork? && t.left.Fork? && t.left.right.Fork? && Holds(path, t, root, m, null)
    ensures var n, l, b, p := t.node, t.left.node, t.left.right.node, ParentOf(path, null);
      var x, y := RootOf(t.left.right.right, null), RootOf(t.left.right.left, null);
      && n in m && l in m && b in m && (x != null ==> x in m) && (y != null ==> y in m) && (p != null ==> p in m)
      && m[n].parent == p && m[n].lchild == l && m[n].rchild != l && m[l].rchild == b && m[b].rchild == x
         && m[b].lchild == y
      && m[b].mark == t.left.right.mark && (path.Top? <==> p == null)
      && n != l && n != b && l != b && Apart(x, n, l, b) && Apart(y, n, l, b) && Apart(p, n, l, b)
      && (x != null ==> x != y && x != p) && (y != null ==> y != p)
  {
    HoldsLeft(path, t, root, m, null);
    HoldsRight(LeftOf(path, t), t.left, root, m, null);
    var b := t.left.right;
    RootInside(b.right);
    RootInside(b.left);
    RootInside(t.right);
    assert HoldsTree(b, t.left.node, m, null);
    assert TreeApart(b);
  }

  /** Repainting, then the rotation of the left child: the memory between the two rotations. */
  ghost function BetweenRight(t: Tree<int>, mn: int, ml: int, m: Memory<int>): Memory<int>
    requires t.Fork? && t.left.Fork? && t.left.right.Fork?
  {
    var n, l, b, y := t.node, t.left.node, t.left.right.node, RootOf(t.left.right.left, null);
    map k | k in m ::
      if k == n then m[k].(mark := mn, lchild := b)
      else if k == l then m[k].(mark := ml, parent := b, rchild := y)
      else if k == b then m[k].(mark := AVL_EH, parent := n, lchild := l)
      else if k == y then m[k].(parent := l)
      else m[k]
  }

  lemma TwistRightHalf(path: Path<int>, t: Tree<int>, mn: int, ml: int, root: Node?<int>, m: Memory<int>)
    requires t.Fork? && t.left.Fork? && t.left.right.Fork? && Holds(path, t, root, m, null)
    ensures var l := t.left;
      Holds(path, t.(mark := mn, left := RotateLeft(l.(mark := ml, right := l.right.(mark := AVL_EH)))),
            root, BetweenRight(t, mn, ml, m), null)
  {
    TwistRightReady(path, t, root, m);
    hide Holds;
    var n := t.node;
    var mA, tA := m[n := m[n].(mark := mn)], t.(mark := mn);
    Painted(path, t, mn, root, m, mA, null);
    HoldsLeft(path, tA, root, mA, null);
    var below, l := LeftOf(path, tA), t.left;
    var mid := BetweenRight(t, mn, ml, m);
    SpunLeftHeld(below, l, ml, AVL_EH, root, root, mA, mid);
    HoldsUp(below, SpunLeft(l, ml, AVL_EH), root, mid, null);
  }

  lemma TwistedRightHeld(path: Path<int>, t: Tree<int>, mn: int, ml: int, root0: Node?<int>, root1: Node?<int>,
      m0: Memory<int>, m1: Memory<int>)
    requires t.Fork? && t.left.Fork? && t.left.right.Fork? && Holds(path, t, root0, m0, null) && m1.Keys == m0.Keys
    requires LinkAbove(path, t.node, t.left.right.node, root0, root1, m0, m1)
    requires t.node in m0 && t.left.node in m0 && t.left.right.node in m0
    requires var n, l, b := t.node, t.left.node, t.left.right.node;
      var x, y, p := RootOf(t.left.right.right, null), RootOf(t.left.right.left, null), ParentOf(path, null);
      && m1[b] == m0[b].(parent := p, rchild := n, lchild := l, mark := AVL_EH)
      && m1[n] == m0[n].(parent := b, lchild := x, mark := mn)
      && m1[l] == m0[l].(parent := b, rchild := y, mark := ml)
      && (x != null ==> x in m0 && m1[x] == m0[x].(parent := n))
         && (y != null ==> y in m0 && m1[y] == m0[y].(parent := l))
      && Agree(m0, m1, m0.Keys - {p, n, l, b, x, y})
    ensures Holds(path, TwistedRight(t, mn, ml), root1, m1, null)
  {
    TwistRightReady(path, t, root0, m0);
    TwistRightHalf(path, t, mn, ml, root0, m0);
    hide Holds;
    var l := t.left;
    var mid := BetweenRight(t, mn, ml, m0);
    RotatedRight(path, t.(mark := mn, left := RotateLeft(l.(mark := ml, right := l.right.(mark := AVL_EH)))),
                root0, root1, mid, m1, null);
  }

  // ---------------------------------------------------------------- down the right edge of a left side

  /** `path` goes from below `base` only to the right. */
  ghost predicate RightSpine(path: Path<int>, base: Path<int>) {
    path == base || (path.InRight? && RightSpine(path.up, base))
  }

  lemma {:induction false} SpineIn(path: Path<int>, base: Path<int>, child: Node?<int>, root: Node?<int>,
      m: Memory<int>)
    requires base.InLeft? && RightSpine(path, base) && PathApart(path) && HoldsPath(path, child, root, m, null)
    requires child !in PathNodes(path)
    ensures OnSpine(path, base.node) && base.node in m && base.node in PathNodes(path)
    ensures if path == base then m[base.node].lchild == child else m[base.node].lchild in PathNodes(path)
    decreases path
  {
    if path != base { SpineIn(path.up, base, path.node, root, m); }
  }
}
