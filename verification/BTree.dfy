/** The B-tree of `btree.c`: insertion with splits that climb the parent links, and queries. */
module BTree {
  import opened Records
  import opened BShape
  import opened BNodes
  import opened BSplit
  import opened BNeeds

  // ---------------------------------------------------------------- steps on single nodes

  /** `btree_key_bsearch`: the key, or a neighbour of the place where it would be. */
  method BSearch(keys: seq<int>, num: nat, key: int) returns (mid: nat)
    requires num <= |keys| && forall i, j :: 0 <= i < j < num ==> keys[i] < keys[j]
    ensures num > 0 ==> mid < num
    ensures num > 0 && key < keys[mid] ==> forall i :: 0 <= i < mid ==> keys[i] < key
    ensures num > 0 && keys[mid] < key ==> forall i :: mid < i < num ==> key < keys[i]
    ensures num == 0 ==> mid == 0
  {
    var low, high := 0, num - 1;
    mid := 0;
    while high >= low
      invariant 0 <= low <= high + 1 <= num
      invariant forall i :: 0 <= i < low ==> keys[i] < key
      invariant forall i :: high < i < num ==> key < keys[i]
      invariant num > 0 ==> mid < num
      invariant num == 0 ==> mid == 0
      invariant low <= high || num == 0 || mid == low || mid == high
      invariant low > high && num > 0 ==> if mid == low then key < keys[mid] else keys[mid] < key
      decreases high - low
    {
      mid := (low + high) / 2;
      if key == keys[mid] {
        return mid;
      } else if key < keys[mid] {
        high := mid - 1;
        continue;
      }
      low := mid + 1;
    }
  }

  ghost predicate IsInserted(f: Fields, g: Fields, i: nat, key: int, data: int) {
    && i <= f.num && f.num + 1 <= |f.key| && |g.key| == |f.key| && |g.data| == |f.data| == |f.key|
    && g.num == f.num + 1 && g.parent == f.parent && g.child == f.child
    && (forall j {:trigger g.key[j]} :: 0 <= j <= f.num ==> g.key[j] == if j < i then f.key[j] else if j == i then key
       else f.key[j - 1])
    && (forall j {:trigger g.data[j]} :: 0 <= j <= f.num ==> g.data[j] == if j < i then f.data[j]
       else if j == i then data else f.data[j - 1])
  }

  lemma InsertedRecs(f: Fields, g: Fields, i: nat, key: int, data: int)
    requires IsInserted(f, g, i, key, data)
    ensures Recs(g) == Recs(f)[..i] + [Data(key, data)] + Recs(f)[i..]
  {
    var s := Recs(f)[..i] + [Data(key, data)] + Recs(f)[i..];
    forall j | 0 <= j < g.num ensures Recs(g)[j] == s[j] {
      assert s[j] == if j < i then Recs(f)[j] else if j == i then Data(key, data) else Recs(f)[j - 1];
    }
  }

  /** The first part of `_btree_insert`. */
  method InsertInto(node: Node, key: int, idx: nat, data: int, ghost m: Store) returns (ghost m': Store)
    requires Holds(m) && node in m.Keys && idx <= node.num < |node.key| == |node.data|
    modifies node
    ensures Holds(m') && node in m'.Keys && m' == m[node := m'[node]] && IsInserted(m[node], m'[node], idx, key, data)
  {
    ghost var f := node.All();
    assert f == m[node];
    var i := node.num;
    while i > idx
      invariant idx <= i <= f.num && node.All() == f.(key := node.key, data := node.data)
      invariant |node.key| == |f.key| && |node.data| == |f.data|
      invariant forall j {:trigger node.key[j]} :: 0 <= j <= f.num && j != i ==> node.key[j] == if j < i then f.key[j]
        else f.key[j - 1]
      invariant forall j {:trigger node.data[j]} :: 0 <= j <= f.num && j != i ==>
        node.data[j] == if j < i then f.data[j] else f.data[j - 1]
    {
      node.key := node.key[i := node.key[i - 1]];
      node.data := node.data[i := node.data[i - 1]];
      i := i - 1;
    }
    node.key := node.key[idx := key];
    node.data := node.data[idx := data];
    node.num := node.num + 1;
    m' := m[node := node.All()];
  }

  /** The upper part of an overfull node copied into a new one. */
  method CutOff(node: Node, node2: Node, sep: nat, max: nat, ghost m: Store) returns (ghost m': Store)
    requires Holds(m) && node in m.Keys && node2 !in m.Keys && Sized(max, m[node]) && sep < node.num == max + 1
    requires node2.All() == Fields(0, Zeros(max + 1), Zeros(max + 1), Nulls(max + 2), null)
    modifies node, node2
    ensures Holds(m') && node2 in m'.Keys && m' == m[node := m[node].(num := sep)][node2 := m'[node2]]
    ensures IsRight(m[node], m'[node2], sep) && m'[node2].parent == m[node].parent
  {
    hide IsRight;
    var total := node.num;
    assert node.All() == m[node];
    CopyIsRight(m[node], sep, max);
    node2.key := node.key[sep + 1..total] + node2.key[total - sep - 1..];
    node2.data := node.data[sep + 1..total] + node2.data[total - sep - 1..];
    node2.child := node.child[sep + 1..total + 1] + node2.child[total - sep..];
    node2.num := total - sep - 1;
    node2.parent := node.parent;
    node.num := sep;
    m' := m[node := m[node].(num := sep)][node2 := node2.All()];
  }

  lemma CopyIsRight(f: Fields, sep: nat, max: nat)
    requires Sized(max, f) && sep < f.num == max + 1
    ensures IsRight(f, Fields(f.num - sep - 1, f.key[sep + 1..f.num] + Zeros(max + 1)[f.num - sep - 1..],
                              f.data[sep + 1..f.num] + Zeros(max + 1)[f.num - sep - 1..],
                              f.child[sep + 1..f.num + 1] + Nulls(max + 2)[f.num - sep..], f.parent), sep)
  {
  }

  /** The places after the cut cleared. */
  method Clear(node: Node, sep: nat, total: nat, max: nat, ghost f: Fields, ghost m: Store) returns (ghost m': Store)
    requires Holds(m) && node in m.Keys && Sized(max, f) && sep < total == f.num == max + 1
      && m[node] == f.(num := sep, parent := m[node].parent)
    modifies node
    ensures Holds(m') && node in m'.Keys && m' == m[node := m'[node]] && IsLeft(f, m'[node], sep)
      && m'[node].parent == m[node].parent
  {
    assert node.All() == m[node];
    node.key := node.key[..sep] + Zeros(total - sep);
    node.data := node.data[..sep] + Zeros(total - sep);
    node.child := node.child[..sep + 1] + Nulls(total - sep);
    m' := m[node := node.All()];
  }

  ghost function Adopted(m: Store, node2: Node, kids: seq<Tree>): (m': Store)
    ensures m'.Keys == m.Keys
  {
    map n | n in m.Keys :: if InHeads(n, kids) then m[n].(parent := node2) else m[n]
  }

  /** The new node's children learn of it. */
  method Adopt(node2: Node, ghost m: Store, ghost kids: seq<Tree>)
    requires Holds(m) && node2 in m.Keys && node2.num < |node2.child|
    requires if kids == [] then forall i :: 0 <= i <= node2.num ==> node2.child[i] == null
             else
               && |kids| == node2.num + 1
               && forall i :: 0 <= i < |kids| ==>
                 node2.child[i] == kids[i].node && kids[i].node in m.Keys
    modifies m.Keys
    ensures Holds(Adopted(m, node2, kids))
  {
    var children, num := node2.child, node2.num;
    assert kids[..0] == [];
    for idx := 0 to num + 1
      invariant kids == [] || Holds(Adopted(m, node2, kids[..idx]))
      invariant kids == [] ==> Holds(m)
    {
      if children[idx] != null {
        AdoptedMore(m, node2, kids, idx);
        children[idx].parent := node2;
      }
    }
    assert kids[..|kids|] == kids;
    if kids == [] { assert Adopted(m, node2, kids) == m; }
  }

  lemma AdoptedMore(m: Store, node2: Node, kids: seq<Tree>, i: nat)
    requires i < |kids| && kids[i].node in m.Keys
    ensures var n := kids[i].node;
      && n in Adopted(m, node2, kids[..i]).Keys
      && Adopted(m, node2, kids[..i + 1])
         == Adopted(m, node2, kids[..i])[n := Adopted(m, node2, kids[..i])[n].(parent := node2)]
  {
    forall n ensures InHeads(n, kids[..i + 1]) <==> InHeads(n, kids[..i]) || n == kids[i].node {
      if InHeads(n, kids[..i + 1]) {
        var j :| 0 <= j < i + 1 && kids[..i + 1][j].node == n;
        if j < i { assert kids[..i][j].node == n; }
      }
      if InHeads(n, kids[..i]) {
        var j :| 0 <= j < i && kids[..i][j].node == n;
        assert kids[..i + 1][j].node == n;
      }
      assert kids[..i + 1][i].node == kids[i].node;
    }
  }

  /** The separating record and the new node put into the parent, at the place found from the right. */
  method PutRecord(parent: Node, key: int, data: int, node2: Node, ghost max: nat) returns (ghost pos: nat)
    requires Sized(max, parent.All()) && parent.num <= max
    modifies parent
    ensures pos <= old(parent.num) && IsWidened(old(parent.All()), parent.All(), pos, key, data, node2)
    ensures (pos > 0 ==> old(parent.key)[pos - 1] <= key)
      && forall j :: pos <= j < old(parent.num) ==>
        key < old(parent.key)[j]
  {
    hide IsWidened, Shifted;
    ghost var f := parent.All();
    var idx := parent.num;
    NotShifted(f.key, idx);
    NotShifted(f.data, idx);
    NotShifted(f.child, idx + 1);
    while idx > 0 && key < parent.key[idx - 1]
      invariant 0 <= idx <= f.num && parent.num == f.num && parent.parent == f.parent
      invariant Shifted(f.key, parent.key, idx, f.num) && Shifted(f.data, parent.data, idx, f.num)
      invariant Shifted(f.child, parent.child, idx + 1, f.num + 1)
      invariant |parent.key| == |f.key| && |parent.data| == |f.data| && |parent.child| == |f.child|
      invariant forall j :: idx <= j < f.num ==> key < f.key[j]
    {
      ShiftMore(f.key, parent.key, idx, f.num);
      ShiftMore(f.data, parent.data, idx, f.num);
      ShiftMore(f.child, parent.child, idx + 1, f.num + 1);
      parent.key := parent.key[idx := parent.key[idx - 1]];
      parent.data := parent.data[idx := parent.data[idx - 1]];
      parent.child := parent.child[idx + 1 := parent.child[idx]];
      idx := idx - 1;
    }
    if idx > 0 { ShiftMore(f.key, parent.key, idx, f.num); }
    ghost var keys, datas, children := parent.key, parent.data, parent.child;
    parent.key := parent.key[idx := key];
    parent.data := parent.data[idx := data];
    parent.child := parent.child[idx + 1 := node2];
    parent.num := parent.num + 1;
    pos := idx;
    ShiftedIsWidened(f, keys, datas, children, idx, key, data, node2);
  }

  /** `t` is `s` with the entries from place `i` up to `n - 1` one place further up. */
  ghost predicate Shifted<T>(s: seq<T>, t: seq<T>, i: nat, n: nat) {
    && i <= n < |s| == |t|
    && forall j {:trigger t[j]} :: 0 <= j <= n && j != i ==> t[j] == if j < i then s[j] else s[j - 1]
  }

  lemma NotShifted<T>(s: seq<T>, n: nat)
    requires n < |s|
    ensures Shifted(s, s, n, n)
  {
  }

  lemma ShiftMore<T>(s: seq<T>, t: seq<T>, i: nat, n: nat)
    requires Shifted(s, t, i, n) && i > 0
    ensures |s| == |t| && i < |t| && t[i - 1] == s[i - 1] && Shifted(s, t[i := t[i - 1]], i - 1, n)
  {
  }

  lemma ShiftedIsWidened(f: Fields, keys: seq<int>, datas: seq<int>, children: seq<Node?>, i: nat, key: int, data: int,
      child: Node)
    requires Shifted(f.key, keys, i, f.num) && Shifted(f.data, datas, i, f.num)
      && Shifted(f.child, children, i + 1, f.num + 1)
    requires |f.key| == |f.data|
    ensures i < |keys| && i < |datas| && i + 1 < |children|
    ensures IsWidened(f, Fields(f.num + 1, keys[i := key], datas[i := data], children[i + 1 := child], f.parent), i,
      key, data, child)
  {
  }

  method HangIn(parent: Node, key: int, data: int, node2: Node, ghost m: Store, ghost max: nat)
      returns (ghost m': Store, ghost pos: nat)
    requires Holds(m) && parent in m.Keys && node2 in m.Keys && node2 != parent && Sized(max, m[parent])
      && m[parent].num <= max
    modifies parent, node2`parent
    ensures node2 in m'.Keys && parent in m'.Keys && Holds(m')
      && m' == m[parent := m'[parent]][node2 := m[node2].(parent := parent)]
    ensures pos <= m[parent].num && IsWidened(m[parent], m'[parent], pos, key, data, node2)
    ensures (pos > 0 ==> m[parent].key[pos - 1] <= key)
      && forall j :: pos <= j < m[parent].num ==>
        key < m[parent].key[j]
  {
    hide IsWidened;
    assert parent.All() == m[parent] && node2.All() == m[node2];
    pos := PutRecord(parent, key, data, node2, max);
    node2.parent := parent;
    m' := m[parent := parent.All()][node2 := node2.All()];
  }

  /** A root over the two halves of the old one. */
  method HangRoot(parent: Node, node: Node, node2: Node, sep: nat, max: nat, ghost m: Store) returns (ghost m': Store)
    requires Holds(m) && node in m.Keys && node2 in m.Keys && node != node2 && parent !in m.Keys && max >= 1
    requires sep < |node.key| && sep < |node.data| && parent.All()
      == Fields(0, Zeros(max + 1), Zeros(max + 1), Nulls(max + 2), null)
    modifies parent, node`parent, node2`parent
    ensures parent in m'.Keys && Holds(m')
    ensures m' == m[node := m[node].(parent := parent)][node2 := m[node2].(parent := parent)][parent := m'[parent]]
    ensures IsNewRoot(m'[parent], max, old(node.key)[sep], old(node.data)[sep], node, node2)
  {
    assert node.All() == m[node] && node2.All() == m[node2];
    parent.child := parent.child[0 := node];
    node.parent := parent;
    node2.parent := parent;
    parent.key := parent.key[0 := node.key[sep]];
    parent.data := parent.data[0 := node.data[sep]];
    parent.child := parent.child[1 := node2];
    parent.num := parent.num + 1;
    m' := m[node := node.All()][node2 := node2.All()][parent := parent.All()];
  }

  ghost predicate IsNewRoot(f: Fields, max: nat, key: int, data: int, node: Node, node2: Node) {
    && Sized(max, f) && f.num == 1 && f.parent == null && f.key[0] == key && f.data[0] == data
    && f.child[0] == node && f.child[1] == node2
  }

  /** A node with one record. */
  method NewLeaf(max: nat, key: int, data: int) returns (node: Node)
    ensures fresh(node) && node.All()
      == Fields(1, Zeros(max + 1)[0 := key], Zeros(max + 1)[0 := data], Nulls(max + 2), null)
  {
    node := new Node(max);
    node.num := 1;
    node.key := node.key[0 := key];
    node.data := node.data[0 := data];
    node.parent := null;
  }

  lemma OneNodeHolds(m: Store, node: Node)
    requires m == map[node := node.All()]
    ensures Holds(m)
  {
  }

  /** The fields of a node as the memory holds them. */
  ghost predicate Reads(m: Store, n: Node)
    reads n
  {
    && n in m.Keys && n.num == m[n].num && n.key == m[n].key && n.data == m[n].data
    && n.child == m[n].child && n.parent == m[n].parent
  }

  lemma HeldFields(m: Store, n: Node)
    requires Holds(m) && n in m.Keys
    ensures Reads(m, n) && n.num == m[n].num && n.key == m[n].key && n.data == m[n].data && n.child == m[n].child
      && n.parent == m[n].parent
  {
    assert n.All() == m[n];
  }

  // ---------------------------------------------------------------- the tree

  class BTree {
    const o: Order
    var root: Node?
    ghost var m: Store
    ghost var tree: Option<Tree>
    ghost var height: nat

    /** All the nodes linked as one ordered tree, from which `root` and `parent` links lead; its shape aside. */
    ghost predicate Linked(t: Tree)
      reads this
    {
      && tree == Some(t) && root == t.node && BShape.Valid(o)
      && root in m.Keys && m[root].parent == null && Rep(m, t, o.max) && Ascending(InOrder(AsBT(m, t)))
    }

    ghost predicate Valid()
      reads this, m.Keys
    {
      && BShape.Valid(o) && Holds(m)
      && if root == null then tree == None
         else tree.Some? && Linked(tree.value) && Whole(o, AsBT(m, tree.value), height)
    }

    ghost function Contents(): map<int, Data>
      reads this
    {
      match tree
      case None => map[]
      case Some(t) => if Ascending(InOrder(AsBT(m, t))) then AsMap(InOrder(AsBT(m, t))) else map[]
    }

    /** `btree_creat`, for an order it accepts. */
    constructor (order: nat)
      requires order >= 3
      ensures Valid() && Contents() == map[] && o == OrderOf(order) && fresh(m.Keys)
    {
      OrderIsRight(order);
      o := OrderOf(order);
      root, m, tree, height := null, map[], None, 0;
    }

    /** What a search knows of the node at place `p`. */
    ghost predicate Searching(t: Tree, p: seq<nat>, node: Node, key: int)
      reads this
    {
      && Linked(t) && At(t, p) && Under(t, p).node == node && Path(AsBT(m, t), p) && Narrowed(AsBT(m, t), p, key)
    }

    lemma StartsSearch(t: Tree, key: int)
      requires Linked(t)
      ensures Searching(t, [], t.node, key)
    {
      hide Rep, AsBT, InOrder;
    }

    /** The fields of that node as its records, in order. */
    lemma NodeIs(t: Tree, p: seq<nat>, node: Node, key: int)
      requires Searching(t, p, node, key)
      ensures node in m.Keys && Sized(o.max, m[node]) && Rep(m, Under(t, p), o.max) && Rooted(m, Under(t, p), o.max)
      ensures var y := Sub(AsBT(m, t), p);
        && y == AsBT(m, Under(t, p)) && y.recs == Recs(m[node]) && |y.kids| == |Under(t, p).kids|
        && (y.kids == [] || |y.kids| == |y.recs| + 1)
      ensures forall i, j :: 0 <= i < j < m[node].num ==> m[node].key[i] < m[node].key[j]
    {
      hide Rep, AsBT, InOrder, Ascending;
      UnderIs(m, t, p, o.max);
      RepParts(m, Under(t, p), o.max);
      var y := Sub(AsBT(m, t), p);
      SubInOrder(AsBT(m, t), p);
      AscendingApart(Ahead(AsBT(m, t), p), InOrder(y), Behind(AsBT(m, t), p), 0);
      RecsAscending(y);
      RecsOrdered(m[node]);
    }

    lemma SearchFinds(t: Tree, p: seq<nat>, node: Node, key: int, i: nat)
      requires Searching(t, p, node, key) && node in m.Keys && i < m[node].num && i < |m[node].key|
        && i < |m[node].data| && m[node].key[i] == key
      ensures Lookup(Contents(), key) == Some(Data(key, m[node].data[i]))
    {
      hide Rep, AsBT, InOrder, Ascending, AsMap, Lookup;
      NodeIs(t, p, node, key);
      Found(AsBT(m, t), p, i);
    }

    /** The child at the place of the key, or the end of the search at a leaf. */
    lemma SearchMoves(t: Tree, p: seq<nat>, node: Node, key: int, c: nat)
      requires Searching(t, p, node, key) && node in m.Keys && c <= m[node].num < |m[node].child|
        && m[node].num <= |m[node].key|
      requires (c > 0 ==> m[node].key[c - 1] < key) && (c < m[node].num ==> key < m[node].key[c])
      ensures m[node].child[c] == null ==> Under(t, p).kids == [] && Lookup(Contents(), key) == None
      ensures m[node].child[c] != null ==>
        c < |Under(t, p).kids| && Searching(t, p + [c], m[node].child[c], key)
        && Under(t, p + [c]) == Under(t, p).kids[c]
    {
      hide Rep, AsBT, InOrder, Ascending, AsMap, Lookup;
      NodeIs(t, p, node, key);
      if Under(t, p).kids == [] {
        LeafMisses(AsBT(m, t), p, c, Data(key, 0));
      } else {
        KidParent(m, Under(t, p), o.max, c);
        NarrowedMore(AsBT(m, t), p, c, key);
        UnderMore(t, p, c);
      }
    }

    lemma AtTheRoot(key: int)
      requires Valid()
      ensures Holds(m) && BShape.Valid(o)
      ensures root == null ==> Contents() == map[] && Lookup(Contents(), key) == None && tree == None
      ensures root != null ==>
        tree.Some? && Searching(tree.value, [], root, key)
        && Whole(o, AsBT(m, tree.value), height)
    {
      hide Rep, AsBT, InOrder, Ascending, AsMap;
      if root != null { StartsSearch(tree.value, key); }
    }

    /** What is left to search through. */
    ghost function Left(p: seq<nat>, node: Node?): nat
      reads this
    {
      if node == null || tree.None? || !At(tree.value, p) then 0 else 1 + Size(Under(tree.value, p))
    }

    lemma LeftLess(p: seq<nat>, c: nat, node: Node, next: Node?)
      requires tree.Some? && At(tree.value, p) && c < |Under(tree.value, p).kids|
      requires At(tree.value, p + [c]) && Under(tree.value, p + [c]) == Under(tree.value, p).kids[c]
      ensures Left(p + [c], next) < Left(p, node)
    {
      SizeLess(Under(tree.value, p), c);
    }

    /** The fields of the node as the memory holds them. */
    lemma SearchNode(p: seq<nat>, node: Node, key: int)
      requires Holds(m) && tree.Some? && Searching(tree.value, p, node, key)
      ensures node in m.Keys && Reads(m, node) && Sized(o.max, m[node]) && At(tree.value, p)
      ensures node.num == m[node].num <= o.max + 1 == |node.key| == |node.data| && |node.child| == o.max + 2
      ensures forall i, j :: 0 <= i < j < m[node].num ==> m[node].key[i] < m[node].key[j]
    {
      NodeIs(tree.value, p, node, key);
      hide Rep, AsBT, InOrder;
    }

    /** `btree_query`. */
    method Query(key: int) returns (data: Option<int>)
      requires Valid()
      ensures data == match Lookup(Contents(), key) { case None => None case Some(d) => Some(d.payload) }
    {
      hide Holds, Linked, Searching, Contents, Lookup, Left, At, Under;
      AtTheRoot(key);
      var node := root;
      ghost var p: seq<nat> := [];
      while node != null
        invariant Holds(m) && if node == null then Lookup(Contents(), key) == None
          else tree.Some? && Searching(tree.value, p, node, key)
        decreases Left(p, node)
      {
        SearchNode(p, node, key);
        var idx := BSearch(node.key, node.num, key);
        if key == node.key[idx] {
          SearchFinds(tree.value, p, node, key, idx);
          return Some(node.data[idx]);
        } else if key < node.key[idx] {
          SearchMoves(tree.value, p, node, key, idx);
          NextLeft(p, idx, node, node.child[idx], key);
          node, p := node.child[idx], p + [idx];
          continue;
        }
        SearchMoves(tree.value, p, node, key, idx + 1);
        NextLeft(p, idx + 1, node, node.child[idx + 1], key);
        node, p := node.child[idx + 1], p + [idx + 1];
      }
      return None;
    }

    lemma NextLeft(p: seq<nat>, c: nat, node: Node, next: Node?, key: int)
      requires tree.Some? && Searching(tree.value, p, node, key) && At(tree.value, p)
      requires next != null ==>
        c < |Under(tree.value, p).kids| && Searching(tree.value, p + [c], next, key)
        && Under(tree.value, p + [c]) == Under(tree.value, p).kids[c]
      ensures Left(p + [c], next) < Left(p, node)
    {
      hide Rep, AsBT, InOrder;
      if next != null { LeftLess(p, c, node, next); }
    }

    // -------------------------------------------------------------- insertion

    /** While splits climb: the node at place `p` may hold one record too many, and the records are all there. */
    ghost predicate Growing(t: Tree, p: seq<nat>, node: Node, all: seq<Data>)
      reads this
    {
      && Linked(t) && At(t, p) && Under(t, p).node == node && Almost(o, AsBT(m, t), height, 1, p)
         && InOrder(AsBT(m, t)) == all
    }

    lemma GrowingDone(t: Tree, p: seq<nat>, node: Node, all: seq<Data>)
      requires Holds(m) && Growing(t, p, node, all) && node in m.Keys && m[node].num <= o.max
      ensures Valid() && Ascending(all) && Contents() == AsMap(all)
    {
      hide Rep, AsBT, InOrder, Ascending, AsMap, Holds;
      UnderIs(m, t, p, o.max);
      RepParts(m, Under(t, p), o.max);
      AlmostDone(o, AsBT(m, t), height, 1, p);
    }

    /** A record more in the leaf where the search ended. */
    lemma LeafGrows(t: Tree, p: seq<nat>, node: Node, c: nat, d: Data, m': Store)
      requires Searching(t, p, node, d.key) && Whole(o, AsBT(m, t), height) && Under(t, p).kids == [] && node in m.Keys
      requires node in m'.Keys && m' == m[node := m'[node]] && IsInserted(m[node], m'[node], c, d.key, d.payload)
      requires c <= m[node].num <= |m[node].key| && (c > 0 ==> m[node].key[c - 1] < d.key)
        && (c < m[node].num ==> d.key < m[node].key[c])
      ensures Rep(m', t, o.max) && root in m'.Keys && m'[root].parent == null && At(t, p)
      ensures Ascending(InOrder(AsBT(m', t))) && AsMap(InOrder(AsBT(m', t))) == Contents()[d.key := d]
      ensures d.key !in Contents() && Almost(o, AsBT(m', t), height, 1, p)
      ensures Path(AsBT(m', t), p) && Needs(o.max, AsBT(m, t), d.key) == Due(o.max, AsBT(m', t), p)
    {
      hide Rep, AsBT, InOrder, Ascending, AsMap, Whole, Inner, IsInserted, Cuts, Climbs, Fills, Over;
      NodeIs(t, p, node, d.key);
      LeafMisses(AsBT(m, t), p, c, d);
      LeafIsRep(t, p, node, c, d, m');
      var b, y := AsBT(m, t), Sub(AsBT(m, t), p);
      WholeParts(o, b, height);
      SubFits(o, b, height, 1, p);
      AlmostStarts(o, b, height, 1, p);
      LeafInner(o, BT(y.recs[..c] + [d] + y.recs[c..], []));
      AlmostPut(o, b, height, 1, p, BT(y.recs[..c] + [d] + y.recs[c..], []));
      DueAtFirst(o.max, b, p, BT(y.recs[..c] + [d] + y.recs[c..], []), d.key);
    }

    lemma LeafIsRep(t: Tree, p: seq<nat>, node: Node, c: nat, d: Data, m': Store)
      requires Searching(t, p, node, d.key) && Under(t, p).kids == [] && node in m.Keys
        && c <= m[node].num <= |m[node].key|
      requires node in m'.Keys && m' == m[node := m'[node]] && IsInserted(m[node], m'[node], c, d.key, d.payload)
      ensures Rep(m', t, o.max) && root in m'.Keys && m'[root].parent == m[root].parent
      ensures var y := Sub(AsBT(m, t), p);
        c <= |y.recs| && AsBT(m', t) == Put(AsBT(m, t), p, BT(y.recs[..c] + [d] + y.recs[c..], []))
    {
      hide Rep, AsBT, InOrder, Ascending, HasKey;
      NodeIs(t, p, node, d.key);
      var u := Under(t, p);
      InsertedRecs(m[node], m'[node], c, d.key, d.payload);
      FirstIsMine(m, u, o.max);
      RepFrom(m', u, o.max);
      RepParts(m', u, o.max);
      assert AsBT(m', u) == BT(Sub(AsBT(m, t), p).recs[..c] + [d] + Sub(AsBT(m, t), p).recs[c..], []);
      PlaceKeeps(m, m', t, p, u, o.max);
      PlacedSame(t, p);
    }

    /** The nodes the insertion of a new key asks the allocator for. */
    ghost function NodesFor(key: int): nat
      reads this
    {
      if tree.Some? then Needs(o.max, AsBT(m, tree.value), key) else 1
    }

    /** The nodes still to be asked for while the one at place `p` may hold one record too many. */
    ghost function DueAt(p: seq<nat>): nat
      reads this
    {
      if tree.Some? && Path(AsBT(m, tree.value), p) then Due(o.max, AsBT(m, tree.value), p) else 0
    }

    /** `btree_insert`, with an allocator that hands out `grants` nodes before it refuses one. A key that is there is
        left alone; otherwise the record is added, and the shape kept, exactly when that is enough. */
    method Insert(key: int, data: int, grants: nat) returns (ret: int)
      requires Valid()
      modifies this, m.Keys
      ensures ret == if key in old(Contents()) || grants >= old(NodesFor(key)) then 0 else -1
      ensures key in old(Contents()) ==> Valid() && Contents() == old(Contents())
      ensures key !in old(Contents()) && ret == 0 ==> Valid() && Contents() == old(Contents())[key := Data(key, data)]
      ensures ret != 0 ==> if old(root) == null then Valid() && Contents() == map[]
        else Broken(old(Contents())[key := Data(key, data)])
      ensures fresh(m.Keys - old(m.Keys))
    {
      hide Holds, Linked, Searching, Contents, Left, At, Under, Valid, Growing, Whole, IsInserted, Broken, Needs;
      AtTheRoot(key);
      var node := root;
      if node == null {
        ret := FirstNode(key, data, grants);
        return;
      }
      ghost var p: seq<nat> := [];
      var idx;
      while node != null
        invariant node != null && Holds(m) && tree.Some? && Searching(tree.value, p, node, key)
          && Whole(o, AsBT(m, tree.value), height)
        decreases Left(p, node)
        modifies {}
      {
        SearchNode(p, node, key);
        idx := BSearch(node.key, node.num, key);
        if key == node.key[idx] {
          SearchFinds(tree.value, p, node, key, idx);
          IsThere(key);
          return 0;
        } else if key > node.key[idx] {
          idx := idx + 1;
        }
        SearchMoves(tree.value, p, node, key, idx);
        NextLeft(p, idx, node, node.child[idx], key);
        if node.child[idx] == null {
          break;
        }
        node, p := node.child[idx], p + [idx];
      }
      HasRoom(p, node, key);
      ret := InsertAt(node, key, idx, data, p, grants);
    }

    lemma HasRoom(p: seq<nat>, node: Node, key: int)
      requires tree.Some? && Searching(tree.value, p, node, key) && Whole(o, AsBT(m, tree.value), height)
      ensures node in m.Keys && m[node].num <= o.max
    {
      hide Rep, AsBT, InOrder, Ascending, Inner;
      NodeIs(tree.value, p, node, key);
      SubFits(o, AsBT(m, tree.value), height, 1, p);
    }

    lemma IsThere(key: int)
      requires Lookup(Contents(), key).Some?
      ensures key in Contents()
    {
    }

    /** The root of an empty tree. */
    method FirstNode(key: int, data: int, grants: nat) returns (ret: int)
      requires Valid() && root == null
      modifies this, m.Keys
      ensures ret == if grants >= 1 then 0 else -1
      ensures Valid() && Contents() == (if ret == 0 then map[key := Data(key, data)] else map[])
        && fresh(m.Keys - old(m.Keys))
      ensures old(Contents()) == map[]
    {
      hide *;
      EmptyIs();
      if grants == 0 { return -1; }
      var node := NewLeaf(o.max, key, data);
      FirstIsTree(node, key, data);
      root := node;
      m, tree, height := map[node := Fields(1, Zeros(o.max + 1)[0 := key], Zeros(o.max + 1)[0 := data],
        Nulls(o.max + 2), null)], Some(Tree(node, [])), 0;
      OneNodeHolds(m, node);
      OneIsValid(tree.value);
      ret := 0;
    }

    lemma EmptyIs()
      requires Valid() && root == null
      ensures Contents() == map[] && BShape.Valid(o)
    {
    }

    lemma OneIsValid(t: Tree)
      requires BShape.Valid(o) && Holds(m) && tree == Some(t) && root == t.node && root in m.Keys
        && m[root].parent == null
      requires Rep(m, t, o.max) && Ascending(InOrder(AsBT(m, t))) && Whole(o, AsBT(m, t), height)
      ensures Valid() && Contents() == AsMap(InOrder(AsBT(m, t)))
    {
      hide Rep, AsBT, InOrder, Ascending, AsMap, Holds, Whole;
    }

    lemma FirstIsTree(node: Node, key: int, data: int)
      requires BShape.Valid(o)
      ensures var f := Fields(1, Zeros(o.max + 1)[0 := key], Zeros(o.max + 1)[0 := data], Nulls(o.max + 2), null);
        var m', t := map[node := f], Tree(node, []);
        && Rep(m', t, o.max) && Ascending(InOrder(AsBT(m', t))) && Whole(o, AsBT(m', t), 0)
        && AsMap(InOrder(AsBT(m', t))) == map[key := Data(key, data)]
    {
      var f := Fields(1, Zeros(o.max + 1)[0 := key], Zeros(o.max + 1)[0 := data], Nulls(o.max + 2), null);
      var m', t := map[node := f], Tree(node, []);
      assert Recs(f) == [Data(key, data)];
      assert AsBTs(m', []) == [];
      assert InOrder(AsBT(m', t)) == [Data(key, data)];
      assert AsMap([Data(key, data)]) == map[key := Data(key, data)];
    }

    /** `_btree_insert`. */
    method InsertAt(node: Node, key: int, idx: nat, data: int, ghost p: seq<nat>, grants: nat) returns (ret: int)
      requires Holds(m) && tree.Some? && Searching(tree.value, p, node, key) && Whole(o, AsBT(m, tree.value), height)
        && node in m.Keys
      requires At(tree.value, p) && Under(tree.value, p).kids == [] && Sized(o.max, m[node])
        && idx <= m[node].num <= o.max
      requires (idx > 0 ==> m[node].key[idx - 1] < key) && (idx < m[node].num ==> key < m[node].key[idx])
      modifies this, m.Keys
      ensures ret == if grants >= old(NodesFor(key)) then 0 else -1
      ensures fresh(m.Keys - old(m.Keys))
      ensures ret == 0 ==> Valid() && Contents() == old(Contents())[key := Data(key, data)]
      ensures ret != 0 ==> Broken(old(Contents())[key := Data(key, data)])
      ensures key !in old(Contents())
    {
      hide *;
      ghost var t, c := tree.value, Contents();
      SearchNode(p, node, key);
      ghost var m' := InsertInto(node, key, idx, data, m);
      LeafGrows(t, p, node, idx, Data(key, data), m');
      LinkedParts(t, p, node, key);
      ghost var needed := NodesFor(key);
      NodesAre(t, key, p, m');
      m := m';
      DueIs(t, p);
      ghost var all := InOrder(AsBT(m, t));
      GrowingIs(t, p, node, all);
      GrowingNode(t, p, node, all);
      HeldFields(m, node);
      if node.num > o.max {
        ret := Split(node, p, all, grants);
      } else {
        GrowingDone(t, p, node, all);
        NoneDue(t, p, node, all);
        ret := 0;
      }
    }

    lemma NodesAre(t: Tree, key: int, p: seq<nat>, m': Store)
      requires tree == Some(t) && Path(AsBT(m', t), p) && Needs(o.max, AsBT(m, t), key) == Due(o.max, AsBT(m', t), p)
      ensures NodesFor(key) == Due(o.max, AsBT(m', t), p)
    {
    }

    lemma DueIs(t: Tree, p: seq<nat>)
      requires tree == Some(t) && Path(AsBT(m, t), p)
      ensures DueAt(p) == Due(o.max, AsBT(m, t), p)
    {
    }

    /** Nothing is due once the node does not hold too many; otherwise at least one, and two at the root. */
    lemma NoneDue(t: Tree, p: seq<nat>, node: Node, all: seq<Data>)
      requires Growing(t, p, node, all) && node in m.Keys
      ensures m[node].num <= o.max ==> DueAt(p) == 0
      ensures m[node].num > o.max ==> DueAt(p) >= if p == [] then 2 else 1
      ensures m[node].num > o.max && p == [] ==> DueAt(p) == 2
    {
      hide Rep, AsBT, InOrder, Ascending, Almost;
      AlmostPath(o, AsBT(m, t), height, 1, p);
      UnderIs(m, t, p, o.max);
      RepParts(m, Under(t, p), o.max);
      DueWhile(o.max, AsBT(m, t), p);
    }

    lemma LinkedParts(t: Tree, p: seq<nat>, node: Node, key: int)
      requires Searching(t, p, node, key)
      ensures tree == Some(t) && root == t.node && BShape.Valid(o) && At(t, p) && Under(t, p).node == node
    {
    }

    lemma GrowingIs(t: Tree, p: seq<nat>, node: Node, all: seq<Data>)
      requires tree == Some(t) && root == t.node && BShape.Valid(o) && root in m.Keys && m[root].parent == null
      requires Rep(m, t, o.max) && Ascending(InOrder(AsBT(m, t)))
      requires At(t, p) && Under(t, p).node == node && Almost(o, AsBT(m, t), height, 1, p) && InOrder(AsBT(m, t)) == all
      ensures Growing(t, p, node, all)
    {
    }

    lemma GrowingNode(t: Tree, p: seq<nat>, node: Node, all: seq<Data>)
      requires Growing(t, p, node, all) && Holds(m)
      ensures node in m.Keys && Reads(m, node) && Sized(o.max, m[node]) && BShape.Valid(o)
      ensures node.num == m[node].num <= o.max + 1 == |node.key| == |node.data| && |node.child| == o.max + 2
        && node.parent == m[node].parent
      ensures |m[node].key| == |m[node].data| == o.max + 1 && At(t, p)
      ensures tree == Some(t) && Under(t, p).node == node && Ascending(all)
      ensures node.parent == null <==> p == []
      ensures p != [] ==> var q := p[..|p| - 1];
        && At(t, q) && p[|p| - 1] < |Under(t, q).kids| && Under(t, p) == Under(t, q).kids[p[|p| - 1]]
        && node.parent == Under(t, q).node && node.parent in m.Keys && Sized(o.max, m[node.parent])
           && m[node.parent].num <= o.max < |m[node.parent].key| && node.parent != node
    {
      hide Rep, AsBT, InOrder, Ascending, Almost;
      UnderIs(m, t, p, o.max);
      RepParts(m, Under(t, p), o.max);
      if p != [] {
        var q, i := p[..|p| - 1], p[|p| - 1];
        UnderUp(t, p);
        UnderIs(m, t, q, o.max);
        RepParts(m, Under(t, q), o.max);
        KidParent(m, Under(t, q), o.max, i);
        AlmostParent(o, AsBT(m, t), height, 1, p);
        UnderAscending(m, t, q, o.max);
        KidIsOther(m, Under(t, q), o.max, i);
      }
    }

    /** All records are there and linked in order, but the node at place `p` holds one too many. */
    ghost predicate Overfull(p: seq<nat>, contents: map<int, Data>)
      reads this, m.Keys
    {
      && Holds(m) && tree.Some? && Linked(tree.value) && Contents() == contents
      && At(tree.value, p) && Under(tree.value, p).node in m.Keys && m[Under(tree.value, p).node].num == o.max + 1
    }

    /** An insertion cut short, `contents` being what the tree should hold now. Either all of it is there, but a node is
        left overfull; or there was no memory for a new root, and of the two halves of the old one only the lower is
        still in the tree: the record between them and all those above it are lost. */
    ghost predicate Broken(contents: map<int, Data>)
      reads this, m.Keys
    {
      || (!Valid() && exists p :: Overfull(p, contents))
      || (Valid() && exists key :: key in contents && Contents() == KeysBelow(contents, key))
    }

    lemma OverfullIs(t: Tree, p: seq<nat>, node: Node, all: seq<Data>)
      requires Growing(t, p, node, all) && Holds(m) && node.num == o.max + 1
      ensures Ascending(all) && Broken(AsMap(all)) && !Valid()
    {
      hide Rep, AsBT, InOrder, Ascending, Almost, AsMap, Inner;
      GrowingNode(t, p, node, all);
      HeldFields(m, node);
      UnderIs(m, t, p, o.max);
      RepParts(m, Under(t, p), o.max);
      assert Overfull(p, AsMap(all));
      if Valid() {
        WholeParts(o, AsBT(m, t), height);
        SubFits(o, AsBT(m, t), height, 1, p);
      }
    }

    lemma Halved(contents: map<int, Data>, key: int)
      requires Valid() && key in contents && Contents() == KeysBelow(contents, key)
      ensures Broken(contents)
    {
    }

    /** `btree_split`: overfull nodes are cut in two from `node0` upward. */
    method Split(node0: Node, ghost p0: seq<nat>, ghost all: seq<Data>, grants: nat) returns (ret: int)
      requires Holds(m) && tree.Some? && Growing(tree.value, p0, node0, all) && Ascending(all)
      modifies this, m.Keys
      ensures ret == (if grants >= old(DueAt(p0)) then 0 else -1) && fresh(m.Keys - old(m.Keys))
      ensures ret == 0 ==> Valid() && Contents() == AsMap(all)
      ensures ret != 0 ==> Broken(AsMap(all))
    {
      hide *;
      var node, left: nat := node0, grants;
      ghost var p := p0;
      GrowingNode(tree.value, p, node, all);
      while node.num > o.max
        invariant Holds(m) && tree.Some? && Growing(tree.value, p, node, all) && node in m.Keys
        invariant fresh(m.Keys - old(m.Keys)) && left + old(DueAt(p0)) == grants + DueAt(p)
        decreases |p| + if node.num > o.max then 1 else 0
      {
        GrowingNode(tree.value, p, node, all);
        HeldFields(m, node);
        NoneDue(tree.value, p, node, all);
        var done, parent;
        if node.parent == null {
          ghost var key;
          done, parent, key, left := SplitRoot(node, all, left);
          if !done {
            if node.num == o.max + 1 { OverfullIs(tree.value, [], node, all); } else { Halved(AsMap(all), key); }
            return -1;
          }
          p := [];
        } else {
          done, parent, left := SplitInner(node, p, all, left);
          if !done {
            OverfullIs(tree.value, p, node, all);
            return -1;
          }
          p := p[..|p| - 1];
        }
        node := parent;
        GrowingNode(tree.value, p, node, all);
        NoneDue(tree.value, p, node, all);
      }
      GrowingNode(tree.value, p, node, all);
      NoneDue(tree.value, p, node, all);
      GrowingDone(tree.value, p, node, all);
      ret := 0;
    }

    /** One round of the loop at the root: a new root over its two halves. */
    method SplitRoot(node: Node, ghost all: seq<Data>, grants: nat)
        returns (done: bool, parent: Node, ghost key: int, left: nat)
      requires Holds(m) && tree.Some? && Growing(tree.value, [], node, all) && node in m.Keys && node.num > o.max
        && Ascending(all)
      modifies this`root, this`m, this`tree, this`height, m.Keys
      ensures fresh(m.Keys - old(m.Keys))
      ensures (done <==> grants >= 2) && (done ==> left == grants - 2)
      ensures done ==>
        Holds(m) && tree.Some? && Growing(tree.value, [], parent, all) && parent in m.Keys
        && parent.num <= o.max
      ensures !done && node.num == o.max + 1 ==> Holds(m) && tree.Some? && Growing(tree.value, [], node, all)
      ensures !done && node.num != o.max + 1 ==>
        Valid() && key in AsMap(all)
        && Contents() == KeysBelow(AsMap(all), key)
    {
      hide *;
      ghost var t := tree.value;
      GrowingNode(t, [], node, all);
      UnderNothing(t);
      GrowingRooted(t, [], node, all);
      GrowingParts(t, [], node, all);
      SepIn();
      ghost var node2, m4;
      done, parent, node2, m4, left := HalveRoot(o, node, m, t, grants);
      key := 0;
      if !done {
        if node.num != o.max + 1 {
          key := RootHalved(o, m, t, height, all);
          m, tree := m[node := m[node].(num := o.sep)], Some(LeftTree(t, o.sep));
          OneIsValid(LeftTree(t, o.sep));
        }
        return;
      }
      root := parent;
      ghost var t' := Tree(parent, [LeftTree(t, o.sep), RightTree(t, o.sep, node2)]);
      RootCut(o, m, m4, t, height, all, node2, parent);
      m, tree, height := m4, Some(t'), height + 1;
      UnderNothing(t');
      GrowingIs(t', [], parent, all);
      NewRootHeld(m, parent);
    }

    lemma UnderNothing(t: Tree)
      ensures At(t, []) && Under(t, []) == t
    {
    }

    /** One round of the loop below the root: the halves and the record between them go to the parent. */
    method SplitInner(node: Node, ghost p: seq<nat>, ghost all: seq<Data>, grants: nat)
        returns (done: bool, parent: Node, left: nat)
      requires Holds(m) && tree.Some? && p != [] && Growing(tree.value, p, node, all) && node in m.Keys
        && node.num > o.max
      modifies this`m, this`tree, m.Keys
      ensures fresh(m.Keys - old(m.Keys))
      ensures (done <==> grants >= 1) && (done ==> left == grants - 1 && DueAt(p[..|p| - 1]) + 1 == old(DueAt(p)))
      ensures done ==> Holds(m) && tree.Some? && Growing(tree.value, p[..|p| - 1], parent, all) && parent in m.Keys
      ensures !done ==>
        tree == old(tree) && m == old(m) && Holds(m) && node.num == o.max + 1
        && Growing(tree.value, p, node, all)
    {
      hide *;
      ghost var t := tree.value;
      GrowingNode(t, p, node, all);
      ghost var q, i := p[..|p| - 1], p[|p| - 1];
      ghost var y := Under(t, q);
      GrowingRooted(t, p, node, all);
      GrowingParent(t, p, node, all);
      SepIn();
      ghost var node2, m4;
      done, parent, node2, m4, left := HalveInner(o, node, m, y, i, grants);
      if !done { return; }
      InnerCut(t, p, node, all, node2, m4);
      DueIs(t, p);
      m, tree := m4, Some(Placed(t, q, WidenedTree(y, i, o.sep, node2)));
      DueIs(tree.value, q);
      GrowingIs(tree.value, q, parent, all);
      GrowingNode(tree.value, q, parent, all);
    }

    lemma GrowingParent(t: Tree, p: seq<nat>, node: Node, all: seq<Data>)
      requires Growing(t, p, node, all) && p != [] && At(t, p[..|p| - 1])
      ensures var y := Under(t, p[..|p| - 1]); Rep(m, y, o.max) && Ascending(InOrder(AsBT(m, y)))
    {
      hide Rep, AsBT, InOrder, Ascending, Almost;
      UnderIs(m, t, p[..|p| - 1], o.max);
      UnderAscending(m, t, p[..|p| - 1], o.max);
    }

    lemma GrowingRooted(t: Tree, p: seq<nat>, node: Node, all: seq<Data>)
      requires Growing(t, p, node, all)
      ensures Rooted(m, Under(t, p), o.max) && Rep(m, Under(t, p), o.max) && Ascending(InOrder(AsBT(m, Under(t, p))))
    {
      hide Rep, AsBT, InOrder, Ascending, Almost;
      UnderIs(m, t, p, o.max);
      RepParts(m, Under(t, p), o.max);
      UnderAscending(m, t, p, o.max);
    }

    /** The whole tree after a round below the root. */
    lemma InnerCut(t: Tree, p: seq<nat>, node: Node, all: seq<Data>, node2: Node, m4: Store)
      requires p != [] && Growing(t, p, node, all) && At(t, p[..|p| - 1]) && node in m.Keys && m[node].num == o.max + 1
      requires p[|p| - 1] < |Under(t, p[..|p| - 1]).kids|
        && CutBelow(m, m4, Under(t, p[..|p| - 1]), p[|p| - 1], o.sep, node2)
      ensures var q, i := p[..|p| - 1], p[|p| - 1];
        var y := Under(t, q);
        && i < |y.kids|
        && var t' := Placed(t, q, WidenedTree(y, i, o.sep, node2));
        && root == t'.node && root in m4.Keys && m4[root].parent == null && BShape.Valid(o)
        && Rep(m4, t', o.max) && Ascending(InOrder(AsBT(m4, t'))) && InOrder(AsBT(m4, t')) == all
        && At(t', q) && Under(t', q).node == y.node && Almost(o, AsBT(m4, t'), height, 1, q)
        && Path(AsBT(m, t), p) && Path(AsBT(m4, t'), q)
        && Due(o.max, AsBT(m4, t'), q) + 1 == Due(o.max, AsBT(m, t), p)
    {
      hide *;
      GrowingParts(t, p, node, all);
      var q, i := p[..|p| - 1], p[|p| - 1];
      var y, u := Under(t, q), Under(t, p);
      var b := AsBT(m, t);
      UnderUp(t, p);
      UnderIs(m, t, q, o.max);
      UnderIs(m, t, p, o.max);
      UnderAscending(m, t, q, o.max);
      RepParts(m, y, o.max);
      RepParts(m, u, o.max);
      SepIn();
      AlmostParent(o, b, height, 1, p);
      CutKeeps(m, m4, y, i, o.sep, node2, o.max);
      PlaceKeeps(m, m4, t, q, WidenedTree(y, i, o.sep, node2), o.max);
      PlacedAt(t, q, WidenedTree(y, i, o.sep, node2));
      var x, w := AsBT(m, u), AsBT(m, y);
      var w' := Widened(w, i, LeftHalf(x, o.sep), x.recs[o.sep], RightHalf(x, o.sep));
      HalvesInOrder(x, o.sep);
      WidenedInOrder(w, i, LeftHalf(x, o.sep), x.recs[o.sep], RightHalf(x, o.sep));
      SubInOrder(b, q);
      PutInOrder(b, q, w');
      AlmostSplit(o, b, height, p, x, w, w');
      AlmostPath(o, b, height, 1, p);
      OneMoreRec(w, i, LeftHalf(x, o.sep), x.recs[o.sep], RightHalf(x, o.sep));
      DueLess(o.max, b, p, w');
    }

    lemma GrowingParts(t: Tree, p: seq<nat>, node: Node, all: seq<Data>)
      requires Growing(t, p, node, all)
      ensures tree == Some(t) && root == t.node && BShape.Valid(o) && root in m.Keys && m[root].parent == null
      ensures Rep(m, t, o.max) && Ascending(InOrder(AsBT(m, t))) && InOrder(AsBT(m, t)) == all
      ensures At(t, p) && Under(t, p).node == node && Almost(o, AsBT(m, t), height, 1, p)
    {
    }

    lemma SepIn()
      requires BShape.Valid(o)
      ensures 1 <= o.sep <= o.max && o.sep + 1 < o.max + 1
    {
    }
  }

  /** What the steps of one round do to the memory. */
  ghost predicate CutSteps(m: Store, m1: Store, m2: Store, m3: Store, y: Tree, u: Tree, sep: nat, node2: Node, pos: nat,
      max: nat)
  {
    && u.node in m.Keys && y.node in m.Keys && node2 !in m.Keys && u.node != y.node && sep < m[u.node].num
    && sep < |m[u.node].key| && sep < |m[u.node].data|
    && node2 in m1.Keys && m1 == m[u.node := m[u.node].(num := sep)][node2 := m1[node2]]
       && IsRight(m[u.node], m1[node2], sep)
    && y.node in m2.Keys && m2 == m1[y.node := m2[y.node]][node2 := m1[node2].(parent := y.node)]
    && IsWidened(m[y.node], m2[y.node], pos, m[u.node].key[sep], m[u.node].data[sep], node2)
    && pos <= m[y.node].num <= |m[y.node].key|
    && (pos > 0 ==> m[y.node].key[pos - 1] <= m[u.node].key[sep])
       && (forall j :: pos <= j < m[y.node].num ==> m[u.node].key[sep] < m[y.node].key[j])
    && u.node in m3.Keys && m3 == m2[u.node := m3[u.node]] && IsLeft(m[u.node], m3[u.node], sep)
       && m3[u.node].parent == m[u.node].parent
  }

  lemma CutStepsAre(m: Store, m1: Store, m2: Store, m3: Store, y: Tree, u: Tree, sep: nat, node2: Node, pos: nat,
      max: nat)
    requires u.node in m.Keys && y.node in m.Keys && node2 !in m.Keys && u.node != y.node && sep < m[u.node].num
    requires sep < |m[u.node].key| && sep < |m[u.node].data|
    requires node2 in m1.Keys && m1 == m[u.node := m[u.node].(num := sep)][node2 := m1[node2]]
      && IsRight(m[u.node], m1[node2], sep)
    requires y.node in m2.Keys && m2 == m1[y.node := m2[y.node]][node2 := m1[node2].(parent := y.node)]
    requires IsWidened(m[y.node], m2[y.node], pos, m[u.node].key[sep], m[u.node].data[sep], node2)
    requires pos <= m[y.node].num <= |m[y.node].key|
    requires pos > 0 ==> m[y.node].key[pos - 1] <= m[u.node].key[sep]
    requires forall j :: pos <= j < m[y.node].num ==> m[u.node].key[sep] < m[y.node].key[j]
    requires u.node in m3.Keys && m3 == m2[u.node := m3[u.node]] && IsLeft(m[u.node], m3[u.node], sep)
      && m3[u.node].parent == m[u.node].parent
    ensures CutSteps(m, m1, m2, m3, y, u, sep, node2, pos, max)
  {
  }

  lemma RightOf(f: Fields, g: Fields, sep: nat, parent: Node)
    requires IsRight(f, g, sep)
    ensures IsRight(f, g.(parent := parent), sep)
  {
  }

  /** The place found from the right is that of the node that was cut. */
  lemma PosIs(m: Store, y: Tree, i: nat, sep: nat, pos: nat, max: nat)
    requires Rep(m, y, max) && Ascending(InOrder(AsBT(m, y))) && i < |y.kids|
    requires var u := y.kids[i];
      && u.node in m.Keys && y.node in m.Keys && sep < m[u.node].num && sep < |m[u.node].key|
      && pos <= m[y.node].num <= |m[y.node].key|
      && (pos > 0 ==> m[y.node].key[pos - 1] <= m[u.node].key[sep])
         && (forall j :: pos <= j < m[y.node].num ==> m[u.node].key[sep] < m[y.node].key[j])
    ensures pos == i
  {
    hide Rep, AsBT, InOrder, Ascending, Rooted, HasKey;
    var u := y.kids[i];
    RepParts(m, y, max);
    KidIsOther(m, y, max, i);
    RepParts(m, u, max);
    OwnKeys(AsBT(m, u), sep);
    KeyBetween(AsBT(m, y), i, m[u.node].key[sep]);
    RecsAscending(AsBT(m, y));
    OrderedAt(m[y.node], if pos > i then i else pos, if pos > i then pos - 1 else i - 1);
  }

  lemma OrderedAt(f: Fields, i: int, j: int)
    requires f.num <= |f.key| && f.num <= |f.data| && Ascending(Recs(f))
    ensures 0 <= i <= j < f.num ==> f.key[i] <= f.key[j]
  {
    if 0 <= i < j < f.num { assert Recs(f)[i].key < Recs(f)[j].key; }
  }

  lemma StepsCut(m: Store, m1: Store, m2: Store, m3: Store, y: Tree, i: nat, sep: nat, node2: Node, pos: nat, max: nat)
    requires Rep(m, y, max) && Ascending(InOrder(AsBT(m, y))) && i < |y.kids|
      && CutSteps(m, m1, m2, m3, y, y.kids[i], sep, node2, pos, max)
    ensures pos == i && CutBelow(m, Adopted(m3, node2, MovedKids(y.kids[i], sep)), y, i, sep, node2)
  {
    hide Rep, AsBT, InOrder, Ascending, Rooted, HasKey, IsLeft, IsRight, IsWidened;
    PosIs(m, y, i, sep, pos, max);
    var u := y.kids[i];
    RepParts(m, y, max);
    KidIsOther(m, y, max, i);
    MovedOthers(m, y, i, max, sep, node2);
    RightOf(m[u.node], m1[node2], sep, y.node);
    var m4 := Adopted(m3, node2, MovedKids(u, sep));
    assert m4[y.node] == m3[y.node] == m2[y.node] && m4[u.node] == m3[u.node] && m4[node2] == m2[node2];
  }

  /** None of the nodes at work is among the moved children. */
  lemma MovedOthers(m: Store, y: Tree, i: nat, max: nat, sep: nat, node2: Node)
    requires Rep(m, y, max) && Ascending(InOrder(AsBT(m, y))) && i < |y.kids| && node2 !in m.Keys
    ensures var kids := MovedKids(y.kids[i], sep);
      !InHeads(y.node, kids) && !InHeads(y.kids[i].node, kids)
      && !InHeads(node2, kids)
  {
    hide Rep, AsBT, InOrder, Ascending, Rooted, HasKey;
    var u := y.kids[i];
    KidIsOther(m, y, max, i);
    forall j | 0 <= j < |MovedKids(u, sep)|
      ensures var n := MovedKids(u, sep)[j].node; n in m.Keys && n != y.node && n != u.node
    {
      KidIsOther(m, u, max, sep + 1 + j);
    }
  }

  /** What the steps of a round at the root do to the memory is the cut of the root. */
  lemma RootSteps(m: Store, m1: Store, m2: Store, m3: Store, t: Tree, sep: nat, node2: Node, parent: Node, max: nat)
    requires Rep(m, t, max) && Ascending(InOrder(AsBT(m, t))) && t.node in m.Keys && node2 !in m.Keys
      && parent !in m.Keys && node2 != parent
    requires sep < m[t.node].num && sep < |m[t.node].key| && sep < |m[t.node].data|
    requires node2 in m1.Keys && m1 == m[t.node := m[t.node].(num := sep)][node2 := m1[node2]]
      && IsRight(m[t.node], m1[node2], sep)
    requires parent in m2.Keys && IsNewRoot(m2[parent], max, m[t.node].key[sep], m[t.node].data[sep], t.node, node2)
    requires m2 ==
      m1[t.node := m1[t.node].(parent := parent)][node2 := m1[node2].(parent := parent)][parent := m2[parent]]
    requires t.node in m3.Keys && m3 == m2[t.node := m3[t.node]] && IsLeft(m[t.node], m3[t.node], sep)
      && m3[t.node].parent == parent
    ensures CutRoot(m, Adopted(m3, node2, MovedKids(t, sep)), t, sep, node2, parent, max)
  {
    hide Rep, AsBT, InOrder, Ascending, Rooted, HasKey, IsLeft, IsRight;
    RepParts(m, t, max);
    forall j | 0 <= j < |MovedKids(t, sep)|
      ensures var n := MovedKids(t, sep)[j].node; n in m.Keys && n != t.node
    {
      KidIsOther(m, t, max, sep + 1 + j);
    }
    RightOf(m[t.node], m1[node2], sep, parent);
    var m4 := Adopted(m3, node2, MovedKids(t, sep));
    assert m4[parent] == m3[parent] == m2[parent] && m4[t.node] == m3[t.node] && m4[node2] == m2[node2];
  }

  lemma WithoutNew(m: Store, m1: Store, node: Node, f: Fields, node2: Node)
    requires Holds(m1) && node2 in m1.Keys && m1 == m[node := f][node2 := m1[node2]] && node in m.Keys
      && node2 !in m.Keys
    ensures Holds(m[node := f])
  {
    forall n | n in m.Keys ensures n.All() == m[node := f][n] { assert n in m1.Keys && n != node2; }
  }

  /** What of `contents` is below `key`. */
  ghost function KeysBelow(contents: map<int, Data>, key: int): map<int, Data> {
    map k | k in contents && k < key :: contents[k]
  }

  lemma LowerPart(a: seq<Data>, d: Data, b: seq<Data>)
    requires Ascending(a + [d] + b)
    ensures Ascending(a) && d.key in AsMap(a + [d] + b) && AsMap(a) == KeysBelow(AsMap(a + [d] + b), d.key)
  {
    var s := a + [d] + b;
    FoundAt(a, d, b);
    assert Ascending(a) by { assert forall i :: 0 <= i < |a| ==> s[i] == a[i]; }
    assert d.key in AsMap(s) by { assert s[|a|] == d; }
    hide Ascending, AsMap, Lookup, KeysBelow, Above;
    forall k | k < d.key ensures Lookup(AsMap(s), k) == Lookup(AsMap(a), k) { LookupLeft(a, d, b, k); }
    forall k | k in AsMap(a) ensures k < d.key { KeyIsThere(a, k); }
    hide Below;
    AgreeBelow(AsMap(a), AsMap(s), d.key);
  }

  lemma AgreeBelow(m: map<int, Data>, all: map<int, Data>, key: int)
    requires forall k :: k < key ==> Lookup(all, k) == Lookup(m, k)
    requires forall k :: k in m ==> k < key
    ensures m == KeysBelow(all, key)
  {
    forall k ensures k in m <==> k in KeysBelow(all, key) {
      if k < key { assert Lookup(all, k) == Lookup(m, k); }
    }
    forall k | k in m ensures m[k] == all[k] { assert Lookup(all, k) == Lookup(m, k); }
  }

  lemma KeyIsThere(s: seq<Data>, key: int)
    requires Ascending(s) && key in AsMap(s)
    ensures exists i :: 0 <= i < |s| && s[i].key == key
  {
    var d :| d in s && d.key == key;
  }

  /** An overfull root whose count is cut while its upper half is hung nowhere: a tree all right, of the lower half. */
  lemma RootHalved(o: Order, m: Store, t: Tree, h: nat, all: seq<Data>) returns (key: int)
    requires BShape.Valid(o) && Rep(m, t, o.max) && Ascending(InOrder(AsBT(m, t))) && InOrder(AsBT(m, t)) == all
    requires Almost(o, AsBT(m, t), h, 1, []) && t.node in m.Keys && m[t.node].num == o.max + 1
    ensures var m', t' := m[t.node := m[t.node].(num := o.sep)], LeftTree(t, o.sep);
      && t'.node == t.node && Rep(m', t', o.max) && Whole(o, AsBT(m', t'), h) && Ascending(InOrder(AsBT(m', t')))
      && key in AsMap(all) && AsMap(InOrder(AsBT(m', t'))) == KeysBelow(AsMap(all), key)
  {
    hide Rep, AsBT, InOrder, Ascending, Inner, LeftHalf, RightHalf, AsMap, KeysBelow;
    RepParts(m, t, o.max);
    var b := AsBT(m, t);
    LowerIsRep(m, t, o.max, o.sep);
    HalvesInOrder(b, o.sep);
    HalvesFit(o, b, h);
    LowerPart(InOrder(LeftHalf(b, o.sep)), b.recs[o.sep], InOrder(RightHalf(b, o.sep)));
    key := b.recs[o.sep].key;
  }

  lemma LowerIsRep(m: Store, t: Tree, max: nat, sep: nat)
    requires Rep(m, t, max) && Ascending(InOrder(AsBT(m, t))) && t.node in m.Keys && 1 <= sep < m[t.node].num
    ensures var m', t' := m[t.node := m[t.node].(num := sep)], LeftTree(t, sep);
      t'.node == t.node && Rep(m', t', max) && sep < |AsBT(m, t).recs| && AsBT(m', t') == LeftHalf(AsBT(m, t), sep)
  {
    hide Rep, AsBT, InOrder, Ascending, HasKey;
    RepParts(m, t, max);
    var m', t' := m[t.node := m[t.node].(num := sep)], LeftTree(t, sep);
    forall j | 0 <= j < |t'.kids|
      ensures Hung(m', m'[t'.node], t'.node, t'.kids, j) && Rep(m', t'.kids[j], max)
        && AsBT(m', t'.kids[j]) == AsBT(m, t.kids[j])
    {
      KidIsOther(m, t, max, j);
      KidParent(m, t, max, j);
      FrameKid(m, m', t.kids[j], max);
    }
    RepFrom(m', t', max);
    RepParts(m', t', max);
    assert Recs(m'[t.node]) == Recs(m[t.node])[..sep];
    assert AsBT(m', t').kids == LeftHalf(AsBT(m, t), sep).kids;
  }

  /** The tree after a round at the root. */
  lemma RootCut(o: Order, m: Store, m4: Store, t: Tree, h: nat, all: seq<Data>, node2: Node, parent: Node)
    requires BShape.Valid(o) && Rep(m, t, o.max) && Ascending(InOrder(AsBT(m, t))) && InOrder(AsBT(m, t)) == all
    requires Almost(o, AsBT(m, t), h, 1, []) && t.node in m.Keys && m[t.node].num == o.max + 1
    requires CutRoot(m, m4, t, o.sep, node2, parent, o.max)
    ensures var t' := Tree(parent, [LeftTree(t, o.sep), RightTree(t, o.sep, node2)]);
      && parent in m4.Keys && m4[parent].parent == null && m4[parent].num == 1
      && Rep(m4, t', o.max) && InOrder(AsBT(m4, t')) == all && Almost(o, AsBT(m4, t'), h + 1, 1, [])
  {
    hide Rep, AsBT, InOrder, Ascending, Inner, LeftHalf, RightHalf, LeftTree, RightTree, IsLeft, IsRight;
    RootKeeps(m, m4, t, o.sep, node2, parent, o.max);
    RepParts(m, t, o.max);
    var b := AsBT(m, t);
    HalvesInOrder(b, o.sep);
    RootInOrder(b, LeftHalf(b, o.sep), b.recs[o.sep], RightHalf(b, o.sep));
    HalvesFit(o, b, h);
    RootWhole(o, h, LeftHalf(b, o.sep), b.recs[o.sep], RightHalf(b, o.sep));
  }

  /** The two halves of an overfull node and the record between them, in its parent. */
  method HalveInner(o: Order, node: Node, ghost m: Store, ghost y: Tree, ghost i: nat, grants: nat)
      returns (done: bool, parent: Node, ghost node2: Node, ghost m4: Store, left: nat)
    requires Holds(m) && Rep(m, y, o.max) && Ascending(InOrder(AsBT(m, y))) && i < |y.kids| && y.kids[i].node == node
      && node in m.Keys
    requires Rooted(m, y.kids[i], o.max) && node.parent == y.node && y.node in m.Keys && node.parent != node
    requires Sized(o.max, m[y.node]) && m[y.node].num <= o.max < |m[y.node].key|
    requires Sized(o.max, m[node]) && m[node].num == o.max + 1 && 1 <= o.sep < o.max && m[node].parent == node.parent
    requires node.num == o.max + 1 == |node.key| == |node.data| && |m[node].key| == |m[node].data| == o.max + 1
    modifies m.Keys
    ensures (done <==> grants >= 1) && (done ==> left == grants - 1)
    ensures done ==> Holds(m4) && CutBelow(m, m4, y, i, o.sep, node2) && fresh(m4.Keys - m.Keys) && parent == y.node
    ensures !done ==> Holds(m) && node.num == o.max + 1
  {
    hide *;
    ghost var u := y.kids[i];
    parent, node2, m4, left := node, node, m, 0;
    if grants == 0 { return false, parent, node2, m4, left; }
    var half := new Node(o.max);
    left := grants - 1;
    ghost var m1 := CutOff(node, half, o.sep, o.max, m);
    HeldFields(m1, node);
    parent := node.parent;
    ghost var m2, pos := HangIn(parent, node.key[o.sep], node.data[o.sep], half, m1, o.max);
    ghost var m3 := Clear(node, o.sep, o.max + 1, o.max, m[node], m2);
    HeldFields(m3, half);
    RightChildren(m, u, o.max, o.sep, m1[half]);
    Adopt(half, m3, MovedKids(u, o.sep));
    m4 := Adopted(m3, half, MovedKids(u, o.sep));
    CutStepsAre(m, m1, m2, m3, y, u, o.sep, half, pos, o.max);
    StepsCut(m, m1, m2, m3, y, i, o.sep, half, pos, o.max);
    node2 := half;
    done := true;
  }

  /** The two halves of an overfull root, under a new root. */
  method HalveRoot(o: Order, node: Node, ghost m: Store, ghost t: Tree, grants: nat)
      returns (done: bool, parent: Node, ghost node2: Node, ghost m4: Store, left: nat)
    requires Holds(m) && Rep(m, t, o.max) && Rooted(m, t, o.max) && Ascending(InOrder(AsBT(m, t))) && t.node == node
      && node in m.Keys
    requires Sized(o.max, m[node]) && m[node].num == o.max + 1 && 1 <= o.sep < o.max
    requires node.num == o.max + 1 == |node.key| == |node.data| && |m[node].key| == |m[node].data| == o.max + 1
    modifies m.Keys
    ensures (done <==> grants >= 2) && (done ==> left == grants - 2)
    ensures !done ==> (node.num == o.max + 1 <==> grants == 0)
    ensures done ==> Holds(m4) && CutRoot(m, m4, t, o.sep, node2, parent, o.max) && fresh(m4.Keys - m.Keys)
    ensures !done ==> if node.num == o.max + 1 then Holds(m) else Holds(m[node := m[node].(num := o.sep)])
  {
    hide *;
    parent, node2, m4, left := node, node, m, grants;
    if left == 0 { return false, parent, node2, m4, left; }
    var half := new Node(o.max);
    left := left - 1;
    ghost var m1 := CutOff(node, half, o.sep, o.max, m);
    HeldFields(m1, node);
    if left == 0 {
      WithoutNew(m, m1, node, m[node].(num := o.sep), half);
      HeldFields(m[node := m[node].(num := o.sep)], node);
      return false, parent, node2, m4, left;
    }
    parent := new Node(o.max);
    left := left - 1;
    ghost var m2 := HangRoot(parent, node, half, o.sep, o.max, m1);
    ghost var m3 := Clear(node, o.sep, o.max + 1, o.max, m[node], m2);
    HeldFields(m3, half);
    RightChildren(m, t, o.max, o.sep, m1[half]);
    Adopt(half, m3, MovedKids(t, o.sep));
    m4 := Adopted(m3, half, MovedKids(t, o.sep));
    RootSteps(m, m1, m2, m3, t, o.sep, half, parent, o.max);
    node2 := half;
    done := true;
  }

  lemma NewRootHeld(m: Store, n: Node)
    requires Holds(m) && n in m.Keys
    ensures n.num == m[n].num
  {
    HeldFields(m, n);
  }

  /** The shape after a round below the root. */
  lemma AlmostSplit(o: Order, b: BT, h: nat, p: seq<nat>, x: BT, w: BT, w': BT)
    requires p != [] && BShape.Valid(o) && Almost(o, b, h, 1, p) && Path(b, p) && Sub(b, p) == x
      && |x.recs| == o.max + 1
    requires Path(b, p[..|p| - 1]) && Sub(b, p[..|p| - 1]) == w && |w.kids| == |w.recs| + 1 && p[|p| - 1] < |w.kids|
    requires w' == Widened(w, p[|p| - 1], LeftHalf(x, o.sep), x.recs[o.sep], RightHalf(x, o.sep))
    ensures Almost(o, Put(b, p[..|p| - 1], w'), h, 1, p[..|p| - 1])
  {
    hide Almost, Inner, Fits, LeftHalf, RightHalf, Put;
    AlmostPath(o, b, h, 1, p);
    HalvesFit(o, x, h - |p|);
    OthersFit(o, b, h, 1, p);
    WidenedInner(o, w, h - |p| + 1, p[|p| - 1], LeftHalf(x, o.sep), x.recs[o.sep], RightHalf(x, o.sep));
    AlmostUp(o, b, h, 1, p, w');
  }

  /** All children but one have the right size. */
  ghost predicate OthersFitAt(o: Order, y: BT, h: nat, i: nat) {
    forall j :: 0 <= j < |y.kids| && j != i ==> Fits(o, y.kids[j], h)
  }

  lemma {:induction false} OthersFit(o: Order, t: BT, h: nat, lo: nat, p: seq<nat>)
    requires p != [] && Almost(o, t, h, lo, p) && Path(t, p[..|p| - 1])
    ensures |p| <= h && OthersFitAt(o, Sub(t, p[..|p| - 1]), h - |p|, p[|p| - 1])
    decreases |p|
  {
    var q := p[..|p| - 1];
    if |p| > 1 {
      var p', t' := p[1..], t.kids[p[0]];
      assert p'[..|p'| - 1] == q[1..] && p'[|p'| - 1] == p[|p| - 1] && q[0] == p[0];
      OthersFit(o, t', h - 1, o.min, p');
      assert Sub(t, q) == Sub(t', p'[..|p'| - 1]);
    } else {
      assert q == [] && Sub(t, q) == t && p[0] == p[|p| - 1];
    }
  }

  lemma {:induction false} PlacedAt(t: Tree, p: seq<nat>, u: Tree)
    requires At(t, p)
    ensures At(Placed(t, p, u), p) && Under(Placed(t, p, u), p) == u
    decreases |p|
  {
    if p != [] { PlacedAt(t.kids[p[0]], p[1..], u); }
  }

  lemma RightChildren(m: Store, u: Tree, max: nat, sep: nat, f: Fields)
    requires Rooted(m, u, max) && u.node in m.Keys && sep < m[u.node].num && IsRight(m[u.node], f, sep)
    ensures var kids := MovedKids(u, sep);
      f.num < |f.child|
      && if kids == [] then forall i :: 0 <= i <= f.num ==> f.child[i] == null
         else
           && |kids| == f.num + 1
           && forall i :: 0 <= i < |kids| ==>
             f.child[i] == kids[i].node && kids[i].node in m.Keys
  {
    var kids := MovedKids(u, sep);
    forall i | 0 <= i < |kids| ensures f.child[i] == kids[i].node && kids[i].node in m.Keys {
      assert Hung(m, m[u.node], u.node, u.kids, sep + 1 + i);
    }
  }

  /** The children that go to the new node. */
  ghost function MovedKids(u: Tree, sep: nat): seq<Tree> {
    if sep + 1 <= |u.kids| then u.kids[sep + 1..] else []
  }

  lemma {:induction false} UnderUp(t: Tree, p: seq<nat>)
    requires p != [] && At(t, p)
    ensures var q, i := p[..|p| - 1], p[|p| - 1];
      At(t, q) && i < |Under(t, q).kids| && Under(t, p) == Under(t, q).kids[i]
    decreases |p|
  {
    var q := p[..|p| - 1];
    if |p| > 1 {
      assert p[1..][..|p| - 2] == q[1..] && p[1..][|p| - 2] == p[|p| - 1];
      UnderUp(t.kids[p[0]], p[1..]);
    }
  }

  lemma {:induction false} AlmostParent(o: Order, t: BT, h: nat, lo: nat, p: seq<nat>)
    requires p != [] && Almost(o, t, h, lo, p) && Path(t, p[..|p| - 1])
    ensures |Sub(t, p[..|p| - 1]).recs| <= o.max
    decreases |p|
  {
    if |p| > 1 {
      assert p[1..][..|p| - 2] == p[..|p| - 1][1..];
      AlmostParent(o, t.kids[p[0]], h - 1, o.min, p[1..]);
    }
  }

  lemma UnderAscending(m: Store, t: Tree, p: seq<nat>, max: nat)
    requires Rep(m, t, max) && At(t, p) && Ascending(InOrder(AsBT(m, t)))
    ensures Ascending(InOrder(AsBT(m, Under(t, p))))
  {
    hide Rep, AsBT, InOrder;
    UnderIs(m, t, p, max);
    SubInOrder(AsBT(m, t), p);
    AscendingApart(Ahead(AsBT(m, t), p), InOrder(AsBT(m, Under(t, p))), Behind(AsBT(m, t), p), 0);
  }

  lemma {:induction false} PlacedSame(t: Tree, p: seq<nat>)
    requires At(t, p)
    ensures Placed(t, p, Under(t, p)) == t
    decreases |p|
  {
    if p != [] { PlacedSame(t.kids[p[0]], p[1..]); }
  }

  lemma WholeParts(o: Order, t: BT, h: nat)
    requires Whole(o, t, h)
    ensures 1 <= |t.recs| <= o.max && Inner(o, t, h)
  {
  }

  lemma LeafInner(o: Order, t: BT)
    requires t.kids == []
    ensures Inner(o, t, 0)
  {
  }

  function Size(t: Tree): nat
    decreases t, 1
  {
    1 + Sizes(t.kids)
  }

  function Sizes(kids: seq<Tree>): (n: nat)
    ensures forall k :: 0 <= k < |kids| ==> Size(kids[k]) <= n
    decreases kids, 0
  {
    if kids == [] then 0 else
      assert forall k :: 1 <= k < |kids| ==> kids[k] == kids[1..][k - 1];
      Size(kids[0]) + Sizes(kids[1..])
  }

  lemma SizeLess(t: Tree, c: nat)
    requires c < |t.kids|
    ensures Size(t.kids[c]) < Size(t)
  {
  }

  /** `btree_creat`: no tree of an order below three. */
  method Creat(order: int) returns (tree: BTree?)
    ensures tree == null <==> order < 3
    ensures tree != null ==> fresh(tree) && tree.Valid() && tree.Contents() == map[] && tree.o == OrderOf(order)
  {
    if order < 3 { return null; }
    tree := new BTree(order);
  }

  lemma RecsOrdered(f: Fields)
    requires f.num <= |f.key| && f.num <= |f.data| && Ascending(Recs(f))
    ensures forall i, j :: 0 <= i < j < f.num ==> f.key[i] < f.key[j]
  {
    forall i, j | 0 <= i < j < f.num ensures f.key[i] < f.key[j] {
      assert Recs(f)[i].key < Recs(f)[j].key;
    }
  }

  lemma {:induction false} UnderMore(t: Tree, p: seq<nat>, c: nat)
    requires At(t, p) && c < |Under(t, p).kids|
    ensures At(t, p + [c]) && Under(t, p + [c]) == Under(t, p).kids[c]
    decreases |p|
  {
    if p == [] {
      assert ([] + [c])[1..] == [];
    } else {
      assert (p + [c])[1..] == p[1..] + [c];
      UnderMore(t.kids[p[0]], p[1..], c);
    }
  }
}
