/** The nodes of `btree.h` in memory: what makes linked nodes a tree, and how far a change reaches. */
module BNodes {
  import opened Records
  import opened BShape

  datatype Fields = Fields(num: nat, key: seq<int>, data: seq<int>, child: seq<Node?>, parent: Node?)

  /** A node. Its three buffers have a fixed length; only the first `num` keys count. */
  class Node {
    var num: nat
    var key: seq<int>
    var data: seq<int>
    var child: seq<Node?>
    var parent: Node?

    /** `btree_node_alloc`, from an allocator that clears memory: one more place than the limit in each buffer. */
    constructor (max: nat)
      ensures All() == Fields(0, Zeros(max + 1), Zeros(max + 1), Nulls(max + 2), null)
    {
      num, key, data, child, parent := 0, Zeros(max + 1), Zeros(max + 1), Nulls(max + 2), null;
    }

    ghost function All(): Fields
      reads this
    {
      Fields(num, key, data, child, parent)
    }
  }

  function Zeros(n: nat): (s: seq<int>)
    ensures |s| == n
  {
    seq(n, i => 0)
  }

  function Nulls(n: nat): (s: seq<Node?>)
    ensures |s| == n && forall i :: 0 <= i < n ==> s[i] == null
  {
    seq(n, i => null)
  }

  type Store = map<Node, Fields>

  ghost predicate Holds(m: Store)
    reads m.Keys
  {
    forall n :: n in m.Keys ==> n.All() == m[n]
  }

  /** The nodes of a tree. */
  datatype Tree = Tree(node: Node, kids: seq<Tree>)

  ghost predicate Sized(max: nat, f: Fields) {
    1 <= f.num <= max + 1 && |f.key| == |f.data| == max + 1 && |f.child| == max + 2
  }

  ghost predicate Hung(m: Store, f: Fields, parent: Node, kids: seq<Tree>, i: nat)
    requires i < |kids|
  {
    i < |f.child| && f.child[i] == kids[i].node && kids[i].node in m.Keys && m[kids[i].node].parent == parent
  }

  /** One node and its links to its children and back. */
  ghost predicate Rooted(m: Store, t: Tree, max: nat) {
    && t.node in m.Keys && Sized(max, m[t.node])
    && if t.kids == [] then forall i :: 0 <= i < |m[t.node].child| ==> m[t.node].child[i] == null
       else |t.kids| == m[t.node].num + 1 && forall i :: 0 <= i < |t.kids| ==> Hung(m, m[t.node], t.node, t.kids, i)
  }

  ghost predicate Rep(m: Store, t: Tree, max: nat)
    decreases t
  {
    Rooted(m, t, max) && forall k :: 0 <= k < |t.kids| ==> Rep(m, t.kids[k], max)
  }

  ghost function Recs(f: Fields): (r: seq<Data>)
    requires f.num <= |f.key| && f.num <= |f.data|
    ensures |r| == f.num && forall i :: 0 <= i < |r| ==> r[i] == Data(f.key[i], f.data[i])
  {
    seq(f.num, i requires 0 <= i < f.num => Data(f.key[i], f.data[i]))
  }

  ghost function RecsOf(m: Store, n: Node): seq<Data> {
    if n in m.Keys && m[n].num <= |m[n].key| && m[n].num <= |m[n].data| then Recs(m[n]) else []
  }

  /** The tree as a value. */
  ghost function AsBT(m: Store, t: Tree): BT
    decreases t, 1
  {
    BT(RecsOf(m, t.node), AsBTs(m, t.kids))
  }

  ghost function AsBTs(m: Store, kids: seq<Tree>): (r: seq<BT>)
    ensures |r| == |kids| && forall i :: 0 <= i < |kids| ==> r[i] == AsBT(m, kids[i])
    decreases kids, 0
  {
    seq(|kids|, i requires 0 <= i < |kids| => AsBT(m, kids[i]))
  }

  lemma RepParts(m: Store, t: Tree, max: nat)
    requires Rep(m, t, max)
    ensures Rooted(m, t, max) && t.node in m.Keys && forall k :: 0 <= k < |t.kids| ==> Rep(m, t.kids[k], max)
    ensures AsBT(m, t).recs == Recs(m[t.node]) && |AsBT(m, t).recs| == m[t.node].num >= 1
      && |AsBT(m, t).kids| == |t.kids|
    ensures t.kids == [] || |t.kids| == m[t.node].num + 1
    ensures m[t.node].num <= |m[t.node].key| && m[t.node].num <= |m[t.node].data|
    ensures forall k :: 0 <= k < |t.kids| ==> AsBT(m, t).kids[k] == AsBT(m, t.kids[k])
  {
  }

  lemma RepFrom(m: Store, t: Tree, max: nat)
    requires Rooted(m, t, max) && forall k :: 0 <= k < |t.kids| ==> Rep(m, t.kids[k], max)
    ensures Rep(m, t, max)
  {
  }

  // ---------------------------------------------------------------- which nodes are elsewhere

  /** A node is known by its first key: in an ordered tree no other node has it. */
  ghost predicate Mine(m: Store, n: Node, s: seq<Data>) {
    n in m.Keys && |m[n].key| > 0 && HasKey(s, m[n].key[0])
  }

  /** The nodes with a first key in `s` are as they were; the topmost may have a new parent. */
  ghost predicate Same(m: Store, m': Store, s: seq<Data>, top: Node) {
    && top in m.Keys && top in m'.Keys && m'[top] == m[top].(parent := m'[top].parent)
    && forall n :: n in m.Keys && n != top && Mine(m, n, s) ==> n in m'.Keys && m'[n] == m[n]
  }

  lemma FirstIsMine(m: Store, t: Tree, max: nat)
    requires Rep(m, t, max)
    ensures Mine(m, t.node, InOrder(AsBT(m, t))) && m[t.node].key[0] == AsBT(m, t).recs[0].key
  {
    hide Rep, AsBT, InOrder, HasKey;
    RepParts(m, t, max);
    OwnKeys(AsBT(m, t), 0);
  }

  /** The first keys of a node and of its child tell them apart. */
  lemma KidIsOther(m: Store, t: Tree, max: nat, k: nat)
    requires Rep(m, t, max) && Ascending(InOrder(AsBT(m, t))) && k < |t.kids|
    ensures Rep(m, t.kids[k], max) && t.node in m.Keys && t.kids[k].node in m.Keys && t.kids[k].node != t.node
    ensures Mine(m, t.kids[k].node, InOrder(AsBT(m, t))) && !Mine(m, t.node, InOrder(AsBT(m, t.kids[k])))
    ensures Ascending(InOrder(AsBT(m, t.kids[k])))
  {
    hide Rep, AsBT, InOrder, HasKey, Ascending, Rooted;
    RepParts(m, t, max);
    RepParts(m, t.kids[k], max);
    FirstIsMine(m, t, max);
    FirstIsMine(m, t.kids[k], max);
    KidAscending(AsBT(m, t), k);
    KidsApart(AsBT(m, t), k, 0, m[t.kids[k].node].key[0]);
    if Mine(m, t.node, InOrder(AsBT(m, t.kids[k]))) { KidsApart(AsBT(m, t), k, 0, m[t.node].key[0]); }
  }

  lemma {:induction false} Frame(m: Store, m': Store, t: Tree, max: nat)
    requires Rep(m, t, max) && Ascending(InOrder(AsBT(m, t))) && Same(m, m', InOrder(AsBT(m, t)), t.node)
    ensures Rep(m', t, max) && AsBT(m', t) == AsBT(m, t)
    decreases t
  {
    hide Rep, AsBT, InOrder, Mine, Ascending, Rooted, Same;
    RepParts(m, t, max);
    forall k | 0 <= k < |t.kids| ensures SameKid(m, m', t.kids[k], max) {
      KidIsOther(m, t, max, k);
      SameBelow(m, m', t, max, k);
      Frame(m, m', t.kids[k], max);
    }
    SameTop(m, m', InOrder(AsBT(m, t)), t.node);
    RootedKeeps(m, m', t, max);
    RepFrom(m', t, max);
    BTKeeps(m, m', t, max);
  }

  lemma SameTop(m: Store, m': Store, s: seq<Data>, top: Node)
    requires Same(m, m', s, top)
    ensures top in m.Keys && top in m'.Keys && m'[top] == m[top].(parent := m'[top].parent)
  {
  }

  ghost predicate SameKid(m: Store, m': Store, t: Tree, max: nat) {
    Rep(m', t, max) && AsBT(m', t) == AsBT(m, t) && t.node in m.Keys && t.node in m'.Keys && m'[t.node] == m[t.node]
  }

  lemma SameBelow(m: Store, m': Store, t: Tree, max: nat, k: nat)
    requires Rep(m, t, max) && Ascending(InOrder(AsBT(m, t))) && k < |t.kids|
      && Same(m, m', InOrder(AsBT(m, t)), t.node)
    ensures var u := t.kids[k];
      u.node in m'.Keys && u.node in m.Keys && m'[u.node] == m[u.node]
      && Same(m, m', InOrder(AsBT(m, u)), u.node)
  {
    hide Rep, AsBT, InOrder, HasKey, Ascending, Rooted;
    var u := t.kids[k];
    RepParts(m, t, max);
    KidIsOther(m, t, max, k);
    forall n | n in m.Keys && n != u.node && Mine(m, n, InOrder(AsBT(m, u))) ensures n in m'.Keys && m'[n] == m[n] {
      KidsApart(AsBT(m, t), k, 0, m[n].key[0]);
      assert n != t.node;
      assert Mine(m, n, InOrder(AsBT(m, t)));
    }
  }

  lemma RootedKeeps(m: Store, m': Store, t: Tree, max: nat)
    requires Rooted(m, t, max) && t.node in m'.Keys && t.node in m.Keys
      && m'[t.node] == m[t.node].(parent := m'[t.node].parent)
    requires forall k :: 0 <= k < |t.kids| ==> SameKid(m, m', t.kids[k], max)
    ensures Rooted(m', t, max)
  {
    hide Rep, AsBT;
    forall k | 0 <= k < |t.kids| ensures Hung(m', m'[t.node], t.node, t.kids, k) {
      assert SameKid(m, m', t.kids[k], max) && Hung(m, m[t.node], t.node, t.kids, k);
    }
  }

  lemma BTKeeps(m: Store, m': Store, t: Tree, max: nat)
    requires t.node in m'.Keys && t.node in m.Keys && m'[t.node] == m[t.node].(parent := m'[t.node].parent)
    requires forall k :: 0 <= k < |t.kids| ==> SameKid(m, m', t.kids[k], max)
    ensures AsBT(m', t) == AsBT(m, t)
  {
    forall k | 0 <= k < |t.kids| ensures AsBTs(m', t.kids)[k] == AsBTs(m, t.kids)[k] {
      assert SameKid(m, m', t.kids[k], max);
    }
    hide AsBTs, Rep;
    assert RecsOf(m', t.node) == RecsOf(m, t.node);
  }

  // ---------------------------------------------------------------- a change at one place

  ghost predicate At(t: Tree, p: seq<nat>)
    decreases |p|
  {
    p == [] || (p[0] < |t.kids| && At(t.kids[p[0]], p[1..]))
  }

  ghost function Under(t: Tree, p: seq<nat>): Tree
    requires At(t, p)
    decreases |p|
  {
    if p == [] then t else Under(t.kids[p[0]], p[1..])
  }

  ghost function Placed(t: Tree, p: seq<nat>, u: Tree): Tree
    requires At(t, p)
    decreases |p|
  {
    if p == [] then u else t.(kids := t.kids[p[0] := Placed(t.kids[p[0]], p[1..], u)])
  }

  lemma {:induction false} UnderIs(m: Store, t: Tree, p: seq<nat>, max: nat)
    requires Rep(m, t, max) && (At(t, p) || Path(AsBT(m, t), p))
    ensures At(t, p) && Path(AsBT(m, t), p) && Rep(m, Under(t, p), max) && Sub(AsBT(m, t), p) == AsBT(m, Under(t, p))
    decreases |p|
  {
    hide Rep, AsBT, Rooted;
    RepParts(m, t, max);
    if p != [] {
      UnderIs(m, t.kids[p[0]], p[1..], max);
    }
  }

  /** Only nodes with keys in `s` changed. */
  ghost predicate Elsewhere(m: Store, m': Store, s: seq<Data>) {
    forall n :: n in m.Keys && !Mine(m, n, s) ==> n in m'.Keys && m'[n] == m[n]
  }

  /** A change at one place that leaves a tree there leaves one everywhere. */
  lemma {:induction false} PlaceKeeps(m: Store, m': Store, t: Tree, p: seq<nat>, u: Tree, max: nat)
    requires Rep(m, t, max) && Ascending(InOrder(AsBT(m, t))) && At(t, p)
    requires Rep(m', u, max) && Under(t, p).node == u.node && u.node in m.Keys && u.node in m'.Keys
    requires m'[u.node].parent == m[u.node].parent && Elsewhere(m, m', InOrder(AsBT(m, Under(t, p))))
    ensures Rep(m', Placed(t, p, u), max) && Placed(t, p, u).node == t.node && t.node in m.Keys && t.node in m'.Keys
    ensures m'[t.node].parent == m[t.node].parent
    ensures Path(AsBT(m, t), p) && AsBT(m', Placed(t, p, u)) == Put(AsBT(m, t), p, AsBT(m', u))
    decreases |p|
  {
    hide Rep, AsBT, InOrder, Mine, Ascending, Rooted, Elsewhere;
    RepParts(m, t, max);
    if p != [] {
      var i, t' := p[0], Placed(t, p, u);
      KidIsOther(m, t, max, i);
      PlaceKeeps(m, m', t.kids[i], p[1..], u, max);
      UnderIs(m, t.kids[i], p[1..], max);
      SubInOrder(AsBT(m, t.kids[i]), p[1..]);
      OthersKeep(m, m', t, max, i, Ahead(AsBT(m, t.kids[i]), p[1..]), InOrder(AsBT(m, Under(t, p))),
        Behind(AsBT(m, t.kids[i]), p[1..]));
      RootedPlaced(m, m', t, max, i, t');
      forall k | 0 <= k < |t'.kids| ensures Rep(m', t'.kids[k], max) {
        assert k != i ==> SameKid(m, m', t.kids[k], max) && t'.kids[k] == t.kids[k];
      }
      RepFrom(m', t', max);
      BTPlaced(m, m', t, max, i, t');
    }
  }

  /** All but child `i` are as they were. */
  lemma OthersKeep(m: Store, m': Store, t: Tree, max: nat, i: nat, a: seq<Data>, s: seq<Data>, b: seq<Data>)
    requires Rep(m, t, max) && Ascending(InOrder(AsBT(m, t))) && i < |t.kids|
      && InOrder(AsBT(m, t.kids[i])) == a + s + b
    requires Elsewhere(m, m', s)
    ensures t.node in m.Keys && t.node in m'.Keys && m'[t.node] == m[t.node]
    ensures forall k :: 0 <= k < |t.kids| && k != i ==> SameKid(m, m', t.kids[k], max)
  {
    hide Rep, AsBT, InOrder, HasKey, Ascending, Rooted;
    RepParts(m, t, max);
    KidIsOther(m, t, max, i);
    FirstIsMine(m, t, max);
    HasWhole(a, s, b, m[t.node].key[0]);
    assert !Mine(m, t.node, s);
    forall k | 0 <= k < |t.kids| && k != i ensures SameKid(m, m', t.kids[k], max) {
      var v := t.kids[k];
      KidIsOther(m, t, max, k);
      FirstIsMine(m, v, max);
      forall n | n in m.Keys && Mine(m, n, InOrder(AsBT(m, v))) ensures n in m'.Keys && m'[n] == m[n] {
        KidsApart(AsBT(m, t), k, i, m[n].key[0]);
        HasWhole(a, s, b, m[n].key[0]);
        assert !Mine(m, n, s);
      }
      Frame(m, m', v, max);
    }
  }

  lemma HasWhole(a: seq<Data>, s: seq<Data>, b: seq<Data>, key: int)
    ensures HasKey(s, key) ==> HasKey(a + s + b, key)
  {
    hide HasKey;
    HasJoins(a, s, key);
    HasJoins(a + s, b, key);
  }

  lemma RootedPlaced(m: Store, m': Store, t: Tree, max: nat, i: nat, t': Tree)
    requires Rooted(m, t, max) && i < |t.kids| && t.node in m.Keys && t.node in m'.Keys && m'[t.node] == m[t.node]
    requires t'.node == t.node && |t'.kids| == |t.kids| && t'.kids[i].node == t.kids[i].node
    requires forall k :: 0 <= k < |t.kids| && k != i ==> t'.kids[k] == t.kids[k] && SameKid(m, m', t.kids[k], max)
    requires var n := t.kids[i].node; n in m.Keys && n in m'.Keys && m'[n].parent == m[n].parent
    ensures Rooted(m', t', max)
  {
    hide Rep, AsBT;
    forall k | 0 <= k < |t'.kids| ensures Hung(m', m'[t'.node], t'.node, t'.kids, k) {
      assert Hung(m, m[t.node], t.node, t.kids, k);
      assert k != i ==> SameKid(m, m', t.kids[k], max);
    }
  }

  lemma BTPlaced(m: Store, m': Store, t: Tree, max: nat, i: nat, t': Tree)
    requires i < |t.kids| && t.node in m.Keys && t.node in m'.Keys && m'[t.node] == m[t.node]
    requires t'.node == t.node && |t'.kids| == |t.kids|
    requires forall k :: 0 <= k < |t.kids| && k != i ==> t'.kids[k] == t.kids[k] && SameKid(m, m', t.kids[k], max)
    ensures AsBT(m', t') == AsBT(m, t).(kids := AsBT(m, t).kids[i := AsBT(m', t'.kids[i])])
  {
    forall k | 0 <= k < |t.kids| && k != i ensures AsBTs(m', t'.kids)[k] == AsBTs(m, t.kids)[k] {
      assert SameKid(m, m', t.kids[k], max);
    }
    hide Rep;
    assert AsBTs(m', t'.kids) == AsBTs(m, t.kids)[i := AsBT(m', t'.kids[i])];
    assert RecsOf(m', t.node) == RecsOf(m, t.node);
  }
}
