/** The nodes of `xml_tree.h` in memory: what makes linked nodes a tree, and the changes the reader makes. */
module XmlNodes {
  import opened Records
  import opened Xml

  datatype Kind = RootNode | ChildNode | AttrNode | UnknownNode

  /** The fields of a node other than `temp`. */
  datatype Fields = Fields(name: string, value: string, kind: Kind, next: Node?, child: Node?, tail: Node?,
    parent: Node?,
                           hasChild: bool, hasAttr: bool, hasValue: bool)

  class Node {
    var name: string
    var value: string
    var kind: Kind
    var next: Node?
    var child: Node?
    var tail: Node?
    var parent: Node?
    var hasChild: bool
    var hasAttr: bool
    var hasValue: bool
    var temp: Node?

    /** `xml_node_init`. */
    constructor (kind: Kind)
      ensures All() == Fields("", "", kind, null, null, null, null, false, false, false)
    {
      name, value, this.kind := "", "", kind;
      next, child, tail, parent, temp := null, null, null, null, null;
      hasChild, hasAttr, hasValue := false, false, false;
    }

    ghost function All(): Fields
      reads this
    {
      Fields(name, value, kind, next, child, tail, parent, hasChild, hasAttr, hasValue)
    }
  }

  /** A node's fields, and its place: the positions on the way from the root. */
  datatype Cell = Cell(f: Fields, at: seq<nat>)

  type Store = map<Node, Cell>

  ghost predicate Holds(m: Store)
    reads m.Keys
  {
    forall n :: n in m.Keys ==> n.All() == m[n].f
  }

  /** The nodes of a tree. */
  datatype Tree = Tree(node: Node, attrs: seq<Node>, kids: seq<Tree>)

  ghost function Heads(kids: seq<Tree>): (r: seq<Node>)
    ensures |r| == |kids| && forall i :: 0 <= i < |r| ==> r[i] == kids[i].node
  {
    seq(|kids|, i requires 0 <= i < |kids| => kids[i].node)
  }

  /** The list of a node's children: its attributes, and after them its elements. */
  ghost function List(t: Tree): (r: seq<Node>)
    ensures |r| == |t.attrs| + |t.kids|
  {
    t.attrs + Heads(t.kids)
  }

  ghost function After(list: seq<Node>, i: nat): Node? {
    if i + 1 < |list| then list[i + 1] else null
  }

  ghost predicate Linked(m: Store, first: Node?, last: Node?, list: seq<Node>) {
    && first == (if list == [] then null else list[0])
    && last == (if list == [] then null else list[|list| - 1])
    && forall i :: 0 <= i < |list| ==> list[i] in m.Keys && m[list[i]].f.next == After(list, i)
  }

  ghost predicate Placed(m: Store, t: Tree, p: seq<nat>, i: nat)
    requires i < |List(t)|
  {
    var n := List(t)[i];
    n in m.Keys && m[n].at == p + [i] && m[n].f.parent == t.node && m[n].f.kind == if i < |t.attrs| then AttrNode
      else ChildNode
  }

  /** One node of the tree, its links, its flags and its list. */
  ghost predicate Rooted(m: Store, t: Tree, p: seq<nat>) {
    && t.node in m.Keys && m[t.node].at == p
    && Linked(m, m[t.node].f.child, m[t.node].f.tail, List(t))
    && (forall i :: 0 <= i < |List(t)| ==> Placed(m, t, p, i))
    && m[t.node].f.hasAttr == (t.attrs != []) && m[t.node].f.hasChild == (t.kids != [])
  }

  ghost predicate Rep(m: Store, t: Tree, p: seq<nat>)
    decreases t
  {
    Rooted(m, t, p) && forall k :: 0 <= k < |t.kids| ==> Rep(m, t.kids[k], p + [|t.attrs| + k])
  }

  ghost function AttrOf(m: Store, n: Node): Attr {
    if n in m.Keys then Attr(m[n].f.name, m[n].f.value) else Attr("", "")
  }

  ghost function AttrsOf(m: Store, attrs: seq<Node>): (r: seq<Attr>)
    ensures |r| == |attrs| && forall i :: 0 <= i < |r| ==> r[i] == AttrOf(m, attrs[i])
  {
    seq(|attrs|, i requires 0 <= i < |attrs| => AttrOf(m, attrs[i]))
  }

  /** The tree as a value. */
  ghost function AsElem(m: Store, t: Tree): Elem
    requires t.node in m.Keys
    decreases t, 1
  {
    var f := m[t.node].f;
    Elem(f.name, AttrsOf(m, t.attrs), if f.hasValue then Some(f.value) else None, AsElems(m, t.kids))
  }

  ghost function AsElems(m: Store, kids: seq<Tree>): (r: seq<Elem>)
    ensures |r| == |kids| && forall k :: 0 <= k < |kids| && kids[k].node in m.Keys ==> r[k] == AsElem(m, kids[k])
    decreases kids, 0
  {
    seq(|kids|, k requires 0 <= k < |kids| => if kids[k].node in m.Keys then AsElem(m, kids[k])
      else Elem("", [], None, []))
  }

  // ---------------------------------------------------------------- changes elsewhere

  /** Nothing changed at `p` or below, except perhaps the link from the node at `p` to its brother. */
  ghost predicate SameBelow(m: Store, m': Store, p: seq<nat>) {
    forall n :: n in m.Keys && p <= m[n].at ==>
      n in m'.Keys && m'[n].at == m[n].at && (m'[n].f == m[n].f
        || (m[n].at == p && m'[n].f == m[n].f.(next := m'[n].f.next)))
  }

  lemma {:induction false} Frame(m: Store, m': Store, t: Tree, p: seq<nat>)
    requires Rep(m, t, p) && SameBelow(m, m', p)
    ensures Rep(m', t, p) && AsElem(m', t) == AsElem(m, t)
    decreases t
  {
    hide Linked, Rep, AsElem, AsElems;
    RepParts(m, t, p);
    RootedKeeps(m, m', t, p);
    forall k | 0 <= k < |t.kids|
      ensures Rep(m', t.kids[k], p + [|t.attrs| + k]) && t.kids[k].node in m.Keys && t.kids[k].node in m'.Keys
        && AsElem(m', t.kids[k]) == AsElem(m, t.kids[k])
    {
      BelowMore(m, m', p, |t.attrs| + k);
      Frame(m, m', t.kids[k], p + [|t.attrs| + k]);
      RepParts(m, t.kids[k], p + [|t.attrs| + k]);
      RepParts(m', t.kids[k], p + [|t.attrs| + k]);
    }
    RepFrom(m', t, p);
    ValueKeeps(m, m', t, p);
  }

  lemma RepParts(m: Store, t: Tree, p: seq<nat>)
    requires Rep(m, t, p)
    ensures Rooted(m, t, p) && t.node in m.Keys
    ensures forall k :: 0 <= k < |t.kids| ==> Rep(m, t.kids[k], p + [|t.attrs| + k])
  {
  }

  lemma RepFrom(m: Store, t: Tree, p: seq<nat>)
    requires Rooted(m, t, p) && forall k :: 0 <= k < |t.kids| ==> Rep(m, t.kids[k], p + [|t.attrs| + k])
    ensures Rep(m, t, p)
  {
  }

  lemma BelowMore(m: Store, m': Store, p: seq<nat>, i: nat)
    requires SameBelow(m, m', p)
    ensures SameBelow(m, m', p + [i])
  {
    forall n | n in m.Keys && p + [i] <= m[n].at
      ensures n in m'.Keys && m'[n].at == m[n].at && m'[n].f == m[n].f
    {
      assert p <= m[n].at;
    }
  }

  lemma RootedKeeps(m: Store, m': Store, t: Tree, p: seq<nat>)
    requires Rooted(m, t, p) && SameBelow(m, m', p)
    ensures Rooted(m', t, p) && t.node in m.Keys && t.node in m'.Keys
    ensures m'[t.node].f == m[t.node].f.(next := m'[t.node].f.next)
  {
    forall i | 0 <= i < |List(t)|
      ensures List(t)[i] in m'.Keys && m'[List(t)[i]] == m[List(t)[i]] && Placed(m', t, p, i)
    {
      assert Placed(m, t, p, i);
      assert p <= p + [i];
    }
  }

  lemma ValueKeeps(m: Store, m': Store, t: Tree, p: seq<nat>)
    requires Rooted(m, t, p) && SameBelow(m, m', p) && t.node in m'.Keys
    requires m'[t.node].f == m[t.node].f.(next := m'[t.node].f.next)
    requires forall k :: 0 <= k < |t.kids| ==>
      t.kids[k].node in m.Keys && t.kids[k].node in m'.Keys
      && AsElem(m', t.kids[k]) == AsElem(m, t.kids[k])
    ensures AsElem(m', t) == AsElem(m, t)
  {
    forall i | 0 <= i < |t.attrs| ensures AttrOf(m', t.attrs[i]) == AttrOf(m, t.attrs[i]) {
      assert Placed(m, t, p, i);
      assert p <= p + [i];
    }
    assert AttrsOf(m', t.attrs) == AttrsOf(m, t.attrs);
    assert AsElems(m', t.kids) == AsElems(m, t.kids);
  }

  // ---------------------------------------------------------------- changes at the top of the stack

  ghost predicate Open(t: Tree, d: nat)
    decreases d
  {
    d == 0 || (t.kids != [] && Open(t.kids[|t.kids| - 1], d - 1))
  }

  ghost function Last(t: Tree, d: nat): Tree
    requires Open(t, d)
    decreases d
  {
    if d == 0 then t else Last(t.kids[|t.kids| - 1], d - 1)
  }

  ghost function Place(t: Tree, p: seq<nat>, d: nat): (q: seq<nat>)
    requires Open(t, d)
    ensures p <= q && |q| == |p| + d
    decreases d
  {
    if d == 0 then p else Place(t.kids[|t.kids| - 1], p + [|t.attrs| + |t.kids| - 1], d - 1)
  }

  ghost function Put(t: Tree, d: nat, u: Tree): (t': Tree)
    requires Open(t, d)
    ensures Open(t', d) && Last(t', d) == u && |t'.kids| >= 0
    decreases d
  {
    if d == 0 then u else
      var n := |t.kids| - 1;
      t.(kids := t.kids[..n] + [Put(t.kids[n], d - 1, u)])
  }

  /** The open element at depth `d`, changed. */
  function Replace(r: Elem, d: nat, e: Elem): (r': Elem)
    requires Deep(r, d)
    ensures Deep(r', d) && Top(r', d) == e
    decreases d
  {
    if d == 0 then e else
      var n := |r.kids| - 1;
      r.(kids := r.kids[..n] + [Replace(r.kids[n], d - 1, e)])
  }

  lemma {:induction false} AppendIs(r: Elem, d: nat, e: Elem)
    requires Deep(r, d)
    ensures Append(r, d, e) == Replace(r, d, Top(r, d).(kids := Top(r, d).kids + [e]))
    decreases d
  {
    if d > 0 { AppendIs(r.kids[|r.kids| - 1], d - 1, e); }
  }

  lemma {:induction false} ReplaceLast(r: Elem, d: nat, x: Elem, y: Elem)
    requires Deep(r, d)
    ensures Replace(Append(r, d, x), d + 1, y) == Append(r, d, y)
    decreases d
  {
    var n := |r.kids|;
    if d == 0 {
      assert (r.kids + [x])[..n] == r.kids;
      assert Replace(x, 0, y) == y;
    } else {
      ReplaceLast(r.kids[n - 1], d - 1, x, y);
      assert (r.kids[..n - 1] + [Append(r.kids[n - 1], d - 1, x)])[..n - 1] == r.kids[..n - 1];
    }
  }

  /** Nothing changed away from `q`. */
  ghost predicate SameElsewhere(m: Store, m': Store, q: seq<nat>) {
    forall n :: n in m.Keys && !(q <= m[n].at) ==> n in m'.Keys && m'[n] == m[n]
  }

  /** The node at `q` itself keeps what its list and its parent know of it. */
  ghost predicate SameSeen(m: Store, m': Store, n: Node) {
    && n in m.Keys && n in m'.Keys && m'[n].at == m[n].at
    && m'[n].f.next == m[n].f.next && m'[n].f.parent == m[n].f.parent && m'[n].f.kind == m[n].f.kind
  }

  /** A change at the last open element that leaves a tree there leaves one everywhere. */
  lemma {:induction false} PutKeeps(m: Store, m': Store, t: Tree, p: seq<nat>, d: nat, u: Tree)
    requires Open(t, d) && Rep(m, t, p) && Rep(m', u, Place(t, p, d)) && u.node == Last(t, d).node
    requires SameElsewhere(m, m', Place(t, p, d)) && SameSeen(m, m', u.node)
    ensures Rep(m', Put(t, d, u), p) && Put(t, d, u).node == t.node && SameSeen(m, m', t.node)
    ensures Deep(AsElem(m, t), d) && AsElem(m', Put(t, d, u)) == Replace(AsElem(m, t), d, AsElem(m', u))
    decreases d
  {
    hide Rep, AsElem, AsElems, SameElsewhere, Rooted;
    RepParts(m, t, p);
    if d > 0 {
      var n := |t.kids| - 1;
      var q := p + [|t.attrs| + n];
      PutKeeps(m, m', t.kids[n], q, d - 1, u);
      var t' := Put(t, d, u);
      OthersKeep(m, m', t, p, d);
      RootedPut(m, m', t, p, d, t');
      forall k | 0 <= k < |t'.kids| ensures Rep(m', t'.kids[k], p + [|t'.attrs| + k]) {
        assert k < n ==> t'.kids[k] == t.kids[k];
      }
      RepFrom(m', t', p);
      RepParts(m, t.kids[n], q);
      RepParts(m', t'.kids[n], q);
      ValuePut(m, m', t, p, d, t', AsElem(m', t'.kids[n]));
    }
  }

  lemma OthersKeep(m: Store, m': Store, t: Tree, p: seq<nat>, d: nat)
    requires d > 0 && Open(t, d) && Rep(m, t, p) && SameElsewhere(m, m', Place(t, p, d))
    ensures forall k :: 0 <= k < |t.kids| - 1 ==>
      Rep(m', t.kids[k], p + [|t.attrs| + k]) && t.kids[k].node in m.Keys && t.kids[k].node in m'.Keys
      && AsElem(m', t.kids[k]) == AsElem(m, t.kids[k])
  {
    hide *;
    RepParts(m, t, p);
    OpenHasKids(t, d);
    var n := |t.kids| - 1;
    forall k | 0 <= k < n
      ensures Rep(m', t.kids[k], p + [|t.attrs| + k]) && t.kids[k].node in m.Keys && t.kids[k].node in m'.Keys
      ensures AsElem(m', t.kids[k]) == AsElem(m, t.kids[k])
    {
      PlaceIn(t, p, d);
      OtherPlace(m, m', p, |t.attrs| + k, |t.attrs| + n, Place(t, p, d));
      Frame(m, m', t.kids[k], p + [|t.attrs| + k]);
      RepParts(m, t.kids[k], p + [|t.attrs| + k]);
      RepParts(m', t.kids[k], p + [|t.attrs| + k]);
    }
  }

  lemma OpenHasKids(t: Tree, d: nat)
    requires d > 0 && Open(t, d)
    ensures |t.kids| > 0
  {
  }

  lemma PlaceIn(t: Tree, p: seq<nat>, d: nat)
    requires d > 0 && Open(t, d)
    ensures p + [|t.attrs| + |t.kids| - 1] <= Place(t, p, d)
  {
  }

  lemma OtherPlace(m: Store, m': Store, p: seq<nat>, i: nat, j: nat, q: seq<nat>)
    requires i != j && p + [j] <= q && SameElsewhere(m, m', q)
    ensures SameBelow(m, m', p + [i])
  {
    forall n | n in m.Keys && p + [i] <= m[n].at ensures n in m'.Keys && m'[n] == m[n] {
      assert m[n].at[|p|] == i && (p + [j])[|p|] == j;
      assert q[|p|] == j;
    }
  }

  lemma RootedPut(m: Store, m': Store, t: Tree, p: seq<nat>, d: nat, t': Tree)
    requires d > 0 && Open(t, d) && Rooted(m, t, p) && SameElsewhere(m, m', Place(t, p, d))
    requires t'.node == t.node && t'.attrs == t.attrs && |t'.kids| == |t.kids|
    requires forall k :: 0 <= k < |t.kids| ==> t'.kids[k].node == t.kids[k].node
    requires SameSeen(m, m', t.kids[|t.kids| - 1].node)
    ensures Rooted(m', t', p) && SameSeen(m, m', t.node) && m'[t.node] == m[t.node]
  {
    PlaceIn(t, p, d);
    var q, j := Place(t, p, d), |t.attrs| + |t.kids| - 1;
    assert List(t') == List(t);
    assert !(q <= p);
    forall i | 0 <= i < |List(t)|
      ensures List(t)[i] in m'.Keys && m'[List(t)[i]].f.next == m[List(t)[i]].f.next && Placed(m', t', p, i)
    {
      assert Placed(m, t, p, i);
      if i != j {
        assert (p + [i])[|p|] == i && (p + [j])[|p|] == j;
        assert q[|p|] == j;
      }
    }
    assert Linked(m', m'[t.node].f.child, m'[t.node].f.tail, List(t));
  }

  lemma ValuePut(m: Store, m': Store, t: Tree, p: seq<nat>, d: nat, t': Tree, e: Elem)
    requires d > 0 && Open(t, d) && Rooted(m, t, p) && SameElsewhere(m, m', Place(t, p, d))
    requires t'.node == t.node && t'.attrs == t.attrs && |t'.kids| == |t.kids| && t.node in m'.Keys
      && m'[t.node] == m[t.node]
    requires var n := |t.kids| - 1;
      t'.kids[..n] == t.kids[..n] && t'.kids[n].node in m'.Keys && AsElem(m', t'.kids[n]) == e
        && t.kids[n].node in m.Keys
    requires forall k :: 0 <= k < |t.kids| - 1 ==>
      t.kids[k].node in m.Keys && t.kids[k].node in m'.Keys
      && AsElem(m', t.kids[k]) == AsElem(m, t.kids[k])
    ensures |AsElem(m, t).kids| == |t.kids| && AsElem(m', t')
      == AsElem(m, t).(kids := AsElem(m, t).kids[..|t.kids| - 1] + [e])
    ensures AsElem(m, t).kids[|t.kids| - 1] == AsElem(m, t.kids[|t.kids| - 1])
  {
    var n := |t.kids| - 1;
    AttrsKeep(m, m', t, p, d);
    hide AttrsOf, Rooted, SameElsewhere, Place, Open;
    KidsPut(m, m', t.kids, t'.kids, e);
  }

  lemma AttrsKeep(m: Store, m': Store, t: Tree, p: seq<nat>, d: nat)
    requires d > 0 && Open(t, d) && Rooted(m, t, p) && SameElsewhere(m, m', Place(t, p, d))
    ensures AttrsOf(m', t.attrs) == AttrsOf(m, t.attrs)
  {
    var n := |t.kids| - 1;
    PlaceIn(t, p, d);
    forall i | 0 <= i < |t.attrs| ensures AttrOf(m', t.attrs[i]) == AttrOf(m, t.attrs[i]) {
      assert Placed(m, t, p, i);
      assert (p + [|t.attrs| + n])[|p|] == |t.attrs| + n && (p + [i])[|p|] == i;
    }
  }

  lemma KidsPut(m: Store, m': Store, kids: seq<Tree>, kids': seq<Tree>, e: Elem)
    requires |kids| == |kids'| > 0
    requires var n := |kids| - 1;
      kids'[..n] == kids[..n] && kids'[n].node in m'.Keys && AsElem(m', kids'[n]) == e && kids[n].node in m.Keys
    requires forall k :: 0 <= k < |kids| - 1 ==>
      kids[k].node in m.Keys && kids[k].node in m'.Keys
      && AsElem(m', kids[k]) == AsElem(m, kids[k])
    ensures AsElems(m', kids') == AsElems(m, kids)[..|kids| - 1] + [e]
  {
    hide AsElem;
    var n := |kids| - 1;
    forall k | 0 <= k < n ensures AsElems(m', kids')[k] == AsElems(m, kids)[k] {
      assert kids'[k] == kids'[..n][k] == kids[..n][k];
    }
  }
}
