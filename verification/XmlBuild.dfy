/** The tree the reader builds: linking a node, naming it, giving it attributes and a value, and the stack of open
    nodes. */
module XmlBuild {
  import opened Records
  import opened Xml
  import opened XmlNodes

  // ---------------------------------------------------------------- the changes, on the store

  ghost function NewFields(name: string, value: string, kind: Kind, parent: Node): (g: Fields)
    ensures g.name == name && g.value == value && g.next == g.child == g.tail == null && g.parent == parent
      && g.kind == kind && !g.hasChild && !g.hasAttr
  {
    Fields(name, value, kind, null, null, null, parent, false, false, false)
  }

  /** The node at the top of the stack, and its last child if any, after `n` joined its list. */
  ghost function Joined(m: Store, u: Tree, q: seq<nat>, n: Node, g: Fields): (m': Store)
    requires Rooted(m, u, q)
    ensures m'.Keys == m.Keys + {n}
  {
    var f := m[u.node].f;
    var top := f.(child := if f.tail == null then n else f.child, tail := n,
                  hasChild := f.hasChild || g.kind == ChildNode, hasAttr := f.hasAttr || g.kind == AttrNode);
    var m1 := m[u.node := Cell(top, q)];
    var m2 := if f.tail == null then m1 else m1[f.tail := Cell(m[f.tail].f.(next := n), m[f.tail].at)];
    m2[n := Cell(g, q + [|List(u)|])]
  }

  ghost function WithChild(u: Tree, n: Node): Tree { u.(kids := u.kids + [Tree(n, [], [])]) }

  ghost function WithAttr(u: Tree, n: Node): Tree { u.(attrs := u.attrs + [n]) }

  lemma JoinedCells(m: Store, u: Tree, q: seq<nat>, n: Node, g: Fields)
    requires Rooted(m, u, q) && n !in m.Keys
    ensures var m', list := Joined(m, u, q, n, g), List(u);
      && (forall k :: k in m.Keys && k != u.node && (list == [] || k != list[|list| - 1]) ==> m'[k] == m[k])
      && (list != [] ==>
         list[|list| - 1] != u.node && m'[list[|list| - 1]]
         == m[list[|list| - 1]].(f := m[list[|list| - 1]].f.(next := n)))
      && m'[n] == Cell(g, q + [|list|]) && m'[u.node].at == q
      && m'[u.node].f == m[u.node].f.(child := (list + [n])[0], tail := n,
           hasChild := m[u.node].f.hasChild || g.kind == ChildNode, hasAttr := m[u.node].f.hasAttr
             || g.kind == AttrNode)
  {
    var list := List(u);
    if list != [] { assert Placed(m, u, q, |list| - 1); }
  }

  lemma JoinedElsewhere(m: Store, u: Tree, q: seq<nat>, n: Node, g: Fields)
    requires Rooted(m, u, q) && n !in m.Keys
    ensures SameElsewhere(m, Joined(m, u, q, n, g), q) && SameSeen(m, Joined(m, u, q, n, g), u.node)
  {
    JoinedCells(m, u, q, n, g);
    var list := List(u);
    if list != [] { assert Placed(m, u, q, |list| - 1); }
    hide Joined;
  }

  lemma JoinedBelow(m: Store, u: Tree, q: seq<nat>, n: Node, g: Fields, i: nat)
    requires Rooted(m, u, q) && n !in m.Keys && i < |List(u)|
    ensures SameBelow(m, Joined(m, u, q, n, g), q + [i])
  {
    JoinedCells(m, u, q, n, g);
    hide Joined;
    var m', list := Joined(m, u, q, n, g), List(u);
    var last := list[|list| - 1];
    assert Placed(m, u, q, |list| - 1);
    forall k | k in m.Keys && q + [i] <= m[k].at
      ensures k in m'.Keys && m'[k].at == m[k].at && (m'[k].f == m[k].f
        || (m[k].at == q + [i] && m'[k].f == m[k].f.(next := m'[k].f.next)))
    {
      assert m[k].at[|q|] == i;
      if k == last { assert m[k].at == q + [|list| - 1]; }
    }
  }

  /** Everything about the lengthened list, whichever kind of node joined it. */
  lemma JoinedList(m: Store, u: Tree, q: seq<nat>, n: Node, g: Fields, u': Tree)
    requires Rooted(m, u, q) && n !in m.Keys && g.next == null && g.parent == u.node
    requires u'.node == u.node && List(u') == List(u) + [n]
    requires if g.kind == AttrNode then u.kids == [] && u' == WithAttr(u, n)
      else g.kind == ChildNode && u' == WithChild(u, n)
    ensures Rooted(Joined(m, u, q, n, g), u', q)
  {
    hide Joined, List, Linked, Rooted, Placed;
    JoinedCells(m, u, q, n, g);
    JoinedLinks(m, u, q, n, g);
    AllPlaced(m, u, q, n, g, u');
    RootedIs(m, u, q);
    RootedFrom(Joined(m, u, q, n, g), u', q);
  }

  lemma AllPlaced(m: Store, u: Tree, q: seq<nat>, n: Node, g: Fields, u': Tree)
    requires Rooted(m, u, q) && n !in m.Keys && g.parent == u.node
    requires u'.node == u.node && List(u') == List(u) + [n]
    requires if g.kind == AttrNode then u.kids == [] && u' == WithAttr(u, n)
      else g.kind == ChildNode && u' == WithChild(u, n)
    ensures forall i :: 0 <= i < |List(u')| ==> Placed(Joined(m, u, q, n, g), u', q, i)
  {
    JoinedCells(m, u, q, n, g);
    hide Joined, List, Linked, Rooted;
    forall i | 0 <= i < |List(u')| ensures Placed(Joined(m, u, q, n, g), u', q, i) {
      if i < |List(u)| { JoinedPlaced(m, u, q, n, g, i); } else { assert List(u')[i] == n; }
    }
  }

  lemma RootedIs(m: Store, u: Tree, q: seq<nat>)
    requires Rooted(m, u, q)
    ensures u.node in m.Keys && m[u.node].at == q
    ensures m[u.node].f.hasAttr == (u.attrs != []) && m[u.node].f.hasChild == (u.kids != [])
  {
  }

  lemma RootedFrom(m: Store, u: Tree, q: seq<nat>)
    requires u.node in m.Keys && m[u.node].at == q && Linked(m, m[u.node].f.child, m[u.node].f.tail, List(u))
    requires forall i :: 0 <= i < |List(u)| ==> Placed(m, u, q, i)
    requires m[u.node].f.hasAttr == (u.attrs != []) && m[u.node].f.hasChild == (u.kids != [])
    ensures Rooted(m, u, q)
  {
  }

  lemma JoinedPlaced(m: Store, u: Tree, q: seq<nat>, n: Node, g: Fields, i: nat)
    requires Rooted(m, u, q) && n !in m.Keys && i < |List(u)|
    ensures Placed(Joined(m, u, q, n, g), u, q, i)
  {
    JoinedCells(m, u, q, n, g);
    hide Joined;
    assert Placed(m, u, q, i);
    assert (q + [i])[|q|] == i;
    assert List(u)[i] != u.node;
  }

  lemma JoinedLinks(m: Store, u: Tree, q: seq<nat>, n: Node, g: Fields)
    requires Rooted(m, u, q) && n !in m.Keys && g.next == null
    ensures var m', f := Joined(m, u, q, n, g),
      Joined(m, u, q, n, g)[u.node].f; Linked(m', f.child, f.tail, List(u) + [n])
  {
    JoinedCells(m, u, q, n, g);
    hide Joined;
    var m', list := Joined(m, u, q, n, g), List(u);
    forall i | 0 <= i < |list| ensures list[i] in m'.Keys && m'[list[i]].f.next == After(list + [n], i) {
      assert Placed(m, u, q, i) && Placed(m, u, q, |list| - 1);
      assert (q + [i])[|q|] == i && (q + [|list| - 1])[|q|] == |list| - 1;
    }
  }

  /** A new last element of the open node. */
  lemma ChildJoins(m: Store, u: Tree, q: seq<nat>, n: Node, g: Fields)
    requires Rep(m, u, q) && n !in m.Keys && Rooted(m, u, q) && g == NewFields("", "", ChildNode, u.node)
    ensures var m', u' := Joined(m, u, q, n, g), WithChild(u, n);
      Rep(m', u', q) && AsElem(m', u') == AsElem(m, u).(kids := AsElem(m, u).kids + [Elem("", [], None, [])])
  {
    hide *;
    var m', u' := Joined(m, u, q, n, g), WithChild(u, n);
    RepParts(m, u, q);
    ListWithChild(u, n);
    JoinedList(m, u, q, n, g, u');
    forall k | 0 <= k < |u.kids|
      ensures Rep(m', u.kids[k], q + [|u.attrs| + k]) && u.kids[k].node in m.Keys && u.kids[k].node in m'.Keys
        && AsElem(m', u.kids[k]) == AsElem(m, u.kids[k])
    {
      JoinedBelow(m, u, q, n, g, |u.attrs| + k);
      Frame(m, m', u.kids[k], q + [|u.attrs| + k]);
      RepParts(m, u.kids[k], q + [|u.attrs| + k]);
      RepParts(m', u.kids[k], q + [|u.attrs| + k]);
    }
    NewIsRep(m, u, q, n, g);
    forall k | 0 <= k < |u'.kids| ensures Rep(m', u'.kids[k], q + [|u'.attrs| + k]) {}
    RepFrom(m', u', q);
    ChildValue(m, u, q, n, g);
  }

  lemma ListWithChild(u: Tree, n: Node)
    ensures List(WithChild(u, n)) == List(u) + [n] && WithChild(u, n) == u.(kids := u.kids + [Tree(n, [], [])])
  {
  }

  lemma NewIsRep(m: Store, u: Tree, q: seq<nat>, n: Node, g: Fields)
    requires Rooted(m, u, q) && n !in m.Keys && g.child == null && g.tail == null && !g.hasChild && !g.hasAttr
    ensures Rep(Joined(m, u, q, n, g), Tree(n, [], []), q + [|u.attrs| + |u.kids|])
  {
    JoinedCells(m, u, q, n, g);
    hide Joined;
    assert List(Tree(n, [], [])) == [];
  }

  lemma ChildValue(m: Store, u: Tree, q: seq<nat>, n: Node, g: Fields)
    requires Rooted(m, u, q) && n !in m.Keys && g == NewFields("", "", ChildNode, u.node)
    requires forall k :: 0 <= k < |u.kids| ==>
      u.kids[k].node in m.Keys && u.kids[k].node in Joined(m, u, q, n, g).Keys
        && AsElem(Joined(m, u, q, n, g), u.kids[k]) == AsElem(m, u.kids[k])
    ensures AsElem(Joined(m, u, q, n, g), WithChild(u, n))
      == AsElem(m, u).(kids := AsElem(m, u).kids + [Elem("", [], None, [])])
  {
    var m', u' := Joined(m, u, q, n, g), WithChild(u, n);
    JoinedCells(m, u, q, n, g);
    JoinedAttrs(m, u, q, n, g);
    hide Joined, Rooted;
    assert AttrsOf(m', []) == [] && AsElems(m', []) == [];
    var e := AsElem(m', Tree(n, [], []));
    assert e == Elem("", [], None, []);
    assert AsElems(m', u'.kids) == AsElems(m, u.kids) + [e];
  }

  lemma JoinedAttrs(m: Store, u: Tree, q: seq<nat>, n: Node, g: Fields)
    requires Rooted(m, u, q) && n !in m.Keys
    ensures AttrsOf(Joined(m, u, q, n, g), u.attrs) == AttrsOf(m, u.attrs)
  {
    JoinedCells(m, u, q, n, g);
    var m' := Joined(m, u, q, n, g);
    hide Joined;
    forall i | 0 <= i < |u.attrs| ensures AttrOf(m', u.attrs[i]) == AttrOf(m, u.attrs[i]) {
      assert Placed(m, u, q, i);
      assert List(u)[i] == u.attrs[i] && (q + [i])[|q|] == i;
    }
  }

  /** A new last attribute of an open node that has no elements yet. */
  lemma AttrJoins(m: Store, u: Tree, q: seq<nat>, n: Node, g: Fields)
    requires Rep(m, u, q) && n !in m.Keys && Rooted(m, u, q) && u.kids == []
      && g == NewFields(g.name, g.value, AttrNode, u.node)
    ensures var m', u' := Joined(m, u, q, n, g), WithAttr(u, n);
      Rep(m', u', q) && AsElem(m', u') == AsElem(m, u).(attrs := AsElem(m, u).attrs + [Attr(g.name, g.value)])
  {
    var m', u' := Joined(m, u, q, n, g), WithAttr(u, n);
    assert List(u') == List(u) + [n];
    JoinedList(m, u, q, n, g, u');
    JoinedCells(m, u, q, n, g);
    JoinedAttrs(m, u, q, n, g);
    hide Joined, Rooted, Placed, List;
    RepFrom(m', u', q);
    assert AttrsOf(m', u'.attrs) == AttrsOf(m, u.attrs) + [Attr(g.name, g.value)];
    assert AsElems(m', u'.kids) == AsElems(m, u.kids);
  }

  /** A new name or value of a node. */
  ghost function Renewed(m: Store, n: Node, name: string, value: string, hasValue: bool): (m': Store)
    requires n in m.Keys
    ensures m'.Keys == m.Keys
  {
    m[n := m[n].(f := m[n].f.(name := name, value := value, hasValue := hasValue))]
  }

  lemma RenewKeeps(m: Store, u: Tree, q: seq<nat>, name: string, value: string, hasValue: bool)
    requires Rep(m, u, q) && u.node in m.Keys
    ensures var m' := Renewed(m, u.node, name, value, hasValue);
      && Rep(m', u, q) && SameElsewhere(m, m', q) && SameSeen(m, m', u.node)
      && AsElem(m', u) == AsElem(m, u).(name := name, value := if hasValue then Some(value) else None)
  {
    hide *;
    var m' := Renewed(m, u.node, name, value, hasValue);
    RepParts(m, u, q);
    RenewedRoot(m, u, q, name, value, hasValue);
    forall k | 0 <= k < |u.kids|
      ensures Rep(m', u.kids[k], q + [|u.attrs| + k]) && u.kids[k].node in m.Keys && u.kids[k].node in m'.Keys
        && AsElem(m', u.kids[k]) == AsElem(m, u.kids[k])
    {
      RenewedBelow(m, u, q, name, value, hasValue, |u.attrs| + k);
      Frame(m, m', u.kids[k], q + [|u.attrs| + k]);
      RepParts(m, u.kids[k], q + [|u.attrs| + k]);
      RepParts(m', u.kids[k], q + [|u.attrs| + k]);
    }
    RepFrom(m', u, q);
    RenewedValue(m, u, q, name, value, hasValue);
  }

  lemma RenewedRoot(m: Store, u: Tree, q: seq<nat>, name: string, value: string, hasValue: bool)
    requires Rooted(m, u, q)
    ensures var m' := Renewed(m, u.node, name, value, hasValue);
      Rooted(m', u, q) && SameElsewhere(m, m', q) && SameSeen(m, m', u.node)
  {
    var m' := Renewed(m, u.node, name, value, hasValue);
    forall i | 0 <= i < |List(u)| ensures Placed(m', u, q, i) { assert Placed(m, u, q, i); }
  }

  lemma RenewedBelow(m: Store, u: Tree, q: seq<nat>, name: string, value: string, hasValue: bool, i: nat)
    requires Rooted(m, u, q)
    ensures SameBelow(m, Renewed(m, u.node, name, value, hasValue), q + [i])
  {
  }

  lemma RenewedValue(m: Store, u: Tree, q: seq<nat>, name: string, value: string, hasValue: bool)
    requires Rooted(m, u, q)
    requires forall k :: 0 <= k < |u.kids| ==>
      u.kids[k].node in m.Keys && AsElem(Renewed(m, u.node, name, value, hasValue), u.kids[k]) == AsElem(m, u.kids[k])
    ensures AsElem(Renewed(m, u.node, name, value, hasValue), u) ==
      AsElem(m, u).(name := name, value := if hasValue then Some(value) else None)
  {
    var m' := Renewed(m, u.node, name, value, hasValue);
    forall i | 0 <= i < |u.attrs| ensures AttrOf(m', u.attrs[i]) == AttrOf(m, u.attrs[i]) {
      assert Placed(m, u, q, i);
      assert List(u)[i] == u.attrs[i] && |q + [i]| != |q|;
    }
    assert AttrsOf(m', u.attrs) == AttrsOf(m, u.attrs);
    assert AsElems(m', u.kids) == AsElems(m, u.kids);
  }
}
