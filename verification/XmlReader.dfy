/** `xml_parse` over nodes in memory: every step of it leaves a linked tree, and it reads what `Xml.Parse` says. */
module XmlReader {
  import opened Records
  import opened Xml
  import opened XmlNodes
  import opened XmlBuild

  /** The open nodes, outermost first. */
  ghost function Spine(t: Tree, d: nat): (r: seq<Node>)
    requires Open(t, d)
    ensures |r| == d
    decreases d
  {
    if d == 0 then [] else [t.kids[|t.kids| - 1].node] + Spine(t.kids[|t.kids| - 1], d - 1)
  }

  lemma {:induction false} SpineLast(t: Tree, d: nat)
    requires Open(t, d)
    ensures d > 0 ==> Spine(t, d)[d - 1] == Last(t, d).node
    decreases d
  {
    if d > 0 { SpineLast(t.kids[|t.kids| - 1], d - 1); }
  }

  lemma {:induction false} SpinePut(t: Tree, d: nat, u: Tree)
    requires Open(t, d) && u.node == Last(t, d).node
    ensures Spine(Put(t, d, u), d) == Spine(t, d)
    decreases d
  {
    if d > 0 { SpinePut(t.kids[|t.kids| - 1], d - 1, u); }
  }

  lemma {:induction false} SpineLess(t: Tree, d: nat)
    requires Open(t, d) && d > 0
    ensures Open(t, d - 1) && Spine(t, d - 1) == Spine(t, d)[..d - 1]
    decreases d
  {
    if d > 1 {
      SpineLess(t.kids[|t.kids| - 1], d - 1);
      assert Spine(t, d)[..d - 1] == [t.kids[|t.kids| - 1].node] + Spine(t.kids[|t.kids| - 1], d - 1)[..d - 2];
    }
  }

  /** The last element of the open one is one deeper. */
  lemma {:induction false} SpineMore(t: Tree, d: nat)
    requires Open(t, d) && Last(t, d).kids != []
    ensures Open(t, d + 1) && var u := Last(t, d); Last(t, d + 1) == u.kids[|u.kids| - 1]
    decreases d
  {
    if d == 0 {
      assert Last(t, 1) == Last(t.kids[|t.kids| - 1], 0);
    } else {
      SpineMore(t.kids[|t.kids| - 1], d - 1);
    }
  }

  lemma {:induction false} LastIsRep(m: Store, t: Tree, p: seq<nat>, d: nat)
    requires Open(t, d) && Rep(m, t, p)
    ensures var u := Last(t, d);
      Rep(m, u, Place(t, p, d)) && Rooted(m, u, Place(t, p, d)) && u.node in m.Keys && t.node in m.Keys
      && Deep(AsElem(m, t), d) && Top(AsElem(m, t), d) == AsElem(m, u)
    decreases d
  {
    hide Rep, Rooted, AsElem, AsElems;
    RepParts(m, t, p);
    if d > 0 {
      var n := |t.kids| - 1;
      var q := p + [|t.attrs| + n];
      RepParts(m, t.kids[n], q);
      LastKid(m, t);
      LastIsRep(m, t.kids[n], q, d - 1);
    }
  }

  lemma LastKid(m: Store, t: Tree)
    requires t.node in m.Keys && t.kids != [] && t.kids[|t.kids| - 1].node in m.Keys
    ensures var ks := AsElem(m, t).kids; |ks| == |t.kids| && ks[|ks| - 1] == AsElem(m, t.kids[|t.kids| - 1])
  {
  }

  /** All fields are as recorded, but the attribute flag of `n` may still have to be set. */
  ghost predicate HoldsBut(m: Store, n: Node)
    reads m.Keys
  {
    forall k :: k in m.Keys ==> k.All() == m[k].f || (k == n && k.All().(hasAttr := true) == m[k].f)
  }

  class Reader {
    const str: string
    const root: Node
    var ptr: nat
    var stack: seq<Node>
    ghost var m: Store
    ghost var tree: Tree

    ghost predicate Shape()
      reads this
    {
      && ptr <= |str| && |stack| <= MAX_DEPTH && root in m.Keys && tree.node == root
      && Rep(m, tree, []) && Open(tree, |stack|) && stack == Spine(tree, |stack|)
    }

    ghost predicate Valid()
      reads this, m.Keys
    {
      Shape() && Holds(m)
    }

    ghost function Contents(): Elem
      reads this
      requires Shape()
    {
      AsElem(m, tree)
    }

    ghost function View(): (st: State)
      reads this
      requires Shape()
    {
      State(ptr, Contents(), |stack|)
    }

    lemma ViewIsSound()
      requires Shape()
      ensures Sound(str, View())
    {
      hide Rep, AsElem;
      LastIsRep(m, tree, [], |stack|);
    }

    /** `xml_init`: an empty root. */
    constructor (str: string)
      ensures Valid() && View() == State(0, Elem("", [], None, []), 0) && fresh(m.Keys) && this.str == str
    {
      this.str, ptr, stack := str, 0, [];
      var r := new Node(RootNode);
      root := r;
      m := map[r := Cell(Fields("", "", RootNode, null, null, null, null, false, false, false), [])];
      tree := Tree(r, [], []);
      new;
      assert List(tree) == [] && AttrsOf(m, []) == [] && AsElems(m, []) == [];
    }

    /** A new tree at the top of the stack, or below it. */
    lemma PutIsShape(m': Store, u: Tree, d: nat)
      requires Shape() && Open(tree, d) && (d == |stack| || d == |stack| + 1) && u.node == Last(tree, d).node
        && m.Keys <= m'.Keys
      requires Rep(m', u, Place(tree, [], d)) && SameElsewhere(m, m', Place(tree, [], d)) && SameSeen(m, m', u.node)
      ensures Rep(m', Put(tree, d, u), []) && Put(tree, d, u).node == root && root in m'.Keys && u.node in m'.Keys
      ensures Open(Put(tree, d, u), |stack|) && Spine(Put(tree, d, u), |stack|) == stack
      ensures Open(Put(tree, d, u), d) && Last(Put(tree, d, u), d) == u
      ensures Deep(Contents(), d) && AsElem(m', Put(tree, d, u)) == Replace(Contents(), d, AsElem(m', u))
    {
      hide Rep, AsElem, SameElsewhere, SameSeen, Rooted;
      PutKeeps(m, m', tree, [], d, u);
      RepParts(m', u, Place(tree, [], d));
      SpinePut(tree, d, u);
      if d > |stack| {
        SpineLess(tree, d);
        SpineLess(Put(tree, d, u), d);
      }
    }

    /** The node a new one joins: the root, or the top of the stack. */
    lemma TopIs() returns (top: Node)
      requires Shape()
      ensures top == if |stack| == 0 then root else stack[|stack| - 1]
      ensures top == Last(tree, |stack|).node && top in m.Keys
      ensures Rep(m, Last(tree, |stack|), Place(tree, [], |stack|))
        && Rooted(m, Last(tree, |stack|), Place(tree, [], |stack|))
      ensures Deep(Contents(), |stack|) && Top(Contents(), |stack|) == AsElem(m, Last(tree, |stack|))
    {
      hide Rep, AsElem, Rooted;
      top := if |stack| == 0 then root else stack[|stack| - 1];
      LastIsRep(m, tree, [], |stack|);
      SpineLast(tree, |stack|);
    }

    /** The first part of `xml_mark_get_name`: a new element at the end of the list of the open one. */
    method LinkChild() returns (node: Node)
      requires Valid()
      modifies this`m, this`tree, m.Keys
      ensures Valid() && fresh(node) && m.Keys == old(m.Keys) + {node}
      ensures Open(tree, |stack| + 1) && Last(tree, |stack| + 1).node == node
      ensures Deep(old(Contents()), |stack|) && Contents() == Append(old(Contents()), |stack|, Elem("", [], None, []))
    {
      hide *;
      ValidIs();
      ghost var t := TopIs();
      ghost var d, u, q, was := |stack|, Last(tree, |stack|), Place(tree, [], |stack|), Contents();
      var top := if |stack| == 0 then root else stack[|stack| - 1];
      node := new Node(UnknownNode);
      EnlistIn(top, node, m, u, q);
      ghost var m' := Joined(m, u, q, node, NewFields("", "", ChildNode, top));
      ChildPut(node, m');
      m, tree := m', Put(tree, d, WithChild(u, node));
      ShapeIs();
    }

    lemma ValidIs()
      requires Valid()
      ensures Shape() && Holds(m) && root in m.Keys && forall k :: k in stack ==> k in m.Keys
    {
      StackIn();
    }

    lemma ShapeIs()
      requires ptr <= |str| && |stack| <= MAX_DEPTH && root in m.Keys && tree.node == root
      requires Rep(m, tree, []) && Open(tree, |stack|) && stack == Spine(tree, |stack|)
      ensures Shape() && Contents() == AsElem(m, tree) && (Holds(m) ==> Valid())
    {
    }

    lemma StackIn()
      requires Shape()
      ensures forall k :: k in stack ==> k in m.Keys
    {
      hide Rep;
      SpineIn(m, tree, [], |stack|);
    }

    lemma ChildPut(node: Node, m': Store)
      requires Shape() && node !in m.Keys && Open(tree, |stack|)
      requires var u, q := Last(tree, |stack|), Place(tree, [], |stack|);
        Rooted(m, u, q) && m' == Joined(m, u, q, node, NewFields("", "", ChildNode, u.node))
      ensures var d := |stack|;
        var t' := Put(tree, d, WithChild(Last(tree, d), node));
        && m'.Keys == m.Keys + {node} && Rep(m', t', []) && t'.node == root && root in m'.Keys
        && Open(t', d) && Spine(t', d) == stack && Open(t', d + 1) && Last(t', d + 1).node == node
        && Deep(Contents(), d) && AsElem(m', t') == Append(Contents(), d, Elem("", [], None, []))
        && ptr <= |str| && |stack| <= MAX_DEPTH
    {
      hide Rep, AsElem, SameElsewhere, SameSeen, Last, Place, Put, Deep, Top, Append, Replace, Joined, Rooted, Spine,
        Open;
      var d, u, q := |stack|, Last(tree, |stack|), Place(tree, [], |stack|);
      LastIsRep(m, tree, [], d);
      var g := NewFields("", "", ChildNode, u.node);
      JoinedElsewhere(m, u, q, node, g);
      ChildJoins(m, u, q, node, g);
      PutIsShape(m', WithChild(u, node), d);
      AppendIs(Contents(), d, Elem("", [], None, []));
      SpineMore(Put(tree, d, WithChild(u, node)), d);
    }

    /** A new name or value for the open node at depth `d`. */
    lemma RenewPut(d: nat, name: string, value: string, hasValue: bool)
      requires Shape() && Open(tree, d) && (d == |stack| || d == |stack| + 1)
      ensures Last(tree, d).node in m.Keys && Deep(Contents(), d)
      ensures var m' := Renewed(m, Last(tree, d).node, name, value, hasValue);
        && Rep(m', tree, []) && root in m'.Keys
        && AsElem(m', tree) == Replace(Contents(), d, Top(Contents(), d).(name := name, value := if hasValue
           then Some(value) else None))
    {
      hide Rep, AsElem, SameElsewhere, SameSeen, Last, Place, Put, Deep, Top, Replace, Renewed, Rooted, Spine, Open;
      var u := Last(tree, d);
      LastIsRep(m, tree, [], d);
      RenewKeeps(m, u, Place(tree, [], d), name, value, hasValue);
      PutIsShape(Renewed(m, u.node, name, value, hasValue), u, d);
      PutSame(tree, d);
    }

    lemma OwnFields(d: nat)
      requires Shape() && Open(tree, d)
      ensures var n := Last(tree, d).node;
        n in m.Keys && Deep(Contents(), d) && Top(Contents(), d).name == m[n].f.name
        && Top(Contents(), d).value == if m[n].f.hasValue then Some(m[n].f.value) else None
    {
      hide Rep, Rooted;
      LastIsRep(m, tree, [], d);
    }

    method SetName(node: Node, name: string)
      requires Valid() && Open(tree, |stack| + 1) && Last(tree, |stack| + 1).node == node
      modifies this`m, node
      ensures Valid() && m.Keys == old(m.Keys)
      ensures var d := |stack| + 1;
        Deep(old(Contents()), d) && Contents() == Replace(old(Contents()), d, Top(old(Contents()), d).(name := name))
    {
      hide *;
      ValidIs();
      OwnFields(|stack| + 1);
      ghost var f := m[node].f;
      RenewPut(|stack| + 1, name, f.value, f.hasValue);
      Rename(node, name, m);
      PartsOfShape();
      m := Renewed(m, node, name, f.value, f.hasValue);
      ShapeIs();
    }

    method SetValue(node: Node, value: string)
      requires Valid() && |stack| > 0 && node == stack[|stack| - 1]
      modifies this`m, node
      ensures Valid() && m.Keys == old(m.Keys)
      ensures var d := |stack|;
        Deep(old(Contents()), d) && Contents()
          == Replace(old(Contents()), d, Top(old(Contents()), d).(value := Some(value)))
    {
      hide *;
      ValidIs();
      ghost var top := TopIs();
      ShapeOpen();
      OwnFields(|stack|);
      ghost var f := m[node].f;
      RenewPut(|stack|, f.name, value, true);
      Revalue(node, value, m);
      PartsOfShape();
      m := Renewed(m, node, f.name, value, true);
      ShapeIs();
    }

    lemma ShapeOpen()
      requires Shape()
      ensures Open(tree, |stack|)
    {
    }

    lemma PartsOfShape()
      ensures Shape() ==>
        ptr <= |str| && |stack| <= MAX_DEPTH && tree.node == root && Open(tree, |stack|)
        && stack == Spine(tree, |stack|)
    {
    }

    // -------------------------------------------------------------- attributes

    /** While attributes join the open node: its attribute flag comes last. */
    ghost predicate Listing(top: Node)
      reads this, m.Keys
    {
      Shape() && HoldsBut(m, top) && |stack| > 0 && top == stack[|stack| - 1]
    }

    /** One attribute joins the list of the open node, which has no elements yet. */
    method LinkAttr(top: Node, node: Node)
      requires Listing(top) && Deep(Contents(), |stack|) && Top(Contents(), |stack|).kids == []
      requires node !in m.Keys && node.All() == NewFields(node.name, node.value, AttrNode, top).(parent := null)
      modifies this`m, this`tree, m.Keys, node
      ensures Listing(top) && m.Keys == old(m.Keys) + {node}
      ensures var e := Top(old(Contents()), |stack|);
        Deep(old(Contents()), |stack|)
          && Contents() == Replace(old(Contents()), |stack|,
             e.(attrs := e.attrs + [Attr(old(node.name), old(node.value))]))
      ensures Deep(Contents(), |stack|) && Top(Contents(), |stack|).kids == [] && Last(tree, |stack|).attrs != []
    {
      hide *;
      ListingIs(top);
      ghost var t := TopIs();
      ShapeOpen();
      ghost var d, u, q, was := |stack|, Last(tree, |stack|), Place(tree, [], |stack|), Contents();
      ghost var g := NewFields(node.name, node.value, AttrNode, top);
      NoKidsYet();
      EnlistAttrIn(top, node, m, u, q);
      ghost var m' := Joined(m, u, q, node, g);
      AttrPut(node, g, m');
      PartsOfShape();
      m, tree := m', Put(tree, d, WithAttr(u, node));
      ShapeIs();
      ListingFrom(top);
    }

    lemma ListingIs(top: Node)
      requires Listing(top)
      ensures Shape() && HoldsBut(m, top) && top in m.Keys && |stack| > 0 && top == stack[|stack| - 1]
    {
      StackIn();
    }

    lemma ListingFrom(top: Node)
      requires Shape() && HoldsBut(m, top) && |stack| > 0 && top == stack[|stack| - 1]
      ensures Listing(top)
    {
    }

    lemma NoKidsYet()
      requires Shape() && Deep(Contents(), |stack|) && Top(Contents(), |stack|).kids == []
      ensures Last(tree, |stack|).kids == []
    {
      hide Rep, Rooted;
      LastIsRep(m, tree, [], |stack|);
    }

    lemma AttrPut(node: Node, g: Fields, m': Store)
      requires Shape() && node !in m.Keys && Open(tree, |stack|) && Last(tree, |stack|).kids == []
      requires var u, q := Last(tree, |stack|), Place(tree, [], |stack|);
        Rooted(m, u, q) && g == NewFields(g.name, g.value, AttrNode, u.node) && m' == Joined(m, u, q, node, g)
      ensures var d := |stack|;
        var t' := Put(tree, d, WithAttr(Last(tree, d), node));
        && m'.Keys == m.Keys + {node} && Rep(m', t', []) && t'.node == root && root in m'.Keys
        && Open(t', d) && Spine(t', d) == stack && Last(t', d).attrs != []
        && Deep(Contents(), d)
        && var e := Top(Contents(), d).(attrs := Top(Contents(), d).attrs + [Attr(g.name, g.value)]);
          AsElem(m', t') == Replace(Contents(), d, e) && e.kids == []
    {
      hide Rep, SameElsewhere, SameSeen, Last, Place, Put, Deep, Top, Replace, Joined, Rooted, Spine, Open;
      var d, u, q := |stack|, Last(tree, |stack|), Place(tree, [], |stack|);
      LastIsRep(m, tree, [], d);
      JoinedElsewhere(m, u, q, node, g);
      hide AsElem;
      AttrJoins(m, u, q, node, g);
      PutIsShape(m', WithAttr(u, node), d);
    }

    // -------------------------------------------------------------- scanning

    method SkipSpaces(i: nat) returns (j: nat)
      requires i <= |str|
      ensures j == Span(IsSpace, str, i) <= |str|
    {
      j := i;
      while IsSpace(At(str, j))
        invariant i <= j <= |str| && Span(IsSpace, str, j) == Span(IsSpace, str, i)
        decreases |str| - j
      {
        j := j + 1;
      }
    }

    method SkipMarks(i: nat) returns (j: nat)
      requires i <= |str|
      ensures j == Span(IsMark, str, i) <= |str|
    {
      j := i;
      while IsMark(At(str, j))
        invariant i <= j <= |str| && Span(IsMark, str, j) == Span(IsMark, str, i)
        decreases |str| - j
      {
        j := j + 1;
      }
    }

    method FindBorder(i: nat, border: char) returns (j: nat)
      requires i <= |str|
      ensures j == Find(str, i, border) <= |str|
    {
      j := i;
      while At(str, j) != border && At(str, j) != '\0'
        invariant i <= j <= |str| && Find(str, j, border) == Find(str, i, border)
        decreases |str| - j
      {
        j := j + 1;
      }
    }

    /** The name and the value of one attribute, put into `node`. */
    method ReadAttr(node: Node, i0: nat) returns (ok: bool, next: nat)
      requires i0 <= |str| && !IsSpace(At(str, i0))
      modifies node`name, node`value
      ensures ok == OneAttr(str, i0).Some?
      ensures node.All() == old(node.All()).(name := node.name, value := node.value)
      ensures ok ==> OneAttr(str, i0) == Some((Attr(node.name, node.value), next)) && i0 < next <= |str|
    {
      hide Span, Find, IsSpace, IsMark;
      NotSpace(i0);
      next := SkipSpaces(i0);
      var start := next;
      next := SkipMarks(next);
      node.name := str[start..next];
      next := SkipSpaces(next);
      if At(str, next) != '=' { return false, next; }
      next := SkipSpaces(next + 1);
      if !IsQuote(At(str, next)) { return false, next; }
      var border := At(str, next);
      var first := next + 1;
      next := FindBorder(first, border);
      if At(str, next) != border { return false, next; }
      node.value := str[first..next];
      next := SkipSpaces(next + 1);
      ok := true;
    }

    lemma NotSpace(i: nat)
      requires !IsSpace(At(str, i))
      ensures Span(IsSpace, str, i) == i
    {
    }

    /** `xml_mark_get_attr`: the attributes from the present place on. */
    method GetAttr() returns (ok: bool)
      requires Valid() && |stack| > 0 && IsMark(At(str, ptr)) && Deep(Contents(), |stack|)
        && Top(Contents(), |stack|).kids == []
      modifies this`m, this`tree, this`ptr, m.Keys
      ensures ok == Attrs(str, old(ptr)).Some? && fresh(m.Keys - old(m.Keys)) && old(m.Keys) <= m.Keys
      ensures ok ==> Valid() && ptr == Attrs(str, old(ptr)).value.1
      ensures ok ==> var e := Top(old(Contents()), |stack|);
        Deep(old(Contents()), |stack|)
        && Contents() == Replace(old(Contents()), |stack|, e.(attrs := e.attrs + Attrs(str, old(ptr)).value.0))
    {
      hide *;
      ValidIs();
      PtrIn();
      var top := stack[|stack| - 1];
      ghost var c, e, start, attrs: seq<Attr> := Contents(), Top(Contents(), |stack|), ptr, [];
      var i, more := ptr, true;
      StartListing(top);
      ListingIs(top);
      NoAttrsYet(str, start, c, |stack|);
      while more
        invariant Shape() && Listing(top) && start <= i <= |str| && ptr == start
        invariant fresh(m.Keys - old(m.Keys)) && old(m.Keys) <= m.Keys
        invariant Deep(Contents(), |stack|) && Top(Contents(), |stack|).kids == [] && Deep(c, |stack|)
        invariant Contents() == Replace(c, |stack|, e.(attrs := e.attrs + attrs))
        invariant more ==> IsMark(At(str, i)) && AttrsFrom(str, start, attrs, i)
        invariant !more ==>
          Attrs(str, start) == Some((attrs, i)) && Open(tree, |stack|)
          && Last(tree, |stack|).attrs != []
        decreases |str| - i, more
      {
        var node := new Node(AttrNode);
        MarkIsNoSpace(str, i);
        var read, next := ReadAttr(node, i);
        if !read {
          NoMoreAttrs(str, start, attrs, i);
          return false;
        }
        NewFieldsAre(node.name, node.value, AttrNode, top);
        ghost var a := Attr(node.name, node.value);
        LinkAttr(top, node);
        ReplaceAgain(c, |stack|, e, attrs, a);
        MoreAttr(str, start, attrs, i, a, next);
        attrs, i, more := attrs + [a], next, IsMark(At(str, next));
        ListingIs(top);
        ShapeOpen();
      }
      ListingIs(top);
      PartsOfShape();
      RootIn();
      ShapeIs();
      ptr := i;
      ShapeIs();
      ListingFrom(top);
      SetAttrFlag(top);
      ok := true;
    }

    lemma PtrIn()
      requires Shape()
      ensures ptr <= |str|
    {
    }

    lemma StartListing(top: Node)
      requires Valid() && |stack| > 0 && top == stack[|stack| - 1]
      ensures Listing(top)
    {
    }

    lemma RootIn()
      requires Shape()
      ensures root in m.Keys && Rep(m, tree, [])
    {
    }

    /** With the flag set the fields are all as recorded. */
    method SetAttrFlag(top: Node)
      requires Listing(top) && Last(tree, |stack|).attrs != []
      modifies top`hasAttr
      ensures Valid() && Contents() == old(Contents())
    {
      ghost var t := TopIs();
      hide Rep, AsElem;
      top.hasAttr := true;
    }

    // -------------------------------------------------------------- tags

    method MoveTo(i: nat)
      requires Valid() && i <= |str|
      modifies this`ptr
      ensures Valid() && ptr == i && Contents() == old(Contents())
    {
      hide Rep, AsElem;
      ptr := i;
    }

    method Push(node: Node)
      requires Valid() && |stack| < MAX_DEPTH && Open(tree, |stack| + 1) && Last(tree, |stack| + 1).node == node
      modifies this`stack
      ensures Valid() && stack == old(stack) + [node] && Contents() == old(Contents())
    {
      hide Rep, AsElem;
      SpineLess(tree, |stack| + 1);
      SpineLast(tree, |stack| + 1);
      stack := stack + [node];
      assert Spine(tree, |stack|) == Spine(tree, |stack|)[..|stack| - 1] + [node];
    }

    method Pop()
      requires Valid() && |stack| > 0
      modifies this`stack
      ensures Valid() && |stack| == old(|stack|) - 1 && Contents() == old(Contents())
    {
      hide Rep, AsElem;
      SpineLess(tree, |stack|);
      stack := stack[..|stack| - 1];
    }

    lemma ContentsDeep()
      requires Valid()
      ensures Deep(Contents(), |stack|)
    {
      ghost var top := TopIs();
    }

    /** `xml_mark_get_name`: the new element is linked before its name is looked at, and pushed last. */
    method GetName() returns (ok: bool)
      requires Valid()
      modifies this, m.Keys
      ensures ok == (IsBorder(At(str, Span(IsMark, str, old(ptr)))) && |old(stack)| < MAX_DEPTH)
      ensures fresh(m.Keys - old(m.Keys)) && old(m.Keys) <= m.Keys
      ensures ok ==> var n := Span(IsMark, str, old(ptr));
        && Valid() && ptr == n <= |str| && |stack| == |old(stack)| + 1 && Deep(old(Contents()), |old(stack)|)
        && Contents() == Append(old(Contents()), |old(stack)|, Elem(str[old(ptr)..n], [], None, []))
    {
      hide *;
      ValidIs();
      PtrIn();
      ContentsDeep();
      ghost var c, d, x := Contents(), |stack|, Elem("", [], None, []);
      var node := LinkChild();
      var n := SkipMarks(ptr);
      if !IsBorder(At(str, n)) { return false; }
      SetName(node, str[ptr..n]);
      ReplaceLast(c, d, x, x.(name := str[ptr..n]));
      if |stack| >= MAX_DEPTH { return false; }
      Push(node);
      MoveTo(n);
      ok := true;
    }

    /** The name and the attributes of a tag. */
    method ParseStart() returns (ok: bool)
      requires Valid()
      modifies this, m.Keys
      ensures ok == (Start(str, old(ptr)).Some? && |old(stack)| < MAX_DEPTH)
      ensures fresh(m.Keys - old(m.Keys)) && old(m.Keys) <= m.Keys
      ensures ok ==> var (leaf, k) := Start(str, old(ptr)).value;
        && Valid() && ptr == k && |stack| == |old(stack)| + 1 && Deep(old(Contents()), |old(stack)|)
        && Contents() == Append(old(Contents()), |old(stack)|, leaf)
    {
      hide Rep, AsElem, Open, Last, Spine, Shape, Valid, Append, Replace, Deep, Top, Span, Find, Attrs, Holds, Contents,
        IsMark, IsSpace;
      ValidIs();
      PtrIn();
      ContentsDeep();
      ghost var c, d, at := Contents(), |stack|, ptr;
      var named := GetName();
      if !named { return false; }
      ghost var x := Elem(str[at..ptr], [], None, []);
      var k := SkipSpaces(ptr);
      MoveTo(k);
      if IsMark(At(str, ptr)) {
        ok := GetAttr();
        if ok { ReplaceLast(c, d, x, x.(attrs := x.attrs + Attrs(str, k).value.0)); }
        assert ok ==> [] + Attrs(str, k).value.0 == Attrs(str, k).value.0;
      } else {
        ok := true;
      }
    }

    /** The rest of a tag: closed at once, followed by a child, or followed by a value. */
    method ParseRest(ghost c: Elem, ghost d: nat, ghost leaf: Elem) returns (ok: bool)
      requires Valid() && |stack| == d + 1 && Deep(c, d) && Contents() == Append(c, d, leaf)
      modifies this, m.Keys
      ensures ok == Rest(str, leaf, old(ptr)).Some? && m.Keys == old(m.Keys)
      ensures ok ==> var (e, closed, next) := Rest(str, leaf, old(ptr)).value;
        && Valid() && ptr == next && |stack| == (if closed then d else d + 1) && Contents() == Append(c, d, e)
    {
      hide Rep, AsElem, Open, Last, Spine, Shape, Valid, Append, Replace, Deep, Top, Span, Find, Value, Attrs, Holds,
        Contents, IsMark, IsSpace;
      ValidIs();
      PtrIn();
      var i := SkipSpaces(ptr);
      if At(str, i) == '/' && At(str, i + 1) == '>' {
        MoveTo(ptr + 2);
        Pop();
        return true;
      }
      i := SkipSpaces(ptr);
      if At(str, i) != '>' { return false; }
      SpaceEnds(i + 1);
      i := SkipSpaces(i + 1);
      MoveTo(i);
      if At(str, ptr) == '<' { return true; }
      ok := GetValue(c, d, leaf);
    }

    lemma SpaceEnds(i: nat)
      ensures !IsSpace(At(str, Span(IsSpace, str, i)))
      decreases |str| - i
    {
      if i < |str| && IsSpace(str[i]) { SpaceEnds(i + 1); }
    }

    lemma FoundIs(i: nat, border: char)
      ensures At(str, Find(str, i, border)) == border || At(str, Find(str, i, border)) == '\0'
      ensures At(str, i) != border && At(str, i) != '\0' ==> i < Find(str, i, border)
      decreases |str| - i
    {
      if At(str, i) != border && At(str, i) != '\0' { FoundIs(i + 1, border); }
    }

    /** Back from a bracket over the white space before it. */
    method TrimBack(lo: nat, hi: nat) returns (last: nat)
      requires lo < hi <= |str| && !IsSpace(At(str, lo))
      ensures last == TrimEnd(str, lo, hi)
    {
      last := hi;
      while IsSpace(str[last - 1])
        invariant lo < last <= hi && TrimEnd(str, lo, last) == TrimEnd(str, lo, hi)
        decreases last
      {
        last := last - 1;
      }
    }

    /** `xml_mark_get_value`. */
    method GetValue(ghost c: Elem, ghost d: nat, ghost leaf: Elem) returns (ok: bool)
      requires Valid() && |stack| == d + 1 && Deep(c, d) && Contents() == Append(c, d, leaf)
      requires !IsSpace(At(str, ptr)) && At(str, ptr) != '<'
      modifies this`m, this`ptr, m.Keys
      ensures ok == Value(str, old(ptr)).Some? && m.Keys == old(m.Keys)
      ensures ok ==> var (v, next) := Value(str, old(ptr)).value;
        Valid() && ptr == next && Contents() == Append(c, d, leaf.(value := Some(v)))
    {
      hide Rep, AsElem, Open, Last, Spine, Shape, Valid, Append, Replace, Deep, Top, Span, Find, Attrs, Holds, Contents,
        IsMark, IsSpace;
      ValidIs();
      PtrIn();
      StackIn();
      var curr := stack[|stack| - 1];
      var p := SkipSpaces(ptr);
      var border := '<';
      ghost var at := ptr;
      if IsQuote(At(str, p)) {
        border := At(str, p);
        p := p + 1;
      }
      MoveTo(p);
      var e := FindBorder(p, border);
      NotSpace(at);
      FoundIs(p, border);
      var last, next;
      if At(str, e) == '<' {
        next := e;
        last := TrimBack(p, e);
      } else if At(str, e) == '\0' {
        return false;
      } else {
        last := e;
        next := SkipSpaces(e + 1);
        if At(str, next) != '<' { return false; }
      }
      SetValue(curr, str[p..last]);
      ReplaceLast(c, d, leaf, leaf.(value := Some(str[p..last])));
      MoveTo(next);
      ok := true;
    }

    /** `xml_parse_mark`. */
    method ParseMark() returns (ok: bool)
      requires Valid() && ptr < |str| && Sound(str, View())
      modifies this, m.Keys
      ensures ok == Mark(str, old(View())).Some? && fresh(m.Keys - old(m.Keys)) && old(m.Keys) <= m.Keys
      ensures ok ==> Valid() && View() == Mark(str, old(View())).value
    {
      hide Rep, AsElem, Open, Last, Spine, Shape, Valid, Append, Replace, Deep, Top, Holds, Contents, Start, Rest,
        Sound;
      ValidIs();
      ghost var c, d, at := Contents(), |stack|, ptr;
      MoveTo(ptr + 1);
      ok := ParseStart();
      if ok {
        ghost var leaf := Start(str, at + 1).value.0;
        ok := ParseRest(c, d, leaf);
        ValidIsIf(ok);
      }
    }

    lemma ValidIsIf(ok: bool)
      requires ok ==> Valid()
      ensures ok ==> Shape()
    {
    }

    /** The top of the stack by its fields. */
    lemma TopName()
      requires Valid() && |stack| > 0
      ensures Deep(Contents(), |stack|) && Top(Contents(), |stack|).name == stack[|stack| - 1].name
    {
      hide Rep, Rooted, AsElem;
      OwnFields(|stack|);
      SpineLast(tree, |stack|);
    }

    /** `xml_parse_end`. */
    method ParseEnd() returns (ok: bool)
      requires Valid() && ptr + 2 <= |str| && Sound(str, View())
      modifies this`ptr, this`stack
      ensures ok == End(str, old(View())).Some?
      ensures ok ==> Valid() && View() == End(str, old(View())).value
    {
      hide Rep, AsElem, Open, Last, Spine, Shape, Valid, Append, Replace, Deep, Top, Holds, Contents, Sound, Span,
        IsMark;
      ValidIs();
      MoveTo(ptr + 2);
      var n := SkipMarks(ptr);
      if At(str, n) != '>' { return false; }
      if |stack| == 0 { return false; }
      var top := stack[|stack| - 1];
      TopName();
      Pop();
      if n - ptr != |top.name| || top.name != str[ptr..n] { return false; }
      MoveTo(n + 1);
      ValidIs();
      ok := true;
    }

    /** The pairs of a version line. */
    method SkipPairs(start: nat) returns (ok: bool, i: nat)
      requires start <= |str|
      ensures ok == VersionPairs(str, start).Some? && (ok ==> i == VersionPairs(str, start).value)
    {
      hide Span, Find, IsSpace, IsMark;
      i := start;
      while At(str, i) != '?' && At(str, i) != '\0'
        invariant i <= |str| && VersionPairs(str, i) == VersionPairs(str, start)
        decreases |str| - i
      {
        var n := SkipMarks(i);
        if n == i || At(str, n) != '=' { return false, i; }
        var q := SkipSpaces(n + 1);
        if !IsQuote(At(str, q)) { return false, i; }
        var e := FindBorder(q + 1, At(str, q));
        if At(str, e) != At(str, q) { return false, i; }
        i := SkipSpaces(e + 1);
      }
      ok := true;
    }

    /** `xml_parse_version`: nothing of it goes into the tree. */
    method ParseVersion() returns (ok: bool)
      requires Valid()
      modifies this`ptr
      ensures ok == Version(str, old(ptr)).Some?
      ensures ok ==> Valid() && ptr == Version(str, old(ptr)).value && Contents() == old(Contents())
    {
      hide Rep, AsElem, Open, Spine, Holds, Span, VersionPairs, IsSpace;
      if !Has(str, ptr, "<?xml ") { return false; }
      var i := SkipSpaces(ptr + 6);
      var paired, j := SkipPairs(i);
      if !paired || At(str, j) != '?' || At(str, j + 1) != '>' { return false; }
      MoveTo(j + 2);
      ok := true;
    }

    /** `xml_parse_note`: nothing of it goes into the tree. */
    method ParseNote() returns (ok: bool)
      requires Valid()
      modifies this`ptr
      ensures ok == Note(str, old(ptr)).Some?
      ensures ok ==> Valid() && ptr == Note(str, old(ptr)).value && Contents() == old(Contents())
    {
      hide Rep, AsElem, Open, Spine, Holds;
      if !Has(str, ptr, "<!--") { return false; }
      var j := ptr + 4;
      while At(str, j) != '\0' && !(At(str, j) == '-' && At(str, j + 1) == '-')
        invariant ptr + 4 <= j <= |str| && Dashes(str, j) == Dashes(str, ptr + 4)
        decreases |str| - j
      {
        j := j + 1;
      }
      if At(str, j) == '\0' || At(str, j + 2) != '>' { return false; }
      MoveTo(j + 3);
      ok := true;
    }

    /** What stands at a bracket. */
    method ParseRound() returns (ok: bool)
      requires Valid() && ptr < |str| && At(str, ptr) == '<' && Sound(str, View())
      modifies this, m.Keys
      ensures ok == Round(str, old(View())).Some? && fresh(m.Keys - old(m.Keys)) && old(m.Keys) <= m.Keys
      ensures ok ==> Valid() && View() == Round(str, old(View())).value
    {
      hide Rep, AsElem, Open, Last, Spine, Shape, Valid, Append, Replace, Deep, Top, Holds, Contents, Sound, Mark, End,
        Version, Note;
      ValidIs();
      var c := At(str, ptr + 1);
      if c == '?' {
        ok := ParseVersion();
      } else if c == '!' {
        ok := ParseNote();
      } else if c == '/' {
        ok := ParseEnd();
      } else {
        ok := ParseMark();
      }
      ValidIsIf(ok);
    }

    /** `xml_parse`: on success the nodes in memory are the tree the text stands for, and nothing is open. */
    method ParseAll() returns (ok: bool)
      requires Valid() && Sound(str, View())
      modifies this, m.Keys
      ensures ok == Parse(str, old(View())).Some? && fresh(m.Keys - old(m.Keys))
      ensures ok ==> Valid() && stack == [] && Contents() == Parse(str, old(View())).value
    {
      hide Rep, AsElem, Open, Last, Spine, Shape, Valid, Append, Replace, Deep, Top, Holds, Contents, Sound, Round;
      ValidIs();
      ghost var st := View();
      while At(str, ptr) != '\0' && ptr < |str|
        invariant Valid() && Shape() && Sound(str, st) && Sound(str, View())
        invariant fresh(m.Keys - old(m.Keys)) && old(m.Keys) <= m.Keys
        invariant Parse(str, View()) == Parse(str, st)
        decreases |str| - ptr
      {
        PtrIn();
        var i := SkipSpaces(ptr);
        ghost var before := View();
        MoveTo(i);
        ValidIs();
        ViewIsSound();
        if At(str, ptr) == '<' {
          var done := ParseRound();
          if !done { return false; }
          ValidIs();
          ViewIsSound();
        } else if At(str, ptr) == '\0' {
          return |stack| == 0;
        } else {
          return false;
        }
      }
      return |stack| == 0;
    }
  }

  /** What was read so far, and what remains to be read, are the attributes. */
  ghost predicate AttrsFrom(s: string, start: nat, done: seq<Attr>, i: nat)
    requires start <= |s| && i <= |s|
  {
    Attrs(s, start) == match Attrs(s, i) { case None => None case Some((more, j)) => Some((done + more, j)) }
  }

  lemma NewFieldsAre(name: string, value: string, kind: Kind, parent: Node)
    ensures NewFields(name, value, kind, parent)
      == Fields(name, value, kind, null, null, null, parent, false, false, false)
  {
  }

  lemma NoAttrsYet(s: string, start: nat, c: Elem, d: nat)
    requires start <= |s| && Deep(c, d)
    ensures AttrsFrom(s, start, [], start)
    ensures Replace(c, d, Top(c, d).(attrs := Top(c, d).attrs + [])) == c
  {
    assert Top(c, d).attrs + [] == Top(c, d).attrs;
    ReplaceSame(c, d);
    match Attrs(s, start) { case None => case Some((more, j)) => assert [] + more == more; }
  }

  lemma NoMoreAttrs(s: string, start: nat, done: seq<Attr>, i: nat)
    requires start <= |s| && i <= |s| && AttrsFrom(s, start, done, i) && OneAttr(s, i) == None
    ensures Attrs(s, start) == None
  {
    hide OneAttr;
  }

  lemma MoreAttr(s: string, start: nat, done: seq<Attr>, i: nat, a: Attr, next: nat)
    requires start <= |s| && i <= |s| && AttrsFrom(s, start, done, i) && OneAttr(s, i) == Some((a, next))
    ensures next <= |s|
    ensures if IsMark(At(s, next)) then AttrsFrom(s, start, done + [a], next)
      else Attrs(s, start) == Some((done + [a], next))
  {
    hide OneAttr, IsMark;
    if IsMark(At(s, next)) {
      match Attrs(s, next) { case None => case Some((more, j)) => assert done + ([a] + more) == done + [a] + more; }
    }
  }

  lemma MarkIsNoSpace(s: string, i: nat)
    requires IsMark(At(s, i))
    ensures !IsSpace(At(s, i))
  {
  }

  lemma {:induction false} ReplaceSame(r: Elem, d: nat)
    requires Deep(r, d)
    ensures Replace(r, d, Top(r, d)) == r
    decreases d
  {
    if d > 0 { ReplaceSame(r.kids[|r.kids| - 1], d - 1); }
  }

  lemma {:induction false} ReplaceTwice(r: Elem, d: nat, x: Elem, y: Elem)
    requires Deep(r, d)
    ensures Replace(Replace(r, d, x), d, y) == Replace(r, d, y)
    decreases d
  {
    var n := |r.kids| - 1;
    if d > 0 {
      ReplaceTwice(r.kids[n], d - 1, x, y);
      assert (r.kids[..n] + [Replace(r.kids[n], d - 1, x)])[..n] == r.kids[..n];
    }
  }

  lemma ReplaceAgain(c: Elem, d: nat, e: Elem, attrs: seq<Attr>, a: Attr)
    requires Deep(c, d)
    ensures var x := e.(attrs := e.attrs + attrs);
      Replace(Replace(c, d, x), d, x.(attrs := x.attrs + [a])) == Replace(c, d, e.(attrs := e.attrs + (attrs + [a])))
  {
    var x := e.(attrs := e.attrs + attrs);
    ReplaceTwice(c, d, x, x.(attrs := x.attrs + [a]));
    assert x.attrs + [a] == e.attrs + (attrs + [a]);
  }

  /** An attribute at the end of the list of `top`; the flag of `top` is set when all are in. */
  method EnlistAttr(top: Node, node: Node)
    requires node != top && top.tail != top && top.tail != node
    requires node.All() == NewFields(node.name, node.value, AttrNode, top).(parent := null)
    modifies node, top, top.tail
    ensures node.All() == NewFields(old(node.name), old(node.value), AttrNode, top)
    ensures top.All() == old(top.All()).(child := if old(top.tail) == null then node else old(top.child), tail := node)
    ensures old(top.tail) != null ==> old(top.tail).All() == old(top.tail.All()).(next := node)
  {
    if top.tail == null {
      top.child := node;
    } else {
      top.tail.next := node;
    }
    node.parent := top;
    top.tail := node;
  }

  method EnlistAttrIn(top: Node, node: Node, ghost m: Store, ghost u: Tree, ghost q: seq<nat>)
    requires HoldsBut(m, top) && Rooted(m, u, q) && u.node == top && node !in m.Keys && top in m.Keys
    requires node.All() == NewFields(node.name, node.value, AttrNode, top).(parent := null)
    modifies node, m.Keys
    ensures HoldsBut(Joined(m, u, q, node, NewFields(old(node.name), old(node.value), AttrNode, top)), top)
  {
    hide Rooted, Joined;
    ghost var f := TailIn(m, u, q);
    ghost var g := NewFields(node.name, node.value, AttrNode, top);
    EnlistAttr(top, node);
    TailCells(m, u, q, node, g);
  }

  lemma {:induction false} PutSame(t: Tree, d: nat)
    requires Open(t, d)
    ensures Put(t, d, Last(t, d)) == t
    decreases d
  {
    if d > 0 { PutSame(t.kids[|t.kids| - 1], d - 1); }
  }

  method Rename(node: Node, name: string, ghost m: Store)
    requires node in m.Keys && Holds(m)
    modifies node
    ensures Holds(Renewed(m, node, name, m[node].f.value, m[node].f.hasValue))
  {
    node.name := name;
  }

  method Revalue(node: Node, value: string, ghost m: Store)
    requires node in m.Keys && Holds(m)
    modifies node
    ensures Holds(Renewed(m, node, m[node].f.name, value, true))
  {
    node.value := value;
    node.hasValue := true;
  }

  lemma {:induction false} SpineIn(m: Store, t: Tree, p: seq<nat>, d: nat)
    requires Open(t, d) && Rep(m, t, p)
    ensures forall k :: k in Spine(t, d) ==> k in m.Keys
    decreases d
  {
    hide Rep, Rooted;
    RepParts(m, t, p);
    if d > 0 {
      var n := |t.kids| - 1;
      RepParts(m, t.kids[n], p + [|t.attrs| + n]);
      SpineIn(m, t.kids[n], p + [|t.attrs| + n], d - 1);
    }
  }

  /** A new element at the end of the list of `top`. */
  method EnlistChild(top: Node, node: Node)
    requires node != top && top.tail != top && top.tail != node
    requires node.All() == Fields("", "", UnknownNode, null, null, null, null, false, false, false)
    modifies node, top, top.tail
    ensures node.All() == NewFields("", "", ChildNode, top)
    ensures top.All() == old(top.All()).(child := if old(top.tail) == null then node
      else old(top.child), tail := node, hasChild := true)
    ensures old(top.tail) != null ==> old(top.tail).All() == old(top.tail.All()).(next := node)
  {
    if top.tail == null {
      top.child := node;
    } else {
      top.tail.next := node;
    }
    top.tail := node;
    node.parent := top;
    node.kind := ChildNode;
    top.hasChild := true;
  }

  /** And the store with it. */
  method EnlistIn(top: Node, node: Node, ghost m: Store, ghost u: Tree, ghost q: seq<nat>)
    requires Holds(m) && Rooted(m, u, q) && u.node == top && node !in m.Keys && top in m.Keys
    requires node.All() == Fields("", "", UnknownNode, null, null, null, null, false, false, false)
    modifies node, m.Keys
    ensures Holds(Joined(m, u, q, node, NewFields("", "", ChildNode, top)))
  {
    hide Rooted, Joined;
    ghost var f := TailIn(m, u, q);
    EnlistChild(top, node);
    TailCells(m, u, q, node, NewFields("", "", ChildNode, top));
  }

  lemma TailIn(m: Store, u: Tree, q: seq<nat>) returns (f: Fields)
    requires Rooted(m, u, q)
    ensures u.node in m.Keys && f == m[u.node].f && (f.tail != null ==> f.tail in m.Keys && f.tail != u.node)
  {
    TailIs(m, u, q);
    f := m[u.node].f;
  }

  /** The cells that change, by the links of the top. */
  lemma TailCells(m: Store, u: Tree, q: seq<nat>, n: Node, g: Fields)
    requires Rooted(m, u, q) && n !in m.Keys
    ensures var m', f := Joined(m, u, q, n, g), m[u.node].f;
      && m'.Keys == m.Keys + {n} && m'[n].f == g
      && (f.tail != null ==> f.tail in m.Keys && f.tail != u.node && m'[f.tail].f == m[f.tail].f.(next := n))
      && (forall k :: k in m.Keys && k != u.node && k != f.tail ==> m'[k] == m[k])
      && m'[u.node].f == f.(child := if f.tail == null then n else f.child, tail := n,
           hasChild := f.hasChild || g.kind == ChildNode, hasAttr := f.hasAttr || g.kind == AttrNode)
  {
    TailIs(m, u, q);
    hide Rooted;
  }

  lemma TailIs(m: Store, u: Tree, q: seq<nat>)
    requires Rooted(m, u, q)
    ensures var f := m[u.node].f;
      (f.tail == null <==> List(u) == []) && (f.tail != null
        ==> f.tail == List(u)[|List(u)| - 1] && f.tail in m.Keys && f.tail != u.node)
      && f.hasChild == (u.kids != [])
  {
    if List(u) != [] { assert Placed(m, u, q, |List(u)| - 1); }
  }
}
