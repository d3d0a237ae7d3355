/** The length counters `xml_pack_node_len` and `_xml_node_len`: the same walks, adding up lengths instead of printing,
    come to the length of the printed text. */
module XmlLength {
  import opened Records
  import opened Xml
  import opened XmlNodes
  import opened XmlPrint

  /** `xml_pack_name_len` and `xml_node_name_len`. */
  method NameLen(style: Style, name: string, depth: nat) returns (len: nat)
    ensures len == |NameText(style, name, depth)|
  {
    len := 0;
    if style == Laid {
      var level := depth;
      while level > 1
        invariant len == if depth > 1 then depth - (if level > 1 then level else 1) else 0
      {
        len := len + 1;
        level := level - 1;
      }
    }
    len := len + |name| + 1;
  }

  method EndLen(style: Style, name: string, depth: nat) returns (len: nat)
    ensures len == |EndText(style, name, depth)|
  {
    len := 0;
    if style == Laid {
      var level := depth;
      while level > 1
        invariant len == if depth > 1 then depth - (if level > 1 then level else 1) else 0
      {
        len := len + 1;
        level := level - 1;
      }
      len := len + |name| + 4;
    } else {
      len := len + |name| + 3;
    }
  }

  lemma AttrLen(a: Attr)
    ensures |AttrText(a)| == |a.name| + |a.value| + 4
  {
  }

  /** `xml_pack_attr_len` and `xml_node_attr_len`. */
  method AttrsLen(node: Node, ghost m: Store, ghost t: Tree) returns (len: nat)
    requires Holds(m) && AttrsListed(m, t) && t.node == node && node.temp == ListAt(t, 0)
    modifies node`temp
    ensures Holds(m) && node.temp == ListAt(t, |t.attrs|) && len == |AttrsText(AttrsOf(m, t.attrs))|
  {
    hide ListAt, AttrText, AttrsText, AttrsOf, Holds;
    len := 0;
    ghost var i := 0;
    NoText();
    NoAttrNodes(m, t.attrs);
    while node.temp != null
      invariant Holds(m) && i <= |t.attrs| && node.temp == ListAt(t, i)
      invariant len == |AttrsText(AttrsOf(m, t.attrs[..i]))|
      decreases |t.attrs| - i
    {
      assert i < |t.attrs| ==> AttrAt(m, t, i);
      FieldsHold(m, node.temp);
      if node.temp.kind == AttrNode {
        len := len + |node.temp.name| + |node.temp.value| + 4;
        AttrLen(AttrOf(m, t.attrs[i]));
        MoreText(m, t.attrs, i);
        Advance(node, m);
        i := i + 1;
        continue;
      }
      assert i == |t.attrs|;
      break;
    }
    assert i < |t.attrs| ==> AttrAt(m, t, i);
    assert t.attrs[..|t.attrs|] == t.attrs;
  }

  /** `xml_pack_value_len` and `xml_node_value_len`. */
  method ValueLen(style: Style, node: Node) returns (len: nat)
    ensures len == |ValueText(style, node.name, if node.hasValue then Some(node.value) else None,
                              if node.hasValue then node.hasChild else node.temp != null)|
  {
    if style == Packed {
      if node.hasValue {
        len := if node.hasChild then |node.value| + 1 else |node.value| + |node.name| + 4;
      } else {
        len := if node.temp != null then 1 else 2;
      }
    } else {
      if node.hasValue {
        len := if node.hasChild then |node.value| + 2 else |node.value| + |node.name| + 5;
      } else {
        len := if node.temp != null then 2 else 3;
      }
    }
  }

  /** The length of all that is printed of an element before its children. */
  method HeadLen(style: Style, node: Node, depth: nat, ghost m: Store, ghost t: Tree, ghost p: seq<nat>)
      returns (len: nat)
    requires Holds(m) && Rooted(m, t, p) && t.node == node && node.temp == node.child
    modifies node`temp
    ensures Holds(m) && node.temp == ListAt(t, |t.attrs|) && len == |HeadText(style, AsElem(m, t), depth)|
  {
    ListIs(m, t, p);
    hide Rooted, ListAt, NameText, AttrsText, ValueText;
    ghost var f := m[node].f;
    assert node.All() == f;
    len := NameLen(style, node.name, depth);
    if node.hasAttr {
      var attrs := AttrsLen(node, m, t);
      len := len + attrs;
    } else {
      assert AttrsOf(m, t.attrs) == [];
      NoText();
    }
    assert node.All() == f;
    var value := ValueLen(style, node);
    len := len + value;
  }

  /** `xml_pack_next_len` and `xml_node_next_len`: the next element, and the lengths of the end tags before it. The
      text counted so far is `done`. */
  method NextLen(style: Style, node: Node, stack1: seq<Node>, len0: nat, ghost all: Elem, ghost before: string,
      ghost m: Store,
                   ghost steps0: seq<Step>, ghost stack0: seq<Node>, ghost cur0: Tree, ghost p0: seq<nat>)
    returns (next: Node?, stack: seq<Node>, len: nat, ghost done: string, ghost steps: seq<Step>, ghost cur: Tree,
      ghost p: seq<nat>)
    requires Holds(m) && Walking(style, all, before, m, steps0, stack0, cur0, p0) && Rooted(m, cur0, p0)
      && AllFine(m, steps0)
    requires cur0.node in m.Keys && node == cur0.node && stack1 == stack0 + [node] && |stack0| < MAX_DEPTH
    requires len0 == |before| + |HeadText(style, AsElem(m, cur0), |stack0| + 1)|
    requires node.temp == if cur0.kids == [] then null else cur0.kids[0].node
    modifies node`temp
    ensures Holds(m) && NextIs(style, all, m, steps, stack, done, next, cur, p, WalkSize(m, steps0, cur0))
      && len == |done|
  {
    hide *;
    var top;
    stack, len, steps, cur, p := stack1, len0, steps0, cur0, p0;
    done := before + HeadText(style, AsElem(m, cur0), |stack0| + 1);
    ghost var size := WalkSize(m, steps0, cur0);
    WalkParts(style, all, before, m, steps0, stack0, cur0, p0);
    if node.temp != null {
      WalksDown(style, all, before, m, steps0, stack0, cur0, p0);
      next := node.temp;
      FieldsHold(m, next);
      NextField(m, next);
      Advance(node, m);
      steps, cur, p := steps0 + [Step(cur0, p0, 1)], cur0.kids[0], p0 + [|cur0.attrs|];
      NextParts(style, all, m, steps, stack, done, next, cur, p, size);
      return;
    }
    WalksUp(style, all, before, m, steps0, stack0, cur0, p0);
    top, stack := stack[|stack| - 1], stack[..|stack| - 1];
    assert stack == stack0;
    LeafFlag(m, cur0, p0);
    if |stack| == 0 {
      NextParts(style, all, m, steps, stack, done, null, cur, p, size);
      return null, stack, len, done, steps, cur, p;
    }
    next := top.next;
    while next == null
      invariant Climbing(style, all, done, m, steps, stack, next) && AllFine(m, steps)
      invariant LeftSize(PathOf(m, steps)) < size
      invariant Holds(m) && len == |done|
      decreases |steps|
      modifies {}
    {
      WalksOut(style, all, done, m, steps, stack);
      top := stack[|stack| - 1];
      FieldsHold(m, top);
      NextField(m, top);
      stack := stack[..|stack| - 1];
      if top.hasChild {
        var end := EndLen(style, top.name, |stack| + 1);
        len := len + end;
        done := done + EndText(style, top.name, |stack| + 1);
      }
      steps := steps[..|steps| - 1];
      if |stack| == 0 {
        NextParts(style, all, m, steps, stack, done, null, cur, p, size);
        return null, stack, len, done, steps, cur, p;
      }
      next := top.next;
    }
    WalksOn(style, all, done, m, steps, stack, next);
    ghost var l := steps[|steps| - 1];
    steps, cur, p := steps[..|steps| - 1] + [l.(next := l.next + 1)], l.t.kids[l.next], l.p + [|l.t.attrs| + l.next];
    NextParts(style, all, m, steps, stack, done, next, cur, p, size);
  }

  /** `xml_pack_node_len` and `_xml_node_len`: the length of what is printed, exactly when it is printed. */
  method TreeLen(style: Style, root: Node, ghost m: Store, ghost t: Tree, ghost p0: seq<nat>)
      returns (ok: bool, len: nat)
    requires Holds(m) && Rep(m, t, p0) && t.node == root && root in m.Keys
    modifies m.Keys
    ensures Holds(m) && ok == (Height(AsElem(m, t)) <= MAX_DEPTH)
    ensures ok ==> len == |Text(style, AsElem(m, t), 1)|
  {
    hide *;
    var node: Node?, stack: seq<Node> := root, [];
    ghost var all, steps: seq<Step>, cur, p := AsElem(m, t), [], t, p0;
    len := 0;
    ghost var done: string := "";
    WalkStarts(style, m, t, p0);
    ghost var size: nat := WalkSize(m, steps, cur) + 1;
    NextParts(style, all, m, steps, stack, done, node, cur, p, size);
    while node != null
      invariant Holds(m) && NextIs(style, all, m, steps, stack, done, node, cur, p, size) && len == |done|
      decreases size
    {
      NextParts(style, all, m, steps, stack, done, node, cur, p, size);
      WalkParts(style, all, done, m, steps, stack, cur, p);
      size := WalkSize(m, steps, cur);
      StartCursor(node, m);
      if |stack| >= MAX_DEPTH { return false, len; }
      stack := stack + [node];
      ghost var before, stack0 := done, stack[..|stack| - 1];
      var head := HeadLen(style, node, |stack|, m, cur, p);
      len := len + head;
      ListIs(m, cur, p);
      CursorAt(m, cur);
      node, stack, len, done, steps, cur, p := NextLen(style, node, stack, len, all, before, m, steps, stack0, cur, p);
    }
    NextParts(style, all, m, steps, stack, done, node, cur, p, size);
    ok := true;
  }

  /** Counting and printing agree: whenever the one succeeds so does the other, and the buffer is filled exactly. */
  method CountThenPrint(style: Style, root: Node, ghost m: Store, ghost t: Tree, ghost p: seq<nat>)
    returns (counted: bool, len: nat, printed: bool, out: string)
    requires Holds(m) && Rep(m, t, p) && t.node == root && root in m.Keys
    modifies m.Keys
    ensures counted == printed && (printed ==> |out| == len)
  {
    hide *;
    counted, len := TreeLen(style, root, m, t, p);
    printed, out := PrintTree(style, root, m, t, p);
  }
}
