/** The printers `xml_pack_tree` and `xml_sprint_tree` and their length counters: walks over the linked nodes with a
    stack, against one recursive text. */
module XmlPrint {
  import opened Records
  import opened Xml
  import opened XmlNodes

  // ---------------------------------------------------------------- what is left to print, on values

  /** An element on the stack, and which of its children comes next. */
  datatype Level = Level(e: Elem, next: nat)

  ghost predicate Levels(path: seq<Level>) {
    forall j :: 0 <= j < |path| ==> 1 <= path[j].next <= |path[j].e.kids|
  }

  function Sizes(kids: seq<Elem>): nat
    decreases kids
  {
    if kids == [] then 0 else Size(kids[0]) + Sizes(kids[1..])
  }

  function Size(e: Elem): nat
    decreases e
  {
    1 + Sizes(e.kids)
  }

  ghost function LeftText(style: Style, path: seq<Level>): string
    requires Levels(path)
  {
    if path == [] then "" else
      var n := |path| - 1;
      TextOf(style, path[n].e.kids[path[n].next..], n + 2) + TailText(style, path[n].e, n + 1)
        + LeftText(style, path[..n])
  }

  ghost predicate LeftFits(path: seq<Level>)
    requires Levels(path)
  {
    path == [] ||
      var n := |path| - 1;
      n + 1 + HeightOf(path[n].e.kids[path[n].next..]) <= MAX_DEPTH && LeftFits(path[..n])
  }

  ghost function LeftSize(path: seq<Level>): nat
    requires Levels(path)
  {
    if path == [] then 0 else
      var n := |path| - 1;
      Sizes(path[n].e.kids[path[n].next..]) + LeftSize(path[..n])
  }

  /** `done` is printed, `cur` comes next, and `path` is where it stands. */
  ghost predicate Due(style: Style, all: Elem, done: string, cur: Elem, path: seq<Level>) {
    && Levels(path) && |path| <= MAX_DEPTH
    && done + Text(style, cur, |path| + 1) + LeftText(style, path) == Text(style, all, 1)
    && (Height(all) <= MAX_DEPTH <==> |path| + Height(cur) <= MAX_DEPTH && LeftFits(path))
  }

  /** `done` is printed, and what comes next on `path` is to be found. */
  ghost predicate Rising(style: Style, all: Elem, done: string, path: seq<Level>) {
    && Levels(path) && |path| <= MAX_DEPTH
    && done + LeftText(style, path) == Text(style, all, 1)
    && (Height(all) <= MAX_DEPTH <==> LeftFits(path))
  }

  lemma Begins(style: Style, all: Elem)
    ensures Due(style, all, "", all, [])
  {
    hide Text, Height;
    assert "" + Text(style, all, 1) + "" == Text(style, all, 1);
  }

  /** The innermost level and the others. */
  lemma LeftSplits(style: Style, path: seq<Level>, l: Level)
    requires Levels(path) && 1 <= l.next <= |l.e.kids|
    ensures var path', rest, d := path + [l], l.e.kids[l.next..], |path| + 1;
      && Levels(path')
      && LeftText(style, path') == TextOf(style, rest, d + 1) + TailText(style, l.e, d) + LeftText(style, path)
      && LeftFits(path') == (d + HeightOf(rest) <= MAX_DEPTH && LeftFits(path))
      && LeftSize(path') == Sizes(rest) + LeftSize(path)
  {
    hide TextOf, TailText, HeightOf, Sizes;
    assert (path + [l])[..|path|] == path;
  }

  lemma Splits(style: Style, kids: seq<Elem>, d: nat)
    requires kids != []
    ensures TextOf(style, kids, d) == Text(style, kids[0], d) + TextOf(style, kids[1..], d)
    ensures HeightOf(kids) == if Height(kids[0]) > HeightOf(kids[1..]) then Height(kids[0]) else HeightOf(kids[1..])
    ensures Sizes(kids) == Size(kids[0]) + Sizes(kids[1..]) && Size(kids[0]) >= 1
  {
    hide Text, Height;
  }

  lemma Whole(style: Style, e: Elem, d: nat)
    ensures Text(style, e, d) == HeadText(style, e, d) + TextOf(style, e.kids, d + 1) + TailText(style, e, d)
    ensures Height(e) == 1 + HeightOf(e.kids) && Size(e) == 1 + Sizes(e.kids)
  {
  }

  lemma Regroup(a: string, b: string, c: string, d: string, e: string, f: string)
    ensures a + (b + (c + d) + e) + f == (a + b) + c + (d + e + f)
    ensures a + (c + d + e + f) == a + c + (d + e + f)
  {
    assert a + (b + (c + d) + e) + f == (a + b) + c + (d + e + f);
    assert a + (c + d + e + f) == a + c + (d + e + f);
  }

  lemma DueParts(style: Style, all: Elem, done: string, cur: Elem, path: seq<Level>)
    ensures Due(style, all, done, cur, path) <==>
      && Levels(path) && |path| <= MAX_DEPTH
      && done + Text(style, cur, |path| + 1) + LeftText(style, path) == Text(style, all, 1)
      && (Height(all) <= MAX_DEPTH <==> |path| + Height(cur) <= MAX_DEPTH && LeftFits(path))
  {
  }

  lemma RisingParts(style: Style, all: Elem, done: string, path: seq<Level>)
    ensures Rising(style, all, done, path) <==>
      && Levels(path) && |path| <= MAX_DEPTH
      && done + LeftText(style, path) == Text(style, all, 1)
      && (Height(all) <= MAX_DEPTH <==> LeftFits(path))
  {
  }

  /** Down to the first child. */
  lemma GoesDown(style: Style, all: Elem, done: string, cur: Elem, path: seq<Level>)
    requires Due(style, all, done, cur, path) && cur.kids != [] && |path| < MAX_DEPTH
    ensures var path' := path + [Level(cur, 1)];
      && Due(style, all, done + HeadText(style, cur, |path| + 1), cur.kids[0], path')
      && Size(cur.kids[0]) + LeftSize(path') < Size(cur) + LeftSize(path)
  {
    hide *;
    var d := |path| + 1;
    DueParts(style, all, done, cur, path);
    LeftSplits(style, path, Level(cur, 1));
    Splits(style, cur.kids, d + 1);
    Whole(style, cur, d);
    Regroup(done, HeadText(style, cur, d), Text(style, cur.kids[0], d + 1), TextOf(style, cur.kids[1..], d + 1),
            TailText(style, cur, d), LeftText(style, path));
    DueParts(style, all, done + HeadText(style, cur, d), cur.kids[0], path + [Level(cur, 1)]);
  }

  /** A leaf is all head. */
  lemma GoesUp(style: Style, all: Elem, done: string, cur: Elem, path: seq<Level>)
    requires Due(style, all, done, cur, path) && cur.kids == [] && |path| < MAX_DEPTH
    ensures Rising(style, all, done + HeadText(style, cur, |path| + 1), path)
    ensures LeftSize(path) < Size(cur) + LeftSize(path)
  {
    Leaf(style, cur, |path| + 1);
    hide *;
    DueParts(style, all, done, cur, path);
    RisingParts(style, all, done + HeadText(style, cur, |path| + 1), path);
  }

  lemma Leaf(style: Style, e: Elem, d: nat)
    requires e.kids == []
    ensures Text(style, e, d) == HeadText(style, e, d) && Height(e) == 1 && Size(e) == 1
  {
    Whole(style, e, d);
    var h := HeadText(style, e, d);
    hide HeadText, Text, Height;
    assert h + "" + "" == h;
  }

  /** On to the next child of the innermost element. */
  lemma GoesOn(style: Style, all: Elem, done: string, path: seq<Level>, l: Level)
    requires Levels(path) && 1 <= l.next < |l.e.kids| && Rising(style, all, done, path + [l])
    ensures var path' := path + [l.(next := l.next + 1)];
      && Due(style, all, done, l.e.kids[l.next], path')
      && Size(l.e.kids[l.next]) + LeftSize(path') <= LeftSize(path + [l])
  {
    hide *;
    var rest, d, path' := l.e.kids[l.next..], |path| + 1, path + [l.(next := l.next + 1)];
    RisingParts(style, all, done, path + [l]);
    LeftSplits(style, path, l);
    LeftSplits(style, path, l.(next := l.next + 1));
    assert rest[0] == l.e.kids[l.next] && rest[1..] == l.e.kids[l.next + 1..];
    Splits(style, rest, d + 1);
    Regroup(done, "", Text(style, rest[0], d + 1), TextOf(style, rest[1..], d + 1), TailText(style, l.e, d),
      LeftText(style, path));
    DueParts(style, all, done, l.e.kids[l.next], path');
  }

  /** The end tag of the innermost element, when it has no more children. */
  lemma Ends(style: Style, all: Elem, done: string, path: seq<Level>, l: Level)
    requires Levels(path) && 1 <= l.next == |l.e.kids| && Rising(style, all, done, path + [l])
    ensures Rising(style, all, done + EndText(style, l.e.name, |path| + 1), path)
      && LeftSize(path) == LeftSize(path + [l])
  {
    hide *;
    RisingParts(style, all, done, path + [l]);
    LeftSplits(style, path, l);
    NothingLeft(style, l, |path| + 1);
    Drop(done, EndText(style, l.e.name, |path| + 1), LeftText(style, path));
    RisingParts(style, all, done + EndText(style, l.e.name, |path| + 1), path);
  }

  lemma NothingLeft(style: Style, l: Level, d: nat)
    requires 1 <= l.next == |l.e.kids|
    ensures var rest := l.e.kids[l.next..];
      TextOf(style, rest, d + 1) == "" && HeightOf(rest) == 0 && Sizes(rest) == 0
        && TailText(style, l.e, d) == EndText(style, l.e.name, d)
  {
  }

  lemma Drop(a: string, b: string, c: string)
    ensures a + ("" + b + c) == (a + b) + c
  {
  }

  // ---------------------------------------------------------------- the stack in memory

  /** A tree on the stack, its place, and which of its elements comes next. */
  datatype Step = Step(t: Tree, p: seq<nat>, next: nat)

  ghost predicate Fine(m: Store, s: Step) {
    Rep(m, s.t, s.p) && Rooted(m, s.t, s.p) && s.t.node in m.Keys && 1 <= s.next <= |s.t.kids|
  }

  ghost predicate AllFine(m: Store, steps: seq<Step>) {
    forall j {:trigger steps[j]} :: 0 <= j < |steps| ==> Fine(m, steps[j])
  }

  /** The stack holds the nodes of the steps, each one the child its parent came to last. */
  ghost predicate Stacked(m: Store, steps: seq<Step>, stack: seq<Node>) {
    && |steps| == |stack| && AllFine(m, steps)
    && (forall j :: 0 <= j < |steps| ==> stack[j] == steps[j].t.node)
    && forall j :: 0 < j < |steps| ==> steps[j].t == steps[j - 1].t.kids[steps[j - 1].next - 1]
  }

  /** `cur` is that child of the innermost step. */
  ghost predicate Under(m: Store, steps: seq<Step>, cur: Tree)
    requires AllFine(m, steps)
  {
    steps == [] || var s := steps[|steps| - 1]; cur == s.t.kids[s.next - 1]
  }

  ghost function PathOf(m: Store, steps: seq<Step>): (r: seq<Level>)
    requires AllFine(m, steps)
    ensures |r| == |steps| && Levels(r)
  {
    seq(|steps|, j requires 0 <= j < |steps| => Level(AsElem(m, steps[j].t), steps[j].next))
  }

  lemma PathMore(m: Store, steps: seq<Step>, s: Step)
    requires AllFine(m, steps) && Fine(m, s)
    ensures PathOf(m, steps + [s]) == PathOf(m, steps) + [Level(AsElem(m, s.t), s.next)]
    ensures AsElem(m, s.t).kids == AsElems(m, s.t.kids)
  {
    hide Fine;
  }

  lemma KidIs(m: Store, t: Tree, p: seq<nat>, k: nat)
    requires Rep(m, t, p) && k < |t.kids|
    ensures t.node in m.Keys && t.kids[k].node in m.Keys && |AsElem(m, t).kids| == |t.kids|
    ensures AsElem(m, t).kids[k] == AsElem(m, t.kids[k]) && Rep(m, t.kids[k], p + [|t.attrs| + k])
    ensures Rooted(m, t.kids[k], p + [|t.attrs| + k])
  {
    hide Rooted;
    RepParts(m, t, p);
    RepParts(m, t.kids[k], p + [|t.attrs| + k]);
  }

  /** A brother by its link. */
  lemma BrotherIs(m: Store, t: Tree, p: seq<nat>, k: nat)
    requires Rooted(m, t, p) && k < |t.kids|
    ensures t.kids[k].node in m.Keys
    ensures m[t.kids[k].node].f.next == if k + 1 < |t.kids| then t.kids[k + 1].node else null
  {
    hide Placed;
    assert List(t)[|t.attrs| + k] == t.kids[k].node;
    assert k + 1 < |t.kids| ==> List(t)[|t.attrs| + k + 1] == t.kids[k + 1].node;
  }

  ghost function ListAt(t: Tree, i: nat): Node? {
    if i < |List(t)| then List(t)[i] else null
  }

  /** An attribute in its list. */
  ghost predicate AttrAt(m: Store, t: Tree, i: nat)
    requires i < |t.attrs|
  {
    && ListAt(t, i) == t.attrs[i] && t.attrs[i] in m.Keys
    && m[t.attrs[i]].f.next == ListAt(t, i + 1) && m[t.attrs[i]].f.kind == AttrNode
  }

  ghost predicate AttrsListed(m: Store, t: Tree) {
    && (forall i :: 0 <= i < |t.attrs| ==> AttrAt(m, t, i))
    && ListAt(t, |t.attrs|) == (if t.kids == [] then null else t.kids[0].node)
    && (t.kids != [] ==> t.kids[0].node in m.Keys && m[t.kids[0].node].f.kind == ChildNode)
  }

  lemma ListIs(m: Store, t: Tree, p: seq<nat>)
    requires Rooted(m, t, p)
    ensures m[t.node].f.child == ListAt(t, 0)
    ensures AttrsListed(m, t)
    ensures m[t.node].f.hasAttr == (t.attrs != []) && m[t.node].f.hasChild == (t.kids != [])
  {
    forall i | 0 <= i < |List(t)|
      ensures List(t)[i] in m.Keys && m[List(t)[i]].f.kind == if i < |t.attrs| then AttrNode else ChildNode
    {
      assert Placed(m, t, p, i);
    }
    hide Placed;
    assert forall i :: 0 <= i < |t.attrs| ==> List(t)[i] == t.attrs[i];
    assert t.kids != [] ==> List(t)[|t.attrs|] == t.kids[0].node;
  }

  // ---------------------------------------------------------------- the parts of one element

  /** The name, with tabs before it when the text is laid out. */
  method PrintName(style: Style, name: string, depth: nat) returns (out: string)
    ensures out == NameText(style, name, depth)
  {
    out := "";
    if style == Laid {
      var level := depth;
      while level > 1
        invariant out == seq(if depth > 1 then depth - (if level > 1 then level else 1) else 0, i => '\t')
      {
        out := out + "\t";
        level := level - 1;
      }
    }
    out := out + "<" + name;
  }

  method PrintEnd(style: Style, name: string, depth: nat) returns (out: string)
    ensures out == EndText(style, name, depth)
  {
    out := "";
    if style == Laid {
      var level := depth;
      while level > 1
        invariant out == seq(if depth > 1 then depth - (if level > 1 then level else 1) else 0, i => '\t')
      {
        out := out + "\t";
        level := level - 1;
      }
    }
    out := out + "</" + name + ">" + Eol(style);
  }

  lemma {:induction false} AttrsTextMore(attrs: seq<Attr>, a: Attr)
    ensures AttrsText(attrs + [a]) == AttrsText(attrs) + AttrText(a)
  {
    if attrs == [] {
      assert attrs + [a] == [a];
      assert AttrsText([a]) == AttrText(a) + "";
    } else {
      assert (attrs + [a])[1..] == attrs[1..] + [a];
      AttrsTextMore(attrs[1..], a);
    }
  }

  /** The attributes, from the cursor on, which stops at the first element. */
  method PrintAttrs(node: Node, ghost m: Store, ghost t: Tree) returns (out: string)
    requires Holds(m) && AttrsListed(m, t) && t.node == node && node.temp == ListAt(t, 0)
    modifies node`temp
    ensures Holds(m) && node.temp == ListAt(t, |t.attrs|) && out == AttrsText(AttrsOf(m, t.attrs))
  {
    hide ListAt, AttrText, AttrsText, AttrsOf, Holds;
    out := "";
    ghost var i := 0;
    NoText();
    NoAttrNodes(m, t.attrs);
    while node.temp != null
      invariant Holds(m) && i <= |t.attrs| && node.temp == ListAt(t, i)
      invariant out == AttrsText(AttrsOf(m, t.attrs[..i]))
      decreases |t.attrs| - i
    {
      assert i < |t.attrs| ==> AttrAt(m, t, i);
      FieldsHold(m, node.temp);
      if node.temp.kind == AttrNode {
        out := out + AttrText(Attr(node.temp.name, node.temp.value));
        MoreText(m, t.attrs, i);
        Advance(node, m);
        i := i + 1;
        continue;
      }
      assert i == |t.attrs|;
      break;
    }
    assert i < |t.attrs| ==> AttrAt(m, t, i);
    assert t.attrs[..|t.attrs|] == t.attrs;
  }

  lemma NoAttrNodes(m: Store, attrs: seq<Node>)
    ensures AttrsOf(m, attrs[..0]) == []
  {
  }

  lemma MoreText(m: Store, attrs: seq<Node>, i: nat)
    requires i < |attrs|
    ensures AttrsText(AttrsOf(m, attrs[..i + 1])) == AttrsText(AttrsOf(m, attrs[..i])) + AttrText(AttrOf(m, attrs[i]))
  {
    assert AttrsOf(m, attrs[..i + 1]) == AttrsOf(m, attrs[..i]) + [AttrOf(m, attrs[i])];
    AttrsTextMore(AttrsOf(m, attrs[..i]), AttrOf(m, attrs[i]));
  }

  lemma FieldsHold(m: Store, n: Node)
    requires Holds(m) && n in m.Keys
    ensures n.All() == m[n].f
  {
  }

  /** The cursor is not one of the recorded fields. */
  method Advance(node: Node, ghost m: Store)
    requires Holds(m) && node.temp != null
    modifies node`temp
    ensures Holds(m) && node.temp == old(node.temp.next)
  {
    node.temp := node.temp.next;
  }

  lemma NoText()
    ensures AttrsText([]) == ""
  {
  }

  method PrintValue(style: Style, node: Node) returns (out: string)
    ensures out == ValueText(style, node.name, if node.hasValue then Some(node.value) else None,
                             if node.hasValue then node.hasChild else node.temp != null)
  {
    if node.hasValue {
      if node.hasChild {
        out := ">" + node.value + Eol(style);
      } else {
        out := ">" + node.value + "</" + node.name + ">" + Eol(style);
      }
    } else {
      if node.temp != null {
        out := ">" + Eol(style);
      } else {
        out := "/>" + Eol(style);
      }
    }
  }

  /** All that is printed of an element before its children. */
  method PrintHead(style: Style, node: Node, depth: nat, ghost m: Store, ghost t: Tree, ghost p: seq<nat>)
      returns (out: string)
    requires Holds(m) && Rooted(m, t, p) && t.node == node && node.temp == node.child
    modifies node`temp
    ensures Holds(m) && node.temp == ListAt(t, |t.attrs|) && out == HeadText(style, AsElem(m, t), depth)
  {
    ListIs(m, t, p);
    hide Rooted, ListAt, NameText, AttrsText, ValueText;
    ghost var f := m[node].f;
    assert node.All() == f;
    out := PrintName(style, node.name, depth);
    if node.hasAttr {
      var attrs := PrintAttrs(node, m, t);
      out := out + attrs;
    } else {
      assert AttrsOf(m, t.attrs) == [];
      NoText();
      assert out == out + "";
    }
    assert node.All() == f;
    var value := PrintValue(style, node);
    out := out + value;
  }

  // ---------------------------------------------------------------- the walk

  /** Between two rounds of the walk: `cur` is the next element, at the end of the chain of steps. */
  ghost predicate Walking(style: Style, all: Elem, out: string, m: Store, steps: seq<Step>, stack: seq<Node>, cur: Tree,
      p: seq<nat>)
  {
    && Stacked(m, steps, stack) && Under(m, steps, cur) && Rep(m, cur, p) && cur.node in m.Keys
    && Due(style, all, out, AsElem(m, cur), PathOf(m, steps))
  }

  /** While ends are printed: the next element is the brother of `top`, or there is none and `top` was the last. */
  ghost predicate Climbing(style: Style, all: Elem, out: string, m: Store, steps: seq<Step>, stack: seq<Node>,
      next: Node?)
  {
    && Stacked(m, steps, stack) && steps != [] && Rising(style, all, out, PathOf(m, steps))
    && var s := steps[|steps| - 1]; next == if s.next < |s.t.kids| then s.t.kids[s.next].node else null
  }

  ghost function WalkSize(m: Store, steps: seq<Step>, cur: Tree): nat
    requires AllFine(m, steps) && cur.node in m.Keys
  {
    Size(AsElem(m, cur)) + LeftSize(PathOf(m, steps))
  }

  lemma StackParts(m: Store, steps: seq<Step>, stack: seq<Node>)
    requires Stacked(m, steps, stack)
    ensures |steps| == |stack| && AllFine(m, steps)
    ensures steps != [] ==> Fine(m, steps[|steps| - 1]) && stack[|stack| - 1] == steps[|steps| - 1].t.node
    ensures steps != [] ==> Stacked(m, steps[..|steps| - 1], stack[..|stack| - 1])
    ensures steps != [] ==> Under(m, steps[..|steps| - 1], steps[|steps| - 1].t)
  {
    hide Fine;
  }

  lemma StackMore(m: Store, steps: seq<Step>, stack: seq<Node>, s: Step)
    requires Stacked(m, steps, stack) && Under(m, steps, s.t) && Fine(m, s)
    ensures Stacked(m, steps + [s], stack + [s.t.node])
  {
    hide Fine;
  }

  /** The link to the brother of the element that is under the innermost step. */
  lemma BrotherOf(m: Store, steps: seq<Step>, cur: Tree)
    requires AllFine(m, steps) && steps != [] && Under(m, steps, cur)
    ensures cur.node in m.Keys
    ensures var s := steps[|steps| - 1]; m[cur.node].f.next == if s.next < |s.t.kids| then s.t.kids[s.next].node
      else null
  {
    var s := steps[|steps| - 1];
    assert Fine(m, s);
    BrotherIs(m, s.t, s.p, s.next - 1);
  }

  /** Down to the first child. */
  lemma WalksDown(style: Style, all: Elem, out: string, m: Store, steps: seq<Step>, stack: seq<Node>, cur: Tree,
      p: seq<nat>)
    requires Walking(style, all, out, m, steps, stack, cur, p) && cur.kids != [] && |stack| < MAX_DEPTH
      && Rooted(m, cur, p)
    ensures var steps', head := steps + [Step(cur, p, 1)], HeadText(style, AsElem(m, cur), |stack| + 1);
      && cur.kids[0].node in m.Keys && AllFine(m, steps')
      && Walking(style, all, out + head, m, steps', stack + [cur.node], cur.kids[0], p + [|cur.attrs|])
      && WalkSize(m, steps', cur.kids[0]) < WalkSize(m, steps, cur)
  {
    hide Rep, AsElem, Due, HeadText, Size, LeftSize, Rooted, Stacked;
    var s := Step(cur, p, 1);
    StackParts(m, steps, stack);
    KidIs(m, cur, p, 0);
    PathMore(m, steps, s);
    StackMore(m, steps, stack, s);
    StackParts(m, steps + [s], stack + [cur.node]);
    GoesDown(style, all, out, AsElem(m, cur), PathOf(m, steps));
  }

  /** Past a leaf. */
  lemma WalksUp(style: Style, all: Elem, out: string, m: Store, steps: seq<Step>, stack: seq<Node>, cur: Tree,
      p: seq<nat>)
    requires Walking(style, all, out, m, steps, stack, cur, p) && cur.kids == [] && |stack| < MAX_DEPTH
    ensures AllFine(m, steps)
    ensures var out' := out + HeadText(style, AsElem(m, cur), |stack| + 1);
      if steps == [] then out' == Text(style, all, 1) && Height(all) <= MAX_DEPTH
      else Climbing(style, all, out', m, steps, stack, m[cur.node].f.next)
    ensures LeftSize(PathOf(m, steps)) < WalkSize(m, steps, cur)
  {
    hide Rep, Due, HeadText, Size, Stacked, Text, Height, LeftSize;
    StackParts(m, steps, stack);
    assert AsElem(m, cur).kids == [];
    hide AsElem;
    GoesUp(style, all, out, AsElem(m, cur), PathOf(m, steps));
    if steps == [] {
      AllDone(style, all, out + HeadText(style, AsElem(m, cur), |stack| + 1));
    } else {
      BrotherOf(m, steps, cur);
    }
  }

  lemma AllDone(style: Style, all: Elem, out: string)
    requires Rising(style, all, out, [])
    ensures out == Text(style, all, 1) && Height(all) <= MAX_DEPTH
  {
    hide Text, Height;
    assert out + "" == out;
  }

  /** Out of an element whose children are all printed. */
  lemma WalksOut(style: Style, all: Elem, out: string, m: Store, steps: seq<Step>, stack: seq<Node>)
    requires Climbing(style, all, out, m, steps, stack, null)
    ensures AllFine(m, steps) && |steps| == |stack| > 0
    ensures var n := |steps| - 1;
      var top := steps[n].t.node;
      && stack[n] == top && top in m.Keys && m[top].f.hasChild && AllFine(m, steps[..n])
      && LeftSize(PathOf(m, steps[..n])) == LeftSize(PathOf(m, steps))
      && var out' := out + EndText(style, m[top].f.name, n + 1);
        if n == 0 then out' == Text(style, all, 1) && Height(all) <= MAX_DEPTH
        else Climbing(style, all, out', m, steps[..n], stack[..n], m[top].f.next)
  {
    hide Rep, HeadText, Size, Stacked, Text, Height, LeftSize, EndText, Rising;
    var n := |steps| - 1;
    var s := steps[n];
    StackParts(m, steps, stack);
    StackParts(m, steps[..n], stack[..n]);
    assert steps == steps[..n] + [s];
    PathMore(m, steps[..n], s);
    TopFlag(m, s);
    hide AsElem;
    Ends(style, all, out, PathOf(m, steps[..n]), Level(AsElem(m, s.t), s.next));
    if n == 0 {
      AllDone(style, all, out + EndText(style, m[s.t.node].f.name, n + 1));
    } else {
      BrotherOf(m, steps[..n], s.t);
    }
  }

  lemma TopFlag(m: Store, s: Step)
    requires Fine(m, s)
    ensures m[s.t.node].f.hasChild && AsElem(m, s.t).name == m[s.t.node].f.name && |AsElem(m, s.t).kids| == |s.t.kids|
  {
    hide Rep;
  }

  /** On to the brother. */
  lemma WalksOn(style: Style, all: Elem, out: string, m: Store, steps: seq<Step>, stack: seq<Node>, next: Node)
    requires Climbing(style, all, out, m, steps, stack, next)
    ensures AllFine(m, steps) && steps != []
    ensures var n, s := |steps| - 1, steps[|steps| - 1];
      var steps' := steps[..n] + [s.(next := s.next + 1)];
      && s.next < |s.t.kids| && AllFine(m, steps') && s.t.kids[s.next].node == next && next in m.Keys
      && Walking(style, all, out, m, steps', stack, s.t.kids[s.next], s.p + [|s.t.attrs| + s.next])
      && WalkSize(m, steps', s.t.kids[s.next]) <= LeftSize(PathOf(m, steps))
  {
    hide Rep, HeadText, Size, Stacked, Text, Height, LeftSize, EndText, Rising, Due, Rooted;
    var n, s := |steps| - 1, steps[|steps| - 1];
    var s' := s.(next := s.next + 1);
    StackParts(m, steps, stack);
    StackParts(m, steps[..n], stack[..n]);
    assert steps == steps[..n] + [s] && stack == stack[..n] + [s.t.node];
    KidIs(m, s.t, s.p, s.next);
    PathMore(m, steps[..n], s);
    PathMore(m, steps[..n], s');
    StackMore(m, steps[..n], stack[..n], s');
    StackParts(m, steps[..n] + [s'], stack);
    hide AsElem;
    GoesOn(style, all, out, PathOf(m, steps[..n]), Level(AsElem(m, s.t), s.next));
  }

  ghost predicate NextIs(style: Style, all: Elem, m: Store, steps: seq<Step>, stack: seq<Node>, out: string,
      next: Node?, cur: Tree, p: seq<nat>, size: nat)
  {
    if next == null then stack == [] && out == Text(style, all, 1) && Height(all) <= MAX_DEPTH
    else
      && next == cur.node && Walking(style, all, out, m, steps, stack, cur, p) && AllFine(m, steps)
      && WalkSize(m, steps, cur) < size
  }

  lemma NextParts(style: Style, all: Elem, m: Store, steps: seq<Step>, stack: seq<Node>, out: string, next: Node?,
      cur: Tree, p: seq<nat>, size: nat)
    ensures NextIs(style, all, m, steps, stack, out, next, cur, p, size) <==>
      if next == null then stack == [] && out == Text(style, all, 1) && Height(all) <= MAX_DEPTH
      else
        && next == cur.node && Walking(style, all, out, m, steps, stack, cur, p) && AllFine(m, steps)
           && cur.node in m.Keys
        && WalkSize(m, steps, cur) < size
  {
    hide WalkSize, Due, Stacked, Rep;
  }

  /** `xml_pack_next` and `xml_sprint_next`: the next element, after the end tags that come before it. */
  method PrintNext(style: Style, node: Node, stack1: seq<Node>, out0: string, ghost all: Elem, ghost before: string,
      ghost m: Store,
                   ghost steps0: seq<Step>, ghost stack0: seq<Node>, ghost cur0: Tree, ghost p0: seq<nat>)
    returns (next: Node?, stack: seq<Node>, out: string, ghost steps: seq<Step>, ghost cur: Tree, ghost p: seq<nat>)
    requires Holds(m) && Walking(style, all, before, m, steps0, stack0, cur0, p0) && Rooted(m, cur0, p0)
      && AllFine(m, steps0)
    requires cur0.node in m.Keys && node == cur0.node && stack1 == stack0 + [node] && |stack0| < MAX_DEPTH
    requires out0 == before + HeadText(style, AsElem(m, cur0), |stack0| + 1)
    requires node.temp == if cur0.kids == [] then null else cur0.kids[0].node
    modifies node`temp
    ensures Holds(m) && NextIs(style, all, m, steps, stack, out, next, cur, p, WalkSize(m, steps0, cur0))
  {
    hide *;
    var top;
    stack, out, steps, cur, p := stack1, out0, steps0, cur0, p0;
    ghost var size := WalkSize(m, steps0, cur0);
    WalkParts(style, all, before, m, steps0, stack0, cur0, p0);
    if node.temp != null {
      WalksDown(style, all, before, m, steps0, stack0, cur0, p0);
      next := node.temp;
      FieldsHold(m, next);
      NextField(m, next);
      Advance(node, m);
      steps, cur, p := steps0 + [Step(cur0, p0, 1)], cur0.kids[0], p0 + [|cur0.attrs|];
      NextParts(style, all, m, steps, stack, out, next, cur, p, size);
      return;
    }
    WalksUp(style, all, before, m, steps0, stack0, cur0, p0);
    top, stack := stack[|stack| - 1], stack[..|stack| - 1];
    assert stack == stack0;
    LeafFlag(m, cur0, p0);
    if |stack| == 0 {
      NextParts(style, all, m, steps, stack, out, null, cur, p, size);
      return null, stack, out, steps, cur, p;
    }
    next := top.next;
    while next == null
      invariant Climbing(style, all, out, m, steps, stack, next) && AllFine(m, steps)
      invariant LeftSize(PathOf(m, steps)) < size
      invariant Holds(m)
      decreases |steps|
      modifies {}
    {
      WalksOut(style, all, out, m, steps, stack);
      top := stack[|stack| - 1];
      FieldsHold(m, top);
      NextField(m, top);
      stack := stack[..|stack| - 1];
      if top.hasChild {
        var end := PrintEnd(style, top.name, |stack| + 1);
        out := out + end;
      }
      steps := steps[..|steps| - 1];
      if |stack| == 0 {
        NextParts(style, all, m, steps, stack, out, null, cur, p, size);
        return null, stack, out, steps, cur, p;
      }
      next := top.next;
    }
    WalksOn(style, all, out, m, steps, stack, next);
    ghost var l := steps[|steps| - 1];
    steps, cur, p := steps[..|steps| - 1] + [l.(next := l.next + 1)], l.t.kids[l.next], l.p + [|l.t.attrs| + l.next];
    NextParts(style, all, m, steps, stack, out, next, cur, p, size);
  }

  lemma NextField(m: Store, n: Node)
    requires n in m.Keys && n.All() == m[n].f
    ensures n.next == m[n].f.next && n.name == m[n].f.name && n.hasChild == m[n].f.hasChild
  {
  }

  /** A leaf's end tag was printed with its value, so the test for children at its turn fails. */
  lemma LeafFlag(m: Store, t: Tree, p: seq<nat>)
    requires Holds(m) && Rooted(m, t, p)
    ensures t.node.hasChild == (t.kids != []) && t.node.next == m[t.node].f.next
  {
    FieldsHold(m, t.node);
  }

  /** `xml_pack_tree` and `xml_sprint_tree`: the text of the tree, exactly when the stack is deep enough for it. */
  method PrintTree(style: Style, root: Node, ghost m: Store, ghost t: Tree, ghost p0: seq<nat>)
      returns (ok: bool, out: string)
    requires Holds(m) && Rep(m, t, p0) && t.node == root && root in m.Keys
    modifies m.Keys
    ensures Holds(m) && ok == (Height(AsElem(m, t)) <= MAX_DEPTH)
    ensures ok ==> out == Text(style, AsElem(m, t), 1)
  {
    hide *;
    var node: Node?, stack: seq<Node> := root, [];
    ghost var all, steps: seq<Step>, cur, p := AsElem(m, t), [], t, p0;
    out := "";
    WalkStarts(style, m, t, p0);
    ghost var size: nat := WalkSize(m, steps, cur) + 1;
    NextParts(style, all, m, steps, stack, out, node, cur, p, size);
    while node != null
      invariant Holds(m) && NextIs(style, all, m, steps, stack, out, node, cur, p, size)
      decreases size
    {
      NextParts(style, all, m, steps, stack, out, node, cur, p, size);
      WalkParts(style, all, out, m, steps, stack, cur, p);
      size := WalkSize(m, steps, cur);
      StartCursor(node, m);
      if |stack| >= MAX_DEPTH { return false, out; }
      stack := stack + [node];
      ghost var before, stack0 := out, stack[..|stack| - 1];
      var head := PrintHead(style, node, |stack|, m, cur, p);
      out := out + head;
      ListIs(m, cur, p);
      CursorAt(m, cur);
      node, stack, out, steps, cur, p := PrintNext(style, node, stack, out, all, before, m, steps, stack0, cur, p);
    }
    NextParts(style, all, m, steps, stack, out, node, cur, p, size);
    ok := true;
  }

  method StartCursor(node: Node, ghost m: Store)
    requires Holds(m)
    modifies node`temp
    ensures Holds(m) && node.temp == node.child
  {
    node.temp := node.child;
  }

  lemma WalkStarts(style: Style, m: Store, t: Tree, p: seq<nat>)
    requires Rep(m, t, p) && t.node in m.Keys
    ensures Walking(style, AsElem(m, t), "", m, [], [], t, p) && AllFine(m, [])
  {
    hide Rep, AsElem, Due;
    Begins(style, AsElem(m, t));
    assert PathOf(m, []) == [];
  }

  /** What the walk needs of the next element; with a full stack there is no room for it. */
  lemma WalkParts(style: Style, all: Elem, out: string, m: Store, steps: seq<Step>, stack: seq<Node>, cur: Tree,
      p: seq<nat>)
    requires Walking(style, all, out, m, steps, stack, cur, p)
    ensures Rep(m, cur, p) && Rooted(m, cur, p) && cur.node in m.Keys && AllFine(m, steps) && |steps| == |stack|
    ensures |stack| >= MAX_DEPTH ==> Height(all) > MAX_DEPTH
  {
    hide Rep, AsElem, Rooted, Text, LeftFits, LeftText, Height;
    RepParts(m, cur, p);
    StackParts(m, steps, stack);
  }

  lemma CursorAt(m: Store, t: Tree)
    requires AttrsListed(m, t)
    ensures ListAt(t, |t.attrs|) == if t.kids == [] then null else t.kids[0].node
  {
  }
}
