/** The two layouts of a printed tree: the same tags, run together, or each on its line behind the tabs of its depth. */
module XmlLayout {
  import opened Records
  import opened Xml

  /** A tag, with the value and the end tag on its line if it has them, and the depth it stands at. */
  datatype Line = Line(depth: nat, tag: string)

  function Lines(e: Elem, d: nat): seq<Line>
    decreases e
  {
    var head := "<" + e.name + AttrsText(e.attrs);
    if e.kids != [] then
      [Line(d, head + ">" + if e.value.Some? then e.value.value else "")] + LinesOf(e.kids, d + 1)
      + [Line(d, "</" + e.name + ">")]
    else if e.value.Some? then [Line(d, head + ">" + e.value.value + "</" + e.name + ">")]
    else [Line(d, head + "/>")]
  }

  function LinesOf(kids: seq<Elem>, d: nat): seq<Line>
    decreases kids
  {
    if kids == [] then [] else Lines(kids[0], d) + LinesOf(kids[1..], d)
  }

  /** One tab less than the depth before the tag, and a line end after it; or the bare tag. */
  function LineText(style: Style, line: Line): string {
    if style == Packed then line.tag
    else seq(if line.depth == 0 then 0 else line.depth - 1, i => '\t') + line.tag + "\n"
  }

  function InStyle(style: Style, lines: seq<Line>): string {
    if lines == [] then "" else LineText(style, lines[0]) + InStyle(style, lines[1..])
  }

  lemma {:induction false} InStyleJoins(style: Style, a: seq<Line>, b: seq<Line>)
    ensures InStyle(style, a + b) == InStyle(style, a) + InStyle(style, b)
  {
    if a == [] {
      assert a + b == b;
    } else {
      InStyleJoins(style, a[1..], b);
      assert (a + b)[1..] == a[1..] + b && (a + b)[0] == a[0];
      hide LineText;
      Assoc(LineText(style, a[0]), InStyle(style, a[1..]), InStyle(style, b));
    }
  }

  lemma Assoc(a: string, b: string, c: string)
    ensures (a + b) + c == a + (b + c)
  {
  }

  lemma OneLine(style: Style, d: nat, tag: string)
    ensures InStyle(style, [Line(d, tag)]) == Tabs(style, d) + tag + Eol(style)
  {
    assert [Line(d, tag)][1..] == [];
    assert InStyle(style, []) == "";
    if d == 0 { assert seq(0, i => '\t') == ""; }
  }

  /** What is printed is those lines, in either layout. */
  lemma {:induction false} TextIsLines(style: Style, e: Elem, d: nat)
    ensures Text(style, e, d) == InStyle(style, Lines(e, d))
    decreases e, 1
  {
    hide InStyle, Text, TextOf, Tabs;
    var head := "<" + e.name + AttrsText(e.attrs);
    HeadIsLine(style, e, d);
    TextParts(style, e, d);
    if e.kids != [] {
      var first := Line(d, head + ">" + if e.value.Some? then e.value.value else "");
      var last := Line(d, "</" + e.name + ">");
      KidsAreLines(style, e.kids, d + 1);
      InStyleJoins(style, [first] + LinesOf(e.kids, d + 1), [last]);
      InStyleJoins(style, [first], LinesOf(e.kids, d + 1));
      OneLine(style, d, last.tag);
    }
  }

  lemma TextParts(style: Style, e: Elem, d: nat)
    ensures Text(style, e, d) == HeadText(style, e, d) + TextOf(style, e.kids, d + 1) + TailText(style, e, d)
    ensures e.kids == [] ==> Text(style, e, d) == HeadText(style, e, d)
    ensures e.kids != [] ==> TailText(style, e, d) == Tabs(style, d) + ("</" + e.name + ">") + Eol(style)
  {
  }

  lemma HeadIsLine(style: Style, e: Elem, d: nat)
    ensures HeadText(style, e, d) == InStyle(style, [Lines(e, d)[0]])
  {
    hide Tabs, AttrsText, InStyle, Eol, HeadText, Lines;
    var v := HeadEnds(style, e, d);
    var a := AttrsText(e.attrs);
    OneLine(style, d, "<" + e.name + a + v);
    Glue(Tabs(style, d), e.name, a, v, Eol(style));
  }

  /** What stands behind the attributes on their line. */
  lemma HeadEnds(style: Style, e: Elem, d: nat) returns (v: string)
    ensures Lines(e, d) != [] && Lines(e, d)[0] == Line(d, "<" + e.name + AttrsText(e.attrs) + v)
    ensures HeadText(style, e, d) == Tabs(style, d) + "<" + e.name + AttrsText(e.attrs) + (v + Eol(style))
  {
    var w := if e.value.Some? then e.value.value else "";
    v := if e.kids != [] then ">" + w else if e.value.Some? then ">" + w + "</" + e.name + ">" else "/>";
    ValueEnds(style, e, v, w);
    var head := "<" + e.name + AttrsText(e.attrs);
    hide Tabs, AttrsText, Eol, ValueText, LinesOf;
    assert Lines(e, d)[0].tag == head + v by {
      if e.kids == [] && e.value.Some? { Assoc(head, ">" + w, "</" + e.name + ">"); Assoc(head, ">", w); }
      if e.kids != [] { Assoc(head, ">", w); }
    }
  }

  lemma ValueEnds(style: Style, e: Elem, v: string, w: string)
    requires w == if e.value.Some? then e.value.value else ""
    requires v == if e.kids != [] then ">" + w else if e.value.Some? then ">" + w + "</" + e.name + ">" else "/>"
    ensures ValueText(style, e.name, e.value, e.kids != []) == v + Eol(style)
  {
  }

  lemma Glue(t: string, name: string, a: string, v: string, eol: string)
    ensures t + "<" + name + a + (v + eol) == t + ("<" + name + a + v) + eol
  {
    Assoc(t, "<", name);
    Assoc(t, "<" + name, a);
    Assoc(t, "<" + name + a, v + eol);
    Assoc("<" + name + a, v, eol);
    Assoc(t, "<" + name + a + v, eol);
  }

  lemma {:induction false} KidsAreLines(style: Style, kids: seq<Elem>, d: nat)
    ensures TextOf(style, kids, d) == InStyle(style, LinesOf(kids, d))
    decreases kids, 0
  {
    if kids != [] {
      TextIsLines(style, kids[0], d);
      KidsAreLines(style, kids[1..], d);
      hide InStyle;
      InStyleJoins(style, Lines(kids[0], d), LinesOf(kids[1..], d));
    }
  }

  /** A tag of an element within `e` stands as much deeper as it lies below it. */
  lemma {:induction false} Deeper(e: Elem, d: nat)
    ensures Lines(e, d) != [] && forall k :: 0 <= k < |Lines(e, d)| ==> d <= Lines(e, d)[k].depth < d + Height(e)
    decreases e, 1
  {
    DeeperOf(e.kids, d + 1);
  }

  lemma {:induction false} DeeperOf(kids: seq<Elem>, d: nat)
    ensures forall k :: 0 <= k < |LinesOf(kids, d)| ==> d <= LinesOf(kids, d)[k].depth < d + HeightOf(kids)
    decreases kids, 0
  {
    if kids != [] {
      Deeper(kids[0], d);
      DeeperOf(kids[1..], d);
    }
  }
}
