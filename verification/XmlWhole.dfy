/** `xml_spack` and `xml_sprint` print all the elements under a root, and reading that text links the same tree anew. */
module XmlWhole {
  import opened Records
  import opened Xml
  import opened XmlTrip
  import opened XmlNodes
  import opened XmlPrint
  import opened XmlReader
  import XmlAccept
  import G = XmlGrammar

  lemma {:induction false} TextMore(style: Style, kids: seq<Elem>, e: Elem, d: nat)
    ensures TextOf(style, kids + [e], d) == TextOf(style, kids, d) + Text(style, e, d)
    ensures HeightOf(kids + [e]) == if Height(e) > HeightOf(kids) then Height(e) else HeightOf(kids)
    decreases |kids|
  {
    hide Text, Height;
    if kids == [] {
      assert kids + [e] == [e] && [e][1..] == [];
      assert TextOf(style, [e], d) == Text(style, e, d) + "";
    } else {
      TextMore(style, kids[1..], e, d);
      assert (kids + [e])[1..] == kids[1..] + [e];
    }
  }

  lemma TextStep(style: Style, kids: seq<Elem>, k: nat)
    requires k < |kids|
    ensures TextOf(style, kids[..k + 1], 1) == TextOf(style, kids[..k], 1) + Text(style, kids[k], 1)
    ensures HeightOf(kids[..k + 1]) <= MAX_DEPTH <==> HeightOf(kids[..k]) <= MAX_DEPTH && Height(kids[k]) <= MAX_DEPTH
  {
    hide Text, TextOf, Height, HeightOf;
    TextMore(style, kids[..k], kids[k], 1);
    assert kids[..k + 1] == kids[..k] + [kids[k]];
  }

  lemma TooHigh(kids: seq<Elem>, k: nat)
    requires k < |kids| && Height(kids[k]) > MAX_DEPTH
    ensures HeightOf(kids) > MAX_DEPTH
  {
    hide Height;
  }

  lemma Nothing(style: Style, kids: seq<Elem>)
    ensures TextOf(style, kids[..0], 1) == "" && HeightOf(kids[..0]) == 0 && kids[..|kids|] == kids
  {
  }

  ghost function KidAt(t: Tree, k: nat): Node? {
    if k < |t.kids| then t.kids[k].node else null
  }

  lemma FirstKid(m: Store, t: Tree)
    requires Holds(m) && Rep(m, t, []) && t.attrs == []
    ensures t.node in m.Keys && t.node.child == KidAt(t, 0)
  {
    hide Rep;
    RepParts(m, t, []);
    ListIs(m, t, []);
    FieldsHold(m, t.node);
  }

  lemma NextKid(m: Store, t: Tree, k: nat)
    requires Holds(m) && Rep(m, t, []) && k < |t.kids|
    ensures t.kids[k].node in m.Keys && t.kids[k].node.next == KidAt(t, k + 1)
  {
    hide Rep;
    RepParts(m, t, []);
    BrotherIs(m, t, [], k);
    FieldsHold(m, t.kids[k].node);
  }

  lemma AllPrinted(style: Style, kids: seq<Elem>)
    ensures TextOf(style, kids[..|kids|], 1) == TextOf(style, kids, 1) && HeightOf(kids[..|kids|]) == HeightOf(kids)
  {
    assert kids[..|kids|] == kids;
  }

  /** `xml_spack`, and `xml_sprint` in the other style. */
  method PrintAll(style: Style, root: Node, ghost m: Store, ghost t: Tree) returns (ok: bool, out: string)
    requires Holds(m) && Rep(m, t, []) && t.node == root && t.attrs == [] && root in m.Keys
    modifies m.Keys
    ensures Holds(m) && ok == (HeightOf(AsElem(m, t).kids) <= MAX_DEPTH)
    ensures ok ==> out == TextOf(style, AsElem(m, t).kids, 1)
  {
    hide *;
    ghost var kids, k := AsElem(m, t).kids, 0;
    FirstKid(m, t);
    KidCount(m, t);
    var child := root.child;
    out := "";
    Nothing(style, kids);
    while child != null
      invariant Holds(m) && k <= |t.kids| == |kids| && child == KidAt(t, k)
      invariant out == TextOf(style, kids[..k], 1) && HeightOf(kids[..k]) <= MAX_DEPTH
      decreases |kids| - k
    {
      KidIn(t, k);
      KidIs(m, t, [], k);
      var printed, text := PrintTree(style, child, m, t.kids[k], [] + [|t.attrs| + k]);
      if !printed {
        TooHigh(kids, k);
        return false, out;
      }
      TextStep(style, kids, k);
      out := out + text;
      NextKid(m, t, k);
      child := child.next;
      k := k + 1;
    }
    KidIn(t, k);
    AllPrinted(style, kids);
    ok := true;
  }

  lemma KidIn(t: Tree, k: nat)
    requires k <= |t.kids|
    ensures KidAt(t, k) == null <==> k == |t.kids|
    ensures k < |t.kids| ==> KidAt(t, k) == t.kids[k].node
  {
  }

  lemma KidCount(m: Store, t: Tree)
    requires t.node in m.Keys
    ensures |AsElem(m, t).kids| == |t.kids|
  {
  }

  /** The round trip: every forest of good elements that the stack is deep enough for is printed, and what is read
      back from the text is that forest again. */
  method PrintAndRead(style: Style, root: Node, ghost m: Store, ghost t: Tree)
      returns (printed: bool, out: string, read: bool, reader: Reader)
    requires Holds(m) && Rep(m, t, []) && t.node == root && t.attrs == [] && root in m.Keys
    requires GoodAll(AsElem(m, t).kids)
    modifies m.Keys
    ensures printed == (HeightOf(AsElem(m, t).kids) <= MAX_DEPTH)
    ensures printed ==> read && reader.Valid() && reader.Contents() == Elem("", [], None, AsElem(m, t).kids)
  {
    hide *;
    printed, out := PrintAll(style, root, m, t);
    reader := new Reader(out);
    reader.ViewIsSound();
    read := reader.ParseAll();
    if printed {
      ParseOfText(style, AsElem(m, t).kids, Elem("", [], None, []));
    }
  }

  /** `xml_screat`: a text is read exactly when it is one of the grammar, and the nodes in memory are then the
      tree it means, however its spelling is taken apart. */
  method ReadText(str: string) returns (ok: bool, reader: Reader)
    ensures ok <==> exists nodes :: G.Spells(nodes, str)
    ensures ok ==> reader.Valid() && reader.stack == []
    ensures ok ==> forall nodes :: G.Spells(nodes, str) ==> reader.Contents() == Elem("", [], None, G.MeaningOf(nodes))
  {
    hide *;
    reader := new Reader(str);
    reader.ViewIsSound();
    ok := reader.ParseAll();
    BareIs(str);
    XmlAccept.ReadsTheGrammar(str);
  }

  lemma BareIs(str: string)
    ensures XmlAccept.Reading(str) == Parse(str, State(0, Elem("", [], None, []), 0))
    ensures forall kids :: XmlAccept.Bare().(kids := kids) == Elem("", [], None, kids)
  {
  }
}
