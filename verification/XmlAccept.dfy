/** The parser accepts exactly the texts of the grammar, and gives the trees they mean. */
module XmlAccept {
  import opened Records
  import opened Xml
  import opened XmlTrip
  import opened XmlTokens
  import G = XmlGrammar

  // ---------------------------------------------------------------- trees under construction

  /** `es` as new last children of the open element at depth `d`. */
  function AddAll(r: Elem, d: nat, es: seq<Elem>): (r': Elem)
    requires Deep(r, d)
    ensures Deep(r', d) && r'.name == r.name
    decreases d
  {
    if d == 0 then r.(kids := r.kids + es) else
      var n := |r.kids| - 1;
      r.(kids := r.kids[..n] + [AddAll(r.kids[n], d - 1, es)])
  }

  lemma {:induction false} AddNone(r: Elem, d: nat)
    requires Deep(r, d)
    ensures AddAll(r, d, []) == r
    decreases d
  {
    if d == 0 {
      assert r.kids + [] == r.kids;
    } else {
      var n := |r.kids| - 1;
      AddNone(r.kids[n], d - 1);
      assert r.kids[..n] + [r.kids[n]] == r.kids;
    }
  }

  lemma {:induction false} AddOne(r: Elem, d: nat, e: Elem)
    requires Deep(r, d)
    ensures AddAll(r, d, [e]) == Append(r, d, e)
    decreases d
  {
    if d > 0 { AddOne(r.kids[|r.kids| - 1], d - 1, e); }
  }

  lemma {:induction false} AddMore(r: Elem, d: nat, a: seq<Elem>, b: seq<Elem>)
    requires Deep(r, d)
    ensures AddAll(AddAll(r, d, a), d, b) == AddAll(r, d, a + b)
    decreases d
  {
    if d == 0 {
      assert r.kids + a + b == r.kids + (a + b);
    } else {
      var n := |r.kids| - 1;
      AddMore(r.kids[n], d - 1, a, b);
      var r' := AddAll(r, d, a);
      assert r'.kids[..n] == r.kids[..n] && |r'.kids| == n + 1;
    }
  }

  /** Children of the element just opened. */
  lemma {:induction false} AddWithin(r: Elem, d: nat, x: Elem, es: seq<Elem>)
    requires Deep(r, d)
    ensures AddAll(Append(r, d, x), d + 1, es) == Append(r, d, x.(kids := x.kids + es))
    decreases d
  {
    var n := |r.kids|;
    if d == 0 {
      assert (r.kids + [x])[..n] == r.kids;
      assert AddAll(x, 0, es) == x.(kids := x.kids + es);
    } else {
      AddWithin(r.kids[n - 1], d - 1, x, es);
      assert (r.kids[..n - 1] + [Append(r.kids[n - 1], d - 1, x)])[..n - 1] == r.kids[..n - 1];
    }
  }

  /** What is open stays so, under the same names. */
  lemma {:induction false} TopStays(r: Elem, d: nat, es: seq<Elem>, k: nat)
    requires Deep(r, d) && 0 < k <= d
    ensures Deep(r, k) && Deep(AddAll(r, d, es), k) && Top(AddAll(r, d, es), k).name == Top(r, k).name
    decreases d
  {
    var n := |r.kids| - 1;
    if k > 1 { TopStays(r.kids[n], d - 1, es, k - 1); }
  }

  // ---------------------------------------------------------------- what is spelled is read

  lemma {:induction false} NextBracket(s: string, m: nat, nodes: seq<G.Node>)
    requires G.NodesOk(nodes) && Has(s, m, G.NodesText(nodes)) && At(s, m + |G.NodesText(nodes)|) == '<'
    ensures m <= |s| && At(s, Span(IsSpace, s, m)) == '<'
    decreases |nodes|
  {
    hide Span, Has, IsSpace, G.NodesText, G.NodeText, G.NodesOk, G.NodeOk;
    TextAt(s, m, G.NodesText(nodes));
    Chars('<');
    FirstNode(s, m, nodes);
    if nodes == [] {
      NoGap(s, m);
    } else {
      if nodes[0].Space? {
        SpaceIs(nodes[0].w);
        BlankOn(s, m, nodes[0].w);
        NextBracket(s, m + |nodes[0].w|, nodes[1..]);
      } else {
        NodeStarts(s, m, nodes[0]);
        NoGap(s, m);
      }
    }
  }

  /** The first of some nodes, and the others behind it. */
  lemma FirstNode(s: string, m: nat, nodes: seq<G.Node>)
    requires G.NodesOk(nodes) && Has(s, m, G.NodesText(nodes))
    ensures nodes == [] ==> |G.NodesText(nodes)| == 0
    ensures nodes != [] ==> var n, rest := nodes[0], nodes[1..];
      && G.NodeOk(n) && G.NodesOk(rest) && Has(s, m, G.NodeText(n)) && Has(s, m + |G.NodeText(n)|, G.NodesText(rest))
      && |G.NodesText(nodes)| == |G.NodeText(n)| + |G.NodesText(rest)|
  {
    hide Has, G.NodeText, G.NodeOk;
    if nodes != [] { HasParts(s, m, G.NodeText(nodes[0]), G.NodesText(nodes[1..])); }
  }

  lemma NodeStarts(s: string, m: nat, n: G.Node)
    requires !n.Space? && Has(s, m, G.NodeText(n))
    ensures At(s, m) == '<' && m < |s| && |G.NodeText(n)| > 0
  {
    assert G.NodeText(n)[0] == '<' by { hide G.NodesText, G.HeadText, G.InnerText, G.PairsText; }
    HasChar(s, m, G.NodeText(n), 0);
  }

  /** A state with everything before place `j` read, which added `es` to the open element. */
  function Past(j: nat, root: Elem, open: nat, es: seq<Elem>): State
    requires Deep(root, open)
  {
    State(j, AddAll(root, open, es), open)
  }

  lemma SpaceRead(s: string, i: nat, w: string, root: Elem, open: nat)
    requires Sound(s, State(i, root, open)) && G.Blank(w) && Has(s, i, w)
    ensures var st := Past(i + |w|, root, open, []); Sound(s, st) && Parse(s, State(i, root, open)) == Parse(s, st)
  {
    hide Parse, IsSpace, Has, G.Blank, AddAll, Deep;
    BlankMeans(w);
    TextAt(s, i, w);
    forall k | i <= k < i + |w| ensures IsSpace(s[k]) { HasChar(s, i, w, k - i); }
    SkipAll(s, State(i, root, open), i + |w|);
    AddNone(root, open);
  }

  lemma CommentRead(s: string, i: nat, body: string, root: Elem, open: nat)
    requires Sound(s, State(i, root, open)) && G.CommentOk(body) && Has(s, i, "<!--" + body + "-->")
    ensures Sound(s, Past(i + 7 + |body|, root, open, []))
    ensures Parse(s, State(i, root, open)) == Parse(s, Past(i + 7 + |body|, root, open, []))
  {
    hide Parse, Has, Note, G.CommentOk, AddAll, Deep;
    NoteRead(s, i, body);
    NoteApart(s, i, body);
    HasChar(s, i, "<!--", 0);
    HasChar(s, i, "<!--", 1);
    AtBracket(s, State(i, root, open));
    AddNone(root, open);
  }

  lemma VersionLineRead(s: string, i: nat, gap: string, pairs: seq<G.Pair>, root: Elem, open: nat)
    requires Sound(s, State(i, root, open)) && G.Blank(gap) && G.PairsOk(pairs) && Tight(pairs)
    requires Has(s, i, "<?xml " + gap + G.PairsText(pairs) + "?>")
    ensures Sound(s, Past(i + 8 + |gap| + |G.PairsText(pairs)|, root, open, []))
    ensures Parse(s, State(i, root, open)) == Parse(s, Past(i + 8 + |gap| + |G.PairsText(pairs)|, root, open, []))
  {
    hide Parse, Has, Version, G.PairsText, G.PairsOk, G.Blank, Tight, AddAll, Deep;
    VersionRead(s, i, gap, pairs);
    VersionApart(s, i, gap, pairs);
    HasChar(s, i, "<?xml ", 0);
    HasChar(s, i, "<?xml ", 1);
    AtBracket(s, State(i, root, open));
    AddNone(root, open);
  }

  /** A tag, read at its bracket. */
  lemma TagStep(s: string, st: State, leaf: Elem, closed: bool, next: nat)
    requires Sound(s, st) && At(s, st.at) == '<' && st.at < |s| && At(s, st.at + 1) !in "?!/" && st.open < MAX_DEPTH
    requires Tag(s, st.at + 1) == Some((leaf, closed, next))
    ensures var st' := State(next, Append(st.root, st.open, leaf), if closed then st.open else st.open + 1);
      Sound(s, st') && Parse(s, st) == Parse(s, st')
  {
    hide Parse, Tag, Append, Deep;
    AtBracket(s, st);
  }

  /** The first character of a tag that is neither closing nor a comment nor a version line. */
  lemma TagStarts(s: string, i: nat, h: G.Head, c: char)
    requires G.HeadOk(h) && Has(s, i, G.HeadText(h)) && At(s, i + |G.HeadText(h)|) == c
    requires c == '>' || (c == '/' && (h.name != "" || h.gap != ""))
    ensures At(s, i) !in "?!/"
  {
    HeadApart(s, i, h);
    hide Has, G.HeadText, G.PairsText, G.PairsOk;
    NameOk(h.name);
    BlankMeans(h.gap);
    Chars(At(s, i));
    if h.name != "" {
      HasChars(s, i, h.name);
    } else if h.gap != "" {
      HasChars(s, i, h.gap);
    } else {
      NoPairs();
    }
  }

  lemma EmptyApart(s: string, i: nat, h: G.Head)
    ensures Has(s, i, G.NodeText(G.Empty(h))) <==>
      At(s, i) == '<' && Has(s, i + 1, G.HeadText(h)) && At(s, i + 1 + |G.HeadText(h)|) == '/'
      && At(s, i + 2 + |G.HeadText(h)|) == '>'
    ensures |G.NodeText(G.Empty(h))| == |G.HeadText(h)| + 3
  {
    hide G.HeadText;
    HasParts(s, i, "<", G.HeadText(h));
    HasParts(s, i, "<" + G.HeadText(h), "/>");
    hide Has;
    HasOne(s, i, '<');
    HasTwo(s, i + 1 + |G.HeadText(h)|, '/', '>');
  }

  lemma EmptyTagRead(s: string, i: nat, h: G.Head, root: Elem, open: nat)
    requires Sound(s, State(i, root, open)) && open < MAX_DEPTH && G.NodeOk(G.Empty(h))
    requires Has(s, i, G.NodeText(G.Empty(h)))
    ensures var j := i + |G.NodeText(G.Empty(h))|;
      Sound(s, Past(j, root, open, [G.LeafOf(h, None)]))
      && Parse(s, State(i, root, open)) == Parse(s, Past(j, root, open, [G.LeafOf(h, None)]))
  {
    hide Has, G.HeadText, G.HeadOk, Start, Parse, Deep, Append, AddAll, Span, G.LeafOf, G.NodeText, Rest;
    EmptyApart(s, i, h);
    var k := i + 1 + |G.HeadText(h)|;
    TextAt(s, i + 1, G.HeadText(h));
    TextAt(s, i, G.NodeText(G.Empty(h)));
    TagStarts(s, i + 1, h, '/');
    HeadScan(s, i + 1, h);
    RestClosed(s, G.LeafOf(h, None), k);
    TagStep(s, State(i, root, open), G.LeafOf(h, None), true, k + 2);
    AddOne(root, open, G.LeafOf(h, None));
  }

  lemma EndApart(s: string, i: nat, name: string)
    ensures Has(s, i, "</" + name + ">") <==> Has(s, i, "</") && Has(s, i + 2, name) && Has(s, i + 2 + |name|, ">")
  {
    HasParts(s, i, "</", name);
    HasParts(s, i, "</" + name, ">");
  }

  /** An end tag closes the element whose name it bears. */
  lemma EndRead(s: string, i: nat, name: string, root: Elem, open: nat)
    requires Sound(s, State(i, root, open)) && open > 0 && Top(root, open).name == name
    requires G.Name(name) && Has(s, i, "</" + name + ">")
    ensures Deep(root, open - 1) && Sound(s, State(i + 3 + |name|, root, open - 1))
    ensures Parse(s, State(i, root, open)) == Parse(s, State(i + 3 + |name|, root, open - 1))
  {
    hide Has, Parse, G.Name, Deep, Top, IsMark, Span;
    EndApart(s, i, name);
    HasTwo(s, i, '<', '/');
    HasOne(s, i + 2 + |name|, '>');
    TextAt(s, i + 2 + |name|, ">");
    Chars('>');
    NameScan(s, i + 2, name);
    DeepLess(root, open);
    AtBracket(s, State(i, root, open));
  }

  /** The parts of an element that is not empty, from its bracket on. */
  lemma FullApart(s: string, i: nat, h: G.Head, v: G.Inner, nodes: seq<G.Node>)
    requires Has(s, i, G.NodeText(G.Full(h, v, nodes)))
    ensures var k := i + 1 + |G.HeadText(h)|;
      var m := k + 1 + |G.InnerText(v)|;
      var e := m + |G.NodesText(nodes)|;
      && At(s, i) == '<' && Has(s, i + 1, G.HeadText(h)) && At(s, k) == '>' && Has(s, k + 1, G.InnerText(v))
      && Has(s, m, G.NodesText(nodes)) && Has(s, e, "</" + h.name + ">") && At(s, e) == '<'
      && k < m <= e < |s| && e + 3 + |h.name| == i + |G.NodeText(G.Full(h, v, nodes))| <= |s|
  {
    var a, b, c, d := G.HeadText(h), G.InnerText(v), G.NodesText(nodes), h.name;
    FullText(h, v, nodes);
    hide Has, G.HeadText, G.InnerText, G.NodesText, G.NodeText;
    var k := i + 1 + |a|;
    var m := k + 1 + |b|;
    HasParts(s, i, "<", a);
    HasParts(s, i, "<" + a, ">");
    HasParts(s, i, "<" + a + ">", b);
    HasParts(s, i, "<" + a + ">" + b, c);
    HasParts(s, i, "<" + a + ">" + b + c, "</" + d + ">");
    HasOne(s, i, '<');
    HasOne(s, k, '>');
    EndApart(s, m + |c|, d);
    HasTwo(s, m + |c|, '<', '/');
    TextAt(s, m + |c|, "</" + d + ">");
  }

  lemma FullText(h: G.Head, v: G.Inner, nodes: seq<G.Node>)
    ensures var a, b, c, d := G.HeadText(h), G.InnerText(v), G.NodesText(nodes), h.name;
      G.NodeText(G.Full(h, v, nodes)) == "<" + a + ">" + b + c + ("</" + d + ">")
  {
    var x := "<" + G.HeadText(h) + ">" + G.InnerText(v) + G.NodesText(nodes);
    hide G.HeadText, G.InnerText, G.NodesText;
    assert x + "</" + h.name + ">" == x + ("</" + h.name + ">");
  }

  /** The start tag of an element and its value. */
  lemma OpenRead(s: string, i: nat, h: G.Head, v: G.Inner, nodes: seq<G.Node>, root: Elem, open: nat)
    requires Sound(s, State(i, root, open)) && open < MAX_DEPTH && G.HeadOk(h) && G.InnerOk(v) && G.NodesOk(nodes)
    requires Has(s, i, G.NodeText(G.Full(h, v, nodes)))
    ensures var m := i + 2 + |G.HeadText(h)| + |G.InnerText(v)|;
      var st := State(m, Append(root, open, G.LeafOf(h, G.ValueOf(v))), open + 1);
      Sound(s, st) && Parse(s, State(i, root, open)) == Parse(s, st)
  {
    hide Has, Parse, Deep, Append, Span, Rest, Start, Tag, G.HeadOk, G.InnerOk, G.NodesOk, G.HeadText, G.InnerText,
      G.NodesText, G.NodeText, IsSpace;
    FullApart(s, i, h, v, nodes);
    var k := i + 1 + |G.HeadText(h)|;
    var m := k + 1 + |G.InnerText(v)|;
    TagStarts(s, i + 1, h, '>');
    HeadScan(s, i + 1, h);
    NextBracket(s, m, nodes);
    InnerRead(s, G.LeafOf(h, None), k, v);
    var leaf, w := G.LeafOf(h, G.ValueOf(v)), Span(IsSpace, s, m);
    TagIs(s, i + 1, G.LeafOf(h, None), k, leaf, false, w);
    TagStep(s, State(i, root, open), leaf, false, w);
    SpanTells(IsSpace, s, m);
    SkipAll(s, State(m, Append(root, open, leaf), open + 1), w);
  }

  lemma TagIs(s: string, i: nat, leaf: Elem, k: nat, x: Elem, closed: bool, next: nat)
    requires i <= |s| && Start(s, i) == Some((leaf, k)) && Rest(s, leaf, k) == Some((x, closed, next))
    ensures Tag(s, i) == Some((x, closed, next))
  {
    hide Start, Rest;
  }

  lemma {:induction false} NodeRead(s: string, i: nat, n: G.Node, root: Elem, open: nat)
    requires Sound(s, State(i, root, open)) && G.NodeOk(n) && open + G.Depth(n) <= MAX_DEPTH
    requires Has(s, i, G.NodeText(n))
    ensures var st := Past(i + |G.NodeText(n)|, root, open, G.Meaning(n));
      Sound(s, st) && Parse(s, State(i, root, open)) == Parse(s, st)
    decreases n, 2
  {
    hide *;
    match n {
      case Space(w) =>
        SpaceIs(w);
        SpaceRead(s, i, w, root, open);
      case Comment(body) =>
        CommentIs(body);
        CommentRead(s, i, body, root, open);
      case Version(gap, pairs) =>
        VersionIs(gap, pairs);
        VersionLineRead(s, i, gap, pairs, root, open);
      case Empty(head) =>
        EmptyIs(head);
        EmptyTagRead(s, i, head, root, open);
      case Full(head, inner, nodes) =>
        FullIs(head, inner, nodes);
        FullRead(s, i, head, inner, nodes, root, open);
    }
  }

  lemma SpaceIs(w: string)
    ensures var n := G.Space(w);
      G.NodeText(n) == w && G.Meaning(n) == [] && G.Depth(n) == 0 && (G.NodeOk(n) <==> G.Blank(w))
  {
  }

  lemma CommentIs(body: string)
    ensures var n := G.Comment(body);
      && G.NodeText(n) == "<!--" + body + "-->" && |G.NodeText(n)| == |body| + 7
      && G.Meaning(n) == [] && G.Depth(n) == 0 && (G.NodeOk(n) <==> G.CommentOk(body))
  {
  }

  lemma VersionIs(gap: string, pairs: seq<G.Pair>)
    ensures var n := G.Version(gap, pairs);
      && G.NodeText(n) == "<?xml " + gap + G.PairsText(pairs) + "?>"
      && |G.NodeText(n)| == 8 + |gap| + |G.PairsText(pairs)|
      && G.Meaning(n) == [] && G.Depth(n) == 0 && (G.NodeOk(n) <==> G.Blank(gap) && G.PairsOk(pairs) && Tight(pairs))
  {
    hide G.PairsText, G.PairsOk, G.Blank;
  }

  lemma EmptyIs(h: G.Head)
    ensures G.Meaning(G.Empty(h)) == [G.LeafOf(h, None)] && G.Depth(G.Empty(h)) == 1
  {
  }

  lemma FullIs(h: G.Head, v: G.Inner, nodes: seq<G.Node>)
    ensures var n := G.Full(h, v, nodes);
      && G.Meaning(n) == [G.LeafOf(h, G.ValueOf(v)).(kids := G.MeaningOf(nodes))]
      && G.Depth(n) == 1 + G.DepthOf(nodes) && (G.NodeOk(n) <==> G.HeadOk(h) && G.InnerOk(v) && G.NodesOk(nodes))
  {
    hide G.HeadOk, G.InnerOk, G.NodesOk, G.MeaningOf, G.DepthOf, G.LeafOf;
  }

  lemma {:induction false} FullRead(s: string, i: nat, h: G.Head, v: G.Inner, nodes: seq<G.Node>, root: Elem, open: nat)
    requires Sound(s, State(i, root, open)) && G.HeadOk(h) && G.InnerOk(v) && G.NodesOk(nodes)
    requires open + 1 + G.DepthOf(nodes) <= MAX_DEPTH && Has(s, i, G.NodeText(G.Full(h, v, nodes)))
    ensures var e := G.LeafOf(h, G.ValueOf(v)).(kids := G.MeaningOf(nodes));
      var st := Past(i + |G.NodeText(G.Full(h, v, nodes))|, root, open, [e]);
      Sound(s, st) && Parse(s, State(i, root, open)) == Parse(s, st)
    decreases nodes, 1
  {
    hide *;
    OpenRead(s, i, h, v, nodes, root, open);
    FullApart(s, i, h, v, nodes);
    var leaf, m := G.LeafOf(h, G.ValueOf(v)), i + 2 + |G.HeadText(h)| + |G.InnerText(v)|;
    LeafIs(h, G.ValueOf(v));
    SoundIs(s, State(i, root, open));
    var inside := Append(root, open, leaf);
    SoundIs(s, State(m, inside, open + 1));
    NodesRead(s, m, nodes, inside, open + 1);
    AddWithin(root, open, leaf, G.MeaningOf(nodes));
    var e := leaf.(kids := G.MeaningOf(nodes));
    assert leaf.kids + G.MeaningOf(nodes) == G.MeaningOf(nodes);
    HeadName(h);
    PastIs(m + |G.NodesText(nodes)|, inside, open + 1, G.MeaningOf(nodes));
    EndRead(s, m + |G.NodesText(nodes)|, h.name, Append(root, open, e), open + 1);
    AddOne(root, open, e);
    PastIs(i + |G.NodeText(G.Full(h, v, nodes))|, root, open, [e]);
  }

  lemma LeafIs(h: G.Head, value: Option<string>)
    ensures G.LeafOf(h, value).name == h.name && G.LeafOf(h, value).kids == []
  {
  }

  lemma SoundIs(s: string, st: State)
    requires Sound(s, st)
    ensures st.at <= |s| && st.open <= MAX_DEPTH && Deep(st.root, st.open)
  {
  }

  lemma PastIs(j: nat, root: Elem, open: nat, es: seq<Elem>)
    requires Deep(root, open)
    ensures Past(j, root, open, es) == State(j, AddAll(root, open, es), open)
  {
  }

  lemma HeadName(h: G.Head)
    requires G.HeadOk(h)
    ensures G.Name(h.name)
  {
  }

  lemma {:induction false} NodesRead(s: string, i: nat, nodes: seq<G.Node>, root: Elem, open: nat)
    requires Sound(s, State(i, root, open)) && G.NodesOk(nodes) && open + G.DepthOf(nodes) <= MAX_DEPTH
    requires Has(s, i, G.NodesText(nodes))
    ensures var st := Past(i + |G.NodesText(nodes)|, root, open, G.MeaningOf(nodes));
      Sound(s, st) && Parse(s, State(i, root, open)) == Parse(s, st)
    decreases nodes, 0
  {
    hide Has, Parse, AddAll, Deep, G.NodeText, G.NodeOk, G.Meaning;
    if nodes == [] {
      AddNone(root, open);
    } else {
      var n, rest := nodes[0], nodes[1..];
      HasParts(s, i, G.NodeText(n), G.NodesText(rest));
      NodeRead(s, i, n, root, open);
      var root' := AddAll(root, open, G.Meaning(n));
      NodesRead(s, i + |G.NodeText(n)|, rest, root', open);
      AddMore(root, open, G.Meaning(n), G.MeaningOf(rest));
    }
  }

  // ---------------------------------------------------------------- what is read was spelled

  /** From a state on: what is still written inside each open element, the innermost first, and at last
      outside them all. */
  predicate LevelsOk(levels: seq<seq<G.Node>>, open: nat)
    decreases open
  {
    && |levels| == open + 1 && G.NodesOk(levels[0]) && open + G.DepthOf(levels[0]) <= MAX_DEPTH
    && (open > 0 ==> LevelsOk(levels[1..], open - 1))
  }

  /** Its text, with the end tags between the levels. */
  function LevelsText(levels: seq<seq<G.Node>>, root: Elem, open: nat): string
    requires |levels| == open + 1 && Deep(root, open)
    decreases open
  {
    G.NodesText(levels[0]) + if open == 0 then "" else
      DeepLess(root, open);
      "</" + Top(root, open).name + ">" + LevelsText(levels[1..], root, open - 1)
  }

  /** The tree with what is still written. */
  function Grown(levels: seq<seq<G.Node>>, root: Elem, open: nat): Elem
    requires |levels| == open + 1 && Deep(root, open)
    decreases open
  {
    var r := AddAll(root, open, G.MeaningOf(levels[0]));
    if open == 0 then r else
      DeepLess(r, open);
      Grown(levels[1..], r, open - 1)
  }

  /** The text depends on the names of the open elements only. */
  lemma {:induction false} SameNames(levels: seq<seq<G.Node>>, root: Elem, root': Elem, open: nat)
    requires |levels| == open + 1 && Deep(root, open) && Deep(root', open)
    requires forall k :: 0 < k <= open ==> Deep(root, k) && Deep(root', k) && Top(root, k).name == Top(root', k).name
    ensures LevelsText(levels, root, open) == LevelsText(levels, root', open)
    decreases open
  {
    hide G.NodesText;
    if open > 0 {
      DeepLess(root, open);
      DeepLess(root', open);
      SameNames(levels[1..], root, root', open - 1);
    }
  }

  lemma NamesStay(root: Elem, open: nat, es: seq<Elem>)
    requires Deep(root, open)
    ensures forall k :: 0 < k <= open ==>
      Deep(root, k) && Deep(AddAll(root, open, es), k) && Top(AddAll(root, open, es), k).name == Top(root, k).name
  {
    forall k | 0 < k <= open
      ensures Deep(root, k) && Deep(AddAll(root, open, es), k)
        && Top(AddAll(root, open, es), k).name == Top(root, k).name
    {
      TopStays(root, open, es, k);
    }
  }

  /** The levels with one node more at their beginning. */
  function With(n: G.Node, levels: seq<seq<G.Node>>): (r: seq<seq<G.Node>>)
    requires levels != []
    ensures |r| == |levels| && r[0] == [n] + levels[0] && r[1..] == levels[1..]
  {
    [[n] + levels[0]] + levels[1..]
  }

  lemma OneMoreNode(n: G.Node, nodes: seq<G.Node>)
    ensures G.NodesText([n] + nodes) == G.NodeText(n) + G.NodesText(nodes)
    ensures G.MeaningOf([n] + nodes) == G.Meaning(n) + G.MeaningOf(nodes)
    ensures G.NodesOk([n] + nodes) <==> G.NodeOk(n) && G.NodesOk(nodes)
    ensures G.DepthOf([n] + nodes) == if G.Depth(n) > G.DepthOf(nodes) then G.Depth(n) else G.DepthOf(nodes)
  {
    assert ([n] + nodes)[1..] == nodes;
    hide G.NodeText, G.Meaning, G.NodeOk, G.Depth;
  }

  /** A node read, and the rest spelled: all of it is spelled. */
  lemma NodeBefore(s: string, i: nat, n: G.Node, levels: seq<seq<G.Node>>, root: Elem, open: nat)
    requires Deep(root, open) && LevelsOk(levels, open) && G.NodeOk(n) && open + G.Depth(n) <= MAX_DEPTH
    requires Has(s, i, G.NodeText(n))
    requires var root' := AddAll(root, open, G.Meaning(n)); Has(s, i + |G.NodeText(n)|, LevelsText(levels, root', open))
    ensures LevelsOk(With(n, levels), open)
    ensures var root' := AddAll(root, open, G.Meaning(n));
      && Has(s, i, LevelsText(With(n, levels), root, open))
      && |LevelsText(With(n, levels), root, open)| == |G.NodeText(n)| + |LevelsText(levels, root', open)|
      && Grown(With(n, levels), root, open) == Grown(levels, root', open)
  {
    hide Has, G.NodeText, G.NodesText, G.Meaning, G.MeaningOf, G.NodeOk, G.NodesOk, G.Depth, G.DepthOf, AddAll,
      Deep, Top;
    var root' := AddAll(root, open, G.Meaning(n));
    OneMoreNode(n, levels[0]);
    NamesStay(root, open, G.Meaning(n));
    SameNames(levels, root, root', open);
    TextBefore(n, levels, root, open);
    HasParts(s, i, G.NodeText(n), LevelsText(levels, root, open));
    AddMore(root, open, G.Meaning(n), G.MeaningOf(levels[0]));
  }

  lemma TextBefore(n: G.Node, levels: seq<seq<G.Node>>, root: Elem, open: nat)
    requires Deep(root, open) && |levels| == open + 1
    ensures LevelsText(With(n, levels), root, open) == G.NodeText(n) + LevelsText(levels, root, open)
  {
    hide *;
    OneMoreNode(n, levels[0]);
    LevelsApart(levels, root, open);
    LevelsApart(With(n, levels), root, open);
    if open > 0 {
      DeepLess(root, open);
      Assoc(G.NodeText(n), G.NodesText(levels[0]), EndText(root, open) + LevelsText(levels[1..], root, open - 1));
    }
  }

  function EndText(root: Elem, open: nat): string
    requires Deep(root, open)
  {
    "</" + Top(root, open).name + ">"
  }

  lemma LevelsApart(levels: seq<seq<G.Node>>, root: Elem, open: nat)
    requires Deep(root, open) && |levels| == open + 1
    ensures open == 0 ==> LevelsText(levels, root, open) == G.NodesText(levels[0])
    ensures open > 0 ==>
      Deep(root, open - 1)
      && LevelsText(levels, root, open) == G.NodesText(levels[0]) + (EndText(root, open)
        + LevelsText(levels[1..], root, open - 1))
  {
    hide G.NodesText, Deep, Top;
    if open > 0 { DeepLess(root, open); }
  }

  lemma Assoc(a: string, b: string, c: string)
    ensures (a + b) + c == a + (b + c)
  {
  }

  /** An end tag read, and the rest spelled. */
  lemma EndBefore(s: string, i: nat, name: string, levels: seq<seq<G.Node>>, root: Elem, open: nat)
    requires open > 0 && Deep(root, open) && Deep(root, open - 1) && LevelsOk(levels, open - 1) && open <= MAX_DEPTH
    requires Top(root, open).name == name && Has(s, i, "</" + name + ">")
    requires Has(s, i + 3 + |name|, LevelsText(levels, root, open - 1))
    ensures var levels' := [[]] + levels;
      && LevelsOk(levels', open) && Has(s, i, LevelsText(levels', root, open))
      && |LevelsText(levels', root, open)| == 3 + |name| + |LevelsText(levels, root, open - 1)|
      && Grown(levels', root, open) == Grown(levels, root, open - 1)
  {
    hide Has, Deep, Top, AddAll, LevelsText;
    var levels' := [[]] + levels;
    assert levels'[1..] == levels && levels'[0] == [];
    var rest := LevelsText(levels, root, open - 1);
    HasParts(s, i, "</" + name + ">", rest);
    LevelsApart(levels', root, open);
    assert G.NodesText([]) + ("</" + name + ">" + rest) == "</" + name + ">" + rest;
    AddNone(root, open);
  }

  /** An element opened, and the rest spelled: the first level of the rest is inside it. */
  lemma OpenBefore(s: string, i: nat, h: G.Head, v: G.Inner, levels: seq<seq<G.Node>>, root: Elem, open: nat)
      returns (levels': seq<seq<G.Node>>)
    requires Deep(root, open) && open < MAX_DEPTH && LevelsOk(levels, open + 1) && G.HeadOk(h) && G.InnerOk(v)
    requires Has(s, i, "<" + G.HeadText(h) + ">" + G.InnerText(v))
    requires var root' := Append(root, open, G.LeafOf(h, G.ValueOf(v)));
      Has(s, i + 2 + |G.HeadText(h)| + |G.InnerText(v)|, LevelsText(levels, root', open + 1))
    ensures LevelsOk(levels', open) && Has(s, i, LevelsText(levels', root, open))
    ensures var root' := Append(root, open, G.LeafOf(h, G.ValueOf(v)));
      && |LevelsText(levels', root, open)|
        == 2 + |G.HeadText(h)| + |G.InnerText(v)| + |LevelsText(levels, root', open + 1)|
      && Grown(levels', root, open) == Grown(levels, root', open + 1)
  {
    hide Has, G.NodeText, G.NodesText, G.Meaning, G.MeaningOf, G.NodeOk, G.NodesOk, G.Depth, G.DepthOf, AddAll, Append,
      Deep, Top, G.HeadText, G.InnerText, G.HeadOk, G.InnerOk, G.LeafOf;
    var leaf := G.LeafOf(h, G.ValueOf(v));
    LeafIs(h, G.ValueOf(v));
    var root', nodes, rest := Append(root, open, leaf), levels[0], levels[1..];
    var n := G.Full(h, v, nodes);
    FullIs(h, v, nodes);
    FullText(h, v, nodes);
    var e := leaf.(kids := G.MeaningOf(nodes));
    assert leaf.kids + G.MeaningOf(nodes) == G.MeaningOf(nodes);
    AddWithin(root, open, leaf, G.MeaningOf(nodes));
    AddOne(root, open, e);
    AddOne(root, open, leaf);
    var root1 := AddAll(root, open, [e]);
    NamesStay(root, open, [e]);
    NamesStay(root, open, [leaf]);
    SameNames(rest, root', root1, open);
    var a, j := "<" + G.HeadText(h) + ">" + G.InnerText(v), i + 2 + |G.HeadText(h)| + |G.InnerText(v)|;
    var b, c, d := G.NodesText(nodes), "</" + h.name + ">", LevelsText(rest, root', open);
    LevelsApart(levels, root', open + 1);
    HasParts(s, j, b, c + d);
    HasParts(s, j + |b|, c, d);
    HasParts(s, i, a, b);
    HasParts(s, i, a + b, c);
    levels' := With(n, rest);
    NodeBefore(s, i, n, rest, root, open);
  }

  /** The levels spell the string from a place to its end, and grow the tree that was read. */
  ghost predicate Tells(s: string, st: State, levels: seq<seq<G.Node>>) {
    && Deep(st.root, st.open) && LevelsOk(levels, st.open) && Has(s, st.at, LevelsText(levels, st.root, st.open))
    && var n := st.at + |LevelsText(levels, st.root, st.open)|;
       n <= |s| && At(s, n) == '\0' && Parse(s, st) == Some(Grown(levels, st.root, st.open))
  }

  lemma {:induction false} Recover(s: string, st: State) returns (levels: seq<seq<G.Node>>)
    requires Sound(s, st) && Parse(s, st).Some?
    ensures Tells(s, st, levels)
    decreases |s| - st.at, 1
  {
    hide *;
    SoundIs(s, st);
    var w := ScanBlank(s, st.at);
    SpaceIs(w);
    SpaceRead(s, st.at, w, st.root, st.open);
    PastIs(st.at + |w|, st.root, st.open, []);
    AddNone(st.root, st.open);
    var rest := RecoverAt(s, State(st.at + |w|, st.root, st.open));
    levels := NodeTold(s, st, G.Space(w), rest);
  }

  /** A node read, and the rest told. */
  lemma NodeTold(s: string, st: State, n: G.Node, rest: seq<seq<G.Node>>) returns (levels: seq<seq<G.Node>>)
    requires Sound(s, st) && G.NodeOk(n) && st.open + G.Depth(n) <= MAX_DEPTH && Has(s, st.at, G.NodeText(n))
    requires Deep(st.root, st.open)
    requires var st' := Past(st.at + |G.NodeText(n)|, st.root, st.open, G.Meaning(n));
      Parse(s, st) == Parse(s, st') && Tells(s, st', rest)
    ensures Tells(s, st, levels)
  {
    hide Has, Parse, LevelsText, LevelsOk, Grown, G.NodeOk, G.NodeText, G.Meaning, G.Depth, AddAll, Deep;
    LevelsSize(rest, st.open);
    levels := With(n, rest);
    NodeBefore(s, st.at, n, rest, st.root, st.open);
  }

  lemma LevelsSize(levels: seq<seq<G.Node>>, open: nat)
    requires LevelsOk(levels, open)
    ensures |levels| == open + 1
  {
  }

  lemma {:induction false} RecoverAt(s: string, st: State) returns (levels: seq<seq<G.Node>>)
    requires Sound(s, st) && Parse(s, st).Some? && !IsSpace(At(s, st.at))
    ensures Tells(s, st, levels)
    decreases |s| - st.at, 0
  {
    hide *;
    SoundIs(s, st);
    if At(s, st.at) == '<' {
      BracketIn(s, st.at);
      AtBracket(s, st);
      NextIs(s, st);
      var next := Round(s, st).value;
      var rest := Recover(s, next);
      levels := RoundTold(s, st, next, rest);
    } else {
      levels := AllTold(s, st);
    }
  }

  lemma BracketIn(s: string, i: nat)
    requires At(s, i) == '<'
    ensures i < |s|
  {
  }

  lemma NextIs(s: string, st: State)
    requires Sound(s, st) && At(s, st.at) == '<' && st.at < |s|
    ensures Round(s, st).Some? ==> Sound(s, Round(s, st).value) && st.at < Round(s, st).value.at <= |s|
  {
    hide Round;
  }

  lemma AllTold(s: string, st: State) returns (levels: seq<seq<G.Node>>)
    requires Sound(s, st) && Parse(s, st).Some? && !IsSpace(At(s, st.at)) && At(s, st.at) != '<'
    ensures Tells(s, st, levels)
  {
    NoGap(s, st.at);
    levels := [[]];
    HasNothing(s, st.at);
    AddNone(st.root, 0);
  }

  /** One round of the main loop, and the rest told. */
  lemma RoundTold(s: string, st: State, next: State, rest: seq<seq<G.Node>>) returns (levels: seq<seq<G.Node>>)
    requires Sound(s, st) && st.at < |s| && At(s, st.at) == '<' && Round(s, st) == Some(next)
    requires Parse(s, st) == Parse(s, next) && Tells(s, next, rest)
    ensures Tells(s, st, levels)
  {
    hide *;
    RoundIs(s, st);
    SoundIs(s, st);
    var c := At(s, st.at + 1);
    if c == '?' {
      levels := VersionTold(s, st, next, rest);
    } else if c == '!' {
      levels := NoteTold(s, st, next, rest);
    } else if c == '/' {
      levels := EndTold(s, st, next, rest);
    } else {
      levels := MarkTold(s, st, next, rest);
    }
  }

  lemma VersionTold(s: string, st: State, next: State, rest: seq<seq<G.Node>>) returns (levels: seq<seq<G.Node>>)
    requires Sound(s, st) && Deep(st.root, st.open) && Version(s, st.at) == Some(next.at) && next == st.(at := next.at)
    requires Parse(s, st) == Parse(s, next) && Tells(s, next, rest)
    ensures Tells(s, st, levels)
  {
    hide *;
    SoundIs(s, st);
    var gap, pairs := ScanVersion(s, st.at);
    VersionIs(gap, pairs);
    Skipped(st, next, G.Version(gap, pairs));
    levels := NodeTold(s, st, G.Version(gap, pairs), rest);
  }

  lemma NoteTold(s: string, st: State, next: State, rest: seq<seq<G.Node>>) returns (levels: seq<seq<G.Node>>)
    requires Sound(s, st) && Deep(st.root, st.open) && Note(s, st.at) == Some(next.at) && next == st.(at := next.at)
    requires Parse(s, st) == Parse(s, next) && Tells(s, next, rest)
    ensures Tells(s, st, levels)
  {
    hide *;
    SoundIs(s, st);
    var body := ScanNote(s, st.at);
    CommentIs(body);
    Skipped(st, next, G.Comment(body));
    levels := NodeTold(s, st, G.Comment(body), rest);
  }

  lemma RoundIs(s: string, st: State)
    requires Sound(s, st) && st.at < |s| && At(s, st.at) == '<' && Round(s, st).Some?
    ensures At(s, st.at + 1) == '?' ==> Version(s, st.at) == Some(Round(s, st).value.at)
    ensures At(s, st.at + 1) == '!' ==> Note(s, st.at) == Some(Round(s, st).value.at)
    ensures At(s, st.at + 1) == '?' || At(s, st.at + 1) == '!' ==>
      Round(s, st).value == st.(at := Round(s, st).value.at)
    ensures At(s, st.at + 1) == '/' ==> st.at + 2 <= |s| && Round(s, st) == End(s, st)
    ensures At(s, st.at + 1) !in "?!/" ==> Round(s, st) == Mark(s, st)
  {
    hide Version, Note, End, Mark;
  }

  lemma Skipped(st: State, next: State, n: G.Node)
    requires Deep(st.root, st.open) && G.Meaning(n) == [] && next == st.(at := st.at + |G.NodeText(n)|)
    ensures next == Past(st.at + |G.NodeText(n)|, st.root, st.open, G.Meaning(n))
  {
    hide G.NodeText, G.Meaning;
    AddNone(st.root, st.open);
  }

  lemma EndTold(s: string, st: State, next: State, rest: seq<seq<G.Node>>) returns (levels: seq<seq<G.Node>>)
    requires Sound(s, st) && st.at + 2 <= |s| && At(s, st.at) == '<' && At(s, st.at + 1) == '/'
    requires End(s, st) == Some(next) && Parse(s, st) == Parse(s, next) && Tells(s, next, rest)
    ensures Tells(s, st, levels)
  {
    hide Has, Parse, LevelsText, LevelsOk, Grown, Deep, Top, Span, G.Name;
    var name := ScanName(s, st.at + 2);
    HasTwo(s, st.at, '<', '/');
    HasOne(s, st.at + 2 + |name|, '>');
    EndApart(s, st.at, name);
    levels := [[]] + rest;
    EndBefore(s, st.at, name, rest, st.root, st.open);
  }

  lemma MarkTold(s: string, st: State, next: State, rest: seq<seq<G.Node>>) returns (levels: seq<seq<G.Node>>)
    requires Sound(s, st) && st.at < |s| && At(s, st.at) == '<' && At(s, st.at + 1) !in "?!/"
    requires Mark(s, st) == Some(next) && Parse(s, st) == Parse(s, next) && Tells(s, next, rest)
    ensures Tells(s, st, levels)
  {
    hide *;
    MarkIs(s, st);
    SoundIs(s, st);
    var h := ScanHead(s, st.at + 1);
    var k := st.at + 1 + |G.HeadText(h)|;
    RestIs(s, G.LeafOf(h, None), k);
    if Rest(s, G.LeafOf(h, None), k).value.1 {
      levels := ClosedTold(s, st, next, h, k, rest);
    } else {
      levels := OpenedTold(s, st, next, h, k, rest);
    }
  }

  /** What a tag makes of the state, once its rest is read. */
  function Marked(st: State, r: (Elem, bool, nat)): State
    requires Deep(st.root, st.open)
  {
    State(r.2, Append(st.root, st.open, r.0), if r.1 then st.open else st.open + 1)
  }

  lemma ClosedTold(s: string, st: State, next: State, h: G.Head, k: nat, rest: seq<seq<G.Node>>)
      returns (levels: seq<seq<G.Node>>)
    requires Sound(s, st) && At(s, st.at) == '<' && At(s, st.at + 1) !in "?!/" && st.open < MAX_DEPTH
    requires G.HeadOk(h) && Has(s, st.at + 1, G.HeadText(h)) && k == st.at + 1 + |G.HeadText(h)|
    requires At(s, k) == '/' && At(s, k + 1) == '>'
    requires Deep(st.root, st.open) && next == Marked(st, (G.LeafOf(h, None), true, k + 2))
    requires Parse(s, st) == Parse(s, next) && Tells(s, next, rest)
    ensures Tells(s, st, levels)
  {
    hide *;
    MarkedIs(st, (G.LeafOf(h, None), true, k + 2));
    EmptyTold(s, st, h, k);
    AddOne(st.root, st.open, G.LeafOf(h, None));
    EmptyIs(h);
    PastIs(next.at, st.root, st.open, G.Meaning(G.Empty(h)));
    levels := NodeTold(s, st, G.Empty(h), rest);
  }

  lemma OpenedTold(s: string, st: State, next: State, h: G.Head, k: nat, rest: seq<seq<G.Node>>)
      returns (levels: seq<seq<G.Node>>)
    requires Sound(s, st) && At(s, st.at) == '<' && st.open < MAX_DEPTH && k <= |s| && At(s, k) == '>'
    requires G.HeadOk(h) && Has(s, st.at + 1, G.HeadText(h)) && k == st.at + 1 + |G.HeadText(h)|
    requires var r := Rest(s, G.LeafOf(h, None), k);
      r.Some? && !r.value.1 && Deep(st.root, st.open) && next == Marked(st, r.value)
    requires Parse(s, st) == Parse(s, next) && Tells(s, next, rest)
    ensures Tells(s, st, levels)
  {
    hide *;
    MarkedIs(st, Rest(s, G.LeafOf(h, None), k).value);
    NoValue(h);
    var v := ScanInner(s, G.LeafOf(h, None), k);
    LeafWith(h, G.ValueOf(v));
    StartText(s, st.at, h, v);
    levels := OpenTold(s, st, next, h, v, rest);
  }

  lemma MarkedIs(st: State, r: (Elem, bool, nat))
    requires Deep(st.root, st.open)
    ensures Marked(st, r) == State(r.2, Append(st.root, st.open, r.0), if r.1 then st.open else st.open + 1)
  {
  }

  lemma MarkIs(s: string, st: State)
    requires Sound(s, st) && st.at < |s| && Mark(s, st).Some?
    ensures Start(s, st.at + 1).Some? && st.open < MAX_DEPTH && Deep(st.root, st.open)
    ensures var (leaf, k) := Start(s, st.at + 1).value;
      k <= |s| && Rest(s, leaf, k).Some? && Mark(s, st) == Some(Marked(st, Rest(s, leaf, k).value))
  {
    hide Start, Rest, Append, Deep;
  }

  lemma NoValue(h: G.Head)
    ensures G.LeafOf(h, None).value == None && G.LeafOf(h, None).kids == []
  {
  }

  lemma LeafWith(h: G.Head, value: Option<string>)
    ensures G.LeafOf(h, None).(value := value) == G.LeafOf(h, value)
  {
  }

  lemma RestIs(s: string, leaf: Elem, k: nat)
    requires k <= |s| && Rest(s, leaf, k).Some? && !IsSpace(At(s, k))
    ensures var (x, closed, next) := Rest(s, leaf, k).value;
      if closed then x == leaf && next == k + 2 && At(s, k) == '/' && At(s, k + 1) == '>' else At(s, k) == '>'
  {
    NoGap(s, k);
    hide Value, Span, IsSpace;
  }

  lemma EmptyTold(s: string, st: State, h: G.Head, k: nat)
    requires Sound(s, st) && At(s, st.at) == '<' && At(s, st.at + 1) !in "?!/" && G.HeadOk(h)
    requires Has(s, st.at + 1, G.HeadText(h)) && k == st.at + 1 + |G.HeadText(h)|
    requires At(s, k) == '/' && At(s, k + 1) == '>'
    ensures G.NodeOk(G.Empty(h)) && Has(s, st.at, G.NodeText(G.Empty(h))) && |G.NodeText(G.Empty(h))| == k + 2 - st.at
  {
    EmptyApart(s, st.at, h);
    if h.name == "" && h.gap == "" { NoHead(h); }
    hide Has, G.HeadText;
  }

  lemma NoHead(h: G.Head)
    requires G.HeadOk(h) && h.name == "" && h.gap == ""
    ensures G.HeadText(h) == ""
  {
  }

  lemma StartText(s: string, i: nat, h: G.Head, v: G.Inner)
    requires At(s, i) == '<' && Has(s, i + 1, G.HeadText(h)) && At(s, i + 1 + |G.HeadText(h)|) == '>'
    requires Has(s, i + 2 + |G.HeadText(h)|, G.InnerText(v))
    ensures Has(s, i, "<" + G.HeadText(h) + ">" + G.InnerText(v))
  {
    hide Has, G.HeadText, G.InnerText;
    HasOne(s, i, '<');
    HasOne(s, i + 1 + |G.HeadText(h)|, '>');
    HasParts(s, i, "<", G.HeadText(h));
    HasParts(s, i, "<" + G.HeadText(h), ">");
    HasParts(s, i, "<" + G.HeadText(h) + ">", G.InnerText(v));
  }

  lemma OpenTold(s: string, st: State, next: State, h: G.Head, v: G.Inner, rest: seq<seq<G.Node>>)
      returns (levels: seq<seq<G.Node>>)
    requires Sound(s, st) && st.open < MAX_DEPTH && G.HeadOk(h) && G.InnerOk(v) && Deep(st.root, st.open)
    requires Has(s, st.at, "<" + G.HeadText(h) + ">" + G.InnerText(v))
    requires next == State(st.at + 2 + |G.HeadText(h)| + |G.InnerText(v)|,
      Append(st.root, st.open, G.LeafOf(h, G.ValueOf(v))), st.open + 1)
    requires Parse(s, st) == Parse(s, next) && Tells(s, next, rest)
    ensures Tells(s, st, levels)
  {
    hide Has, Parse, LevelsText, LevelsOk, Grown, G.HeadText, G.InnerText, G.HeadOk, G.InnerOk, G.LeafOf, Append, Deep;
    levels := OpenBefore(s, st.at, h, v, rest, st.root, st.open);
  }

  // ---------------------------------------------------------------- the language

  /** The root before anything is read. */
  function Bare(): Elem { Elem("", [], None, []) }

  function Reading(s: string): Option<Elem> { Parse(s, State(0, Bare(), 0)) }

  /** A text is read exactly when it is spelled by nodes that may be written, and whatever nodes spell it,
      the tree is the one they mean. */
  lemma ReadsTheGrammar(s: string)
    ensures Reading(s).Some? <==> exists nodes :: G.Spells(nodes, s)
    ensures forall nodes :: G.Spells(nodes, s) ==> Reading(s) == Some(Bare().(kids := G.MeaningOf(nodes)))
  {
    if Reading(s).Some? { var nodes := Spelling(s); }
    forall nodes | G.Spells(nodes, s) ensures Reading(s) == Some(Bare().(kids := G.MeaningOf(nodes))) {
      SpelledIsRead(s, nodes);
    }
  }

  lemma Spelling(s: string) returns (nodes: seq<G.Node>)
    requires Reading(s).Some?
    ensures G.Spells(nodes, s)
  {
    hide Parse, Has, G.NodesText, G.NodesOk, G.DepthOf;
    var levels := Recover(s, State(0, Bare(), 0));
    nodes := levels[0];
    LevelsApart(levels, Bare(), 0);
    TextAt(s, 0, G.NodesText(nodes));
  }

  lemma SpelledIsRead(s: string, nodes: seq<G.Node>)
    requires G.Spells(nodes, s)
    ensures Reading(s) == Some(Bare().(kids := G.MeaningOf(nodes)))
  {
    hide G.NodesText, G.NodesOk, G.DepthOf, G.MeaningOf;
    var n := |G.NodesText(nodes)|;
    NodesRead(s, 0, nodes, Bare(), 0);
    Chars('\0');
    NoGap(s, n);
    assert Bare().kids + G.MeaningOf(nodes) == G.MeaningOf(nodes);
  }

  /** Comments, version lines and white space between tags change nothing, and neither does the quote an
      attribute is written in, nor any other spelling of the same meaning. */
  lemma OnlyMeaning(s: string, nodes: seq<G.Node>, s': string, nodes': seq<G.Node>)
    requires G.Spells(nodes, s) && G.Spells(nodes', s') && G.MeaningOf(nodes) == G.MeaningOf(nodes')
    ensures Reading(s) == Reading(s')
  {
    SpelledIsRead(s, nodes);
    SpelledIsRead(s', nodes');
  }

  /** A comment, a version line or white space means nothing wherever it stands. */
  lemma {:induction false} NothingMeant(a: seq<G.Node>, n: G.Node, b: seq<G.Node>)
    requires !n.Empty? && !n.Full?
    ensures G.MeaningOf(a + [n] + b) == G.MeaningOf(a + b)
  {
    if a == [] {
      assert [] + [n] + b == [n] + b && [] + b == b && ([n] + b)[1..] == b;
    } else {
      NothingMeant(a[1..], n, b);
      assert (a + [n] + b)[1..] == a[1..] + [n] + b && (a + b)[1..] == a[1..] + b;
    }
  }

  /** An attribute means the same in either quote. */
  lemma {:induction false} EitherQuote(a: seq<G.Pair>, p: G.Pair, b: seq<G.Pair>, quote: char)
    ensures G.AttrsOf(a + [p.(quote := quote)] + b) == G.AttrsOf(a + [p] + b)
  {
    if a == [] {
      assert ([] + [p] + b)[1..] == b && ([] + [p.(quote := quote)] + b)[1..] == b;
    } else {
      EitherQuote(a[1..], p, b, quote);
      assert (a + [p] + b)[1..] == a[1..] + [p] + b;
      assert (a + [p.(quote := quote)] + b)[1..] == a[1..] + [p.(quote := quote)] + b;
    }
  }
}
