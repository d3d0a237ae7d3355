/** Reading what was printed gives the same trees back, in both layouts. */
module XmlTrip {
  import opened Records
  import opened Xml

  predicate GoodName(n: string) { n != "" && forall i :: 0 <= i < |n| ==> IsMark(n[i]) }

  /** An attribute value does not hold the quote it is printed in. */
  predicate GoodAttr(a: Attr) {
    GoodName(a.name) && forall i :: 0 <= i < |a.value| ==> a.value[i] != '"' && a.value[i] != '\0'
  }

  /** A value does not begin or end with white space, begin with a quote, or hold a bracket. */
  predicate GoodValue(v: string) {
    && v != "" && (forall i :: 0 <= i < |v| ==> v[i] != '<' && v[i] != '\0')
    && !IsSpace(v[0]) && !IsQuote(v[0]) && !IsSpace(v[|v| - 1])
  }

  predicate GoodHead(e: Elem) {
    GoodName(e.name) && (forall i :: 0 <= i < |e.attrs| ==> GoodAttr(e.attrs[i]))
      && (e.value.Some? ==> GoodValue(e.value.value))
  }

  predicate Good(e: Elem)
    decreases e
  {
    GoodHead(e) && GoodAll(e.kids)
  }

  predicate GoodAll(kids: seq<Elem>)
    decreases kids
  {
    kids == [] || (Good(kids[0]) && GoodAll(kids[1..]))
  }

  // ---------------------------------------------------------------- runs of characters

  lemma HasParts(s: string, i: nat, a: string, b: string)
    ensures Has(s, i, a + b) <==> Has(s, i, a) && Has(s, i + |a|, b)
  {
    if i + |a| + |b| <= |s| {
      var t := s[i..i + |a + b|];
      assert s[i..i + |a|] == t[..|a|] && s[i + |a|..i + |a| + |b|] == t[|a|..];
      assert (a + b)[..|a|] == a && (a + b)[|a|..] == b;
      assert s[i..i + |a|] + s[i + |a|..i + |a| + |b|] == t;
    }
  }

  lemma HasChar(s: string, i: nat, t: string, k: nat)
    requires Has(s, i, t) && k < |t|
    ensures At(s, i + k) == t[k] && i + k < |s|
  {
    assert s[i..i + |t|][k] == s[i + k];
  }

  lemma {:induction false} SpanIs(p: char -> bool, s: string, i: nat, j: nat)
    requires i <= j <= |s| && forall k :: i <= k < j ==> p(s[k])
    requires j == |s| || !p(s[j])
    ensures Span(p, s, i) == j
    decreases j - i
  {
    if i < j { SpanIs(p, s, i + 1, j); }
  }

  lemma {:induction false} FindIs(s: string, i: nat, border: char, j: nat)
    requires i <= j < |s| && s[j] == border
    requires forall k :: i <= k < j ==> s[k] != border && s[k] != '\0'
    ensures Find(s, i, border) == j
    decreases j - i
  {
    if i < j { FindIs(s, i + 1, border, j); }
  }

  lemma {:induction false} TrimIs(s: string, lo: nat, j: nat, hi: nat)
    requires lo < j <= hi <= |s| && !IsSpace(s[j - 1]) && forall k :: j <= k < hi ==> IsSpace(s[k])
    ensures TrimEnd(s, lo, hi) == j
    decreases hi - j
  {
    if j < hi { TrimIs(s, lo, j, hi - 1); }
  }

  /** A name and a character that ends it. */
  lemma NameIs(s: string, i: nat, name: string)
    requires GoodName(name) && Has(s, i, name) && !IsMark(At(s, i + |name|))
    ensures Span(IsMark, s, i) == i + |name| && s[i..i + |name|] == name && IsMark(At(s, i))
  {
    forall k | i <= k < i + |name| ensures IsMark(s[k]) { HasChar(s, i, name, k - i); }
    SpanIs(IsMark, s, i, i + |name|);
  }

  lemma NoSpace(s: string, i: nat)
    requires !IsSpace(At(s, i))
    ensures Span(IsSpace, s, i) == i
  {
  }

  // ---------------------------------------------------------------- attributes

  /** The text of the attributes, from the first name on, and something that is not a name after it. */
  lemma {:induction false} AttrsRead(s: string, i: nat, attrs: seq<Attr>)
    requires attrs != [] && forall k :: 0 <= k < |attrs| ==> GoodAttr(attrs[k])
    requires i > 0 && Has(s, i - 1, AttrsText(attrs))
    requires var after := At(s, i - 1 + |AttrsText(attrs)|); !IsSpace(after) && !IsMark(after)
    ensures Attrs(s, i) == Some((attrs, i - 1 + |AttrsText(attrs)|)) && IsMark(At(s, i)) && At(s, i - 1) == ' '
    decreases |attrs|
  {
    hide *;
    var a, more := attrs[0], attrs[1..];
    AttrsHead(attrs);
    HasParts(s, i - 1, AttrText(a), AttrsText(more));
    GoodAttrs(attrs);
    if more == [] {
      NoAttrs();
      AttrIs(s, i, a);
      LastAttr(s, i, a);
      assert [a] + more == [a];
    } else {
      AttrsStart(more, s, i - 1 + |AttrText(a)|);
      AttrsRead(s, i + |AttrText(a)|, more);
      AttrIs(s, i, a);
      MoreAttrs(s, i, a, more);
    }
    assert attrs == [a] + more;
  }

  lemma NoAttrs()
    ensures AttrsText([]) == ""
  {
  }

  lemma AttrsHead(attrs: seq<Attr>)
    requires attrs != []
    ensures AttrsText(attrs) == AttrText(attrs[0]) + AttrsText(attrs[1..])
  {
  }

  lemma GoodAttrs(attrs: seq<Attr>)
    requires attrs != [] && forall k :: 0 <= k < |attrs| ==> GoodAttr(attrs[k])
    ensures GoodAttr(attrs[0]) && forall k :: 0 <= k < |attrs[1..]| ==> GoodAttr(attrs[1..][k])
  {
  }

  lemma AttrsStart(attrs: seq<Attr>, s: string, i: nat)
    requires attrs != [] && Has(s, i, AttrsText(attrs))
    ensures At(s, i) == ' ' && i < |s|
  {
    HasChar(s, i, AttrsText(attrs), 0);
  }

  /** One attribute: where its name ends, where its quotes are. */
  lemma AttrIs(s: string, i: nat, a: Attr)
    requires i > 0 && Has(s, i - 1, AttrText(a)) && GoodAttr(a)
    ensures var n := i + |a.name|;
      var e := n + 2 + |a.value|;
      && At(s, i - 1) == ' ' && IsMark(At(s, i)) && i - 1 + |AttrText(a)| == e + 1 <= |s|
      && Span(IsMark, s, i) == n && s[i..n] == a.name && Span(IsSpace, s, n) == n && At(s, n) == '='
      && Span(IsSpace, s, n + 1) == n + 1 && At(s, n + 1) == '"'
      && Find(s, n + 2, '"') == e && At(s, e) == '"' && s[n + 2..e] == a.value
  {
    hide IsMark, IsSpace, Span, Find, Has, AttrText, GoodName, At;
    var n := i + |a.name|;
    var e := n + 2 + |a.value|;
    AttrParts(s, i, a);
    NotName();
    NameIs(s, i, a.name);
    NoSpace(s, n);
    NoSpace(s, n + 1);
    ValueIs(s, n + 2, a);
  }

  lemma AttrParts(s: string, i: nat, a: Attr)
    requires i > 0 && Has(s, i - 1, AttrText(a))
    ensures var n := i + |a.name|;
      var e := n + 2 + |a.value|;
      && At(s, i - 1) == ' ' && Has(s, i, a.name) && At(s, n) == '=' && At(s, n + 1) == '"' && Has(s, n + 2, a.value)
      && At(s, e) == '"' && |AttrText(a)| == e + 2 - i && e < |s|
  {
    var n := i + |a.name|;
    var e := n + 2 + |a.value|;
    hide Has, At;
    HasParts(s, i - 1, " " + a.name + "=\"" + a.value, "\"");
    HasParts(s, i - 1, " " + a.name + "=\"", a.value);
    HasParts(s, i - 1, " " + a.name, "=\"");
    HasParts(s, i - 1, " ", a.name);
    HasChar(s, i - 1, " ", 0);
    HasChar(s, n, "=\"", 0);
    HasChar(s, n, "=\"", 1);
    HasChar(s, e, "\"", 0);
  }

  lemma NotName()
    ensures !IsMark('=') && !IsSpace('=') && !IsSpace('"') && !IsMark('>') && !IsSpace('>') && !IsMark('/')
      && !IsSpace('/')
    ensures !IsMark(' ') && IsSpace(' ') && !IsSpace('<') && !IsMark('<') && IsSpace('\n') && IsSpace('\t')
  {
  }

  lemma ValueIs(s: string, i: nat, a: Attr)
    requires GoodAttr(a) && Has(s, i, a.value) && At(s, i + |a.value|) == '"' && i + |a.value| < |s|
    ensures Find(s, i, '"') == i + |a.value| && s[i..i + |a.value|] == a.value
  {
    forall k | i <= k < i + |a.value| ensures s[k] != '"' && s[k] != '\0' { HasChar(s, i, a.value, k - i); }
    FindIs(s, i, '"', i + |a.value|);
  }

  lemma OneSpace(s: string, j: nat)
    requires j > 0 && At(s, j - 1) == ' ' && IsMark(At(s, j)) && j <= |s|
    ensures Span(IsSpace, s, j - 1) == j
  {
    SpanIs(IsSpace, s, j - 1, j);
  }

  lemma LastAttr(s: string, i: nat, a: Attr)
    requires i > 0 && Has(s, i - 1, AttrText(a)) && GoodAttr(a)
    requires var after := At(s, i - 1 + |AttrText(a)|); !IsSpace(after) && !IsMark(after)
    ensures Attrs(s, i) == Some(([a], i - 1 + |AttrText(a)|))
  {
    hide AttrText, GoodAttr, IsSpace, IsMark, Has, Span, Find, At, GoodName;
    AttrIs(s, i, a);
    NoSpace(s, i - 1 + |AttrText(a)|);
  }

  lemma MoreAttrs(s: string, i: nat, a: Attr, more: seq<Attr>)
    requires i > 0 && Has(s, i - 1, AttrText(a)) && GoodAttr(a)
    requires var j := i + |AttrText(a)|;
      At(s, j - 1) == ' ' && IsMark(At(s, j)) && j <= |s| && Attrs(s, j).Some? && Attrs(s, j).value.0 == more
    ensures Attrs(s, i) == Some(([a] + more, Attrs(s, i + |AttrText(a)|).value.1))
  {
    hide AttrText, GoodAttr, IsSpace, IsMark, Has, Span, Find, At, GoodName;
    AttrIs(s, i, a);
    OneSpace(s, i + |AttrText(a)|);
  }

  // ---------------------------------------------------------------- start tags

  lemma StartRead(s: string, i: nat, name: string, attrs: seq<Attr>, k: nat)
    requires GoodName(name) && forall j :: 0 <= j < |attrs| ==> GoodAttr(attrs[j])
    requires Has(s, i, name) && Has(s, i + |name|, AttrsText(attrs)) && k == i + |name| + |AttrsText(attrs)|
    requires k < |s| && (At(s, k) == '/' || At(s, k) == '>')
    ensures Start(s, i) == Some((Elem(name, attrs, None, []), k))
  {
    hide Has, AttrsText, Attrs, Span, GoodName, GoodAttr, IsMark, IsSpace, At;
    NotName();
    var n := i + |name|;
    if attrs == [] {
      NoAttrs();
      NameIs(s, i, name);
      NoSpace(s, n);
    } else {
      AttrsRead(s, n + 1, attrs);
      NameIs(s, i, name);
      OneSpace(s, n + 1);
    }
  }

  /** From here on nothing but white space up to the bracket at `w`. */
  ghost predicate Blank(s: string, i: nat, w: nat) {
    i <= w < |s| && s[w] == '<' && forall k :: i <= k < w ==> IsSpace(s[k])
  }

  lemma BlankSpan(s: string, i: nat, w: nat)
    requires Blank(s, i, w)
    ensures Span(IsSpace, s, i) == w && At(s, w) == '<'
  {
    SpanIs(IsSpace, s, i, w);
  }

  lemma RestClosed(s: string, leaf: Elem, k: nat)
    requires Has(s, k, "/>")
    ensures Rest(s, leaf, k) == Some((leaf, true, k + 2))
  {
    HasChar(s, k, "/>", 0);
    HasChar(s, k, "/>", 1);
    NoSpace(s, k);
  }

  lemma RestParent(s: string, leaf: Elem, k: nat, w: nat)
    requires Has(s, k, ">") && Blank(s, k + 1, w)
    ensures Rest(s, leaf, k) == Some((leaf, false, w))
  {
    HasChar(s, k, ">", 0);
    NoSpace(s, k);
    BlankSpan(s, k + 1, w);
  }

  lemma RestValue(s: string, leaf: Elem, k: nat, v: string, w: nat)
    requires GoodValue(v) && Has(s, k, ">") && Has(s, k + 1, v) && Blank(s, k + 1 + |v|, w)
    ensures Rest(s, leaf, k) == Some((leaf.(value := Some(v)), false, w))
  {
    hide Has, Blank, GoodValue, Value, At;
    HasChar(s, k, ">", 0);
    NotName();
    NoSpace(s, k);
    ValueStarts(s, k + 1, v);
    NoSpace(s, k + 1);
    ValueRead(s, k + 1, v, w);
  }

  lemma ValueStarts(s: string, i: nat, v: string)
    requires GoodValue(v) && Has(s, i, v)
    ensures i < |s| && !IsSpace(At(s, i)) && !IsQuote(At(s, i)) && At(s, i) != '<'
  {
    HasChar(s, i, v, 0);
  }

  lemma ValueRead(s: string, i: nat, v: string, w: nat)
    requires GoodValue(v) && Has(s, i, v) && Blank(s, i + |v|, w)
    ensures Value(s, i) == Some((v, w))
  {
    hide Span, Find, TrimEnd, IsQuote, IsSpace;
    ValueStarts(s, i, v);
    NoSpace(s, i);
    ValueEnds(s, i, v, w);
  }

  lemma ValueEnds(s: string, i: nat, v: string, w: nat)
    requires GoodValue(v) && Has(s, i, v) && Blank(s, i + |v|, w)
    ensures Find(s, i, '<') == w && TrimEnd(s, i, w) == i + |v| && s[i..i + |v|] == v
  {
    forall k | i <= k < i + |v| ensures s[k] != '<' && s[k] != '\0' && (k == i + |v| - 1 ==> !IsSpace(s[k])) {
      HasChar(s, i, v, k - i);
    }
    FindIs(s, i, '<', w);
    TrimIs(s, i, i + |v|, w);
  }

  // ---------------------------------------------------------------- one step at a time

  /** Leading white space makes no difference. */
  lemma SkipOne(s: string, st: State)
    requires Sound(s, st) && st.at < |s| && IsSpace(s[st.at])
    ensures Parse(s, st) == Parse(s, st.(at := st.at + 1))
  {
    hide IsSpace, Round, Sound;
  }

  lemma {:induction false} SkipAll(s: string, st: State, j: nat)
    requires Sound(s, st) && st.at <= j <= |s| && forall k :: st.at <= k < j ==> IsSpace(s[k])
    ensures Parse(s, st) == Parse(s, st.(at := j))
    decreases j - st.at
  {
    hide IsSpace, Parse;
    if st.at < j {
      SkipOne(s, st);
      SkipAll(s, st.(at := st.at + 1), j);
    }
  }

  lemma AtBracket(s: string, st: State)
    requires Sound(s, st) && At(s, st.at) == '<' && st.at < |s|
    ensures Parse(s, st) == if Round(s, st).None? then None else Parse(s, Round(s, st).value)
  {
    NoSpace(s, st.at);
    hide Round;
  }

  lemma NameStarts(s: string, i: nat, name: string)
    requires GoodName(name) && Has(s, i, name)
    ensures At(s, i) != '?' && At(s, i) != '!' && At(s, i) != '/' && i < |s|
  {
    HasChar(s, i, name, 0);
  }

  /** A start tag, read at its bracket. */
  lemma StartStep(s: string, st: State, leaf: Elem, closed: bool, next: nat, name: string)
    requires Sound(s, st) && Has(s, st.at, "<") && GoodName(name) && Has(s, st.at + 1, name)
    requires st.open < MAX_DEPTH && Tag(s, st.at + 1) == Some((leaf, closed, next))
    ensures next <= |s| && leaf.kids == []
    ensures Deep(Append(st.root, st.open, leaf), st.open + 1)
    ensures Parse(s, st) == Parse(s, State(next, Append(st.root, st.open, leaf), if closed then st.open
      else st.open + 1))
  {
    hide Has, Parse, Tag, Append, GoodName, Deep;
    HasChar(s, st.at, "<", 0);
    NameStarts(s, st.at + 1, name);
    AtBracket(s, st);
  }

  /** An end tag. */
  lemma EndStep(s: string, st: State, name: string)
    requires Sound(s, st) && Has(s, st.at, "</") && GoodName(name) && Has(s, st.at + 2, name)
      && Has(s, st.at + 2 + |name|, ">")
    requires st.open > 0 && Top(st.root, st.open).name == name
    ensures Deep(st.root, st.open - 1)
    ensures Parse(s, st) == Parse(s, State(st.at + 3 + |name|, st.root, st.open - 1))
  {
    hide Has, Parse, GoodName, Deep, Top, IsMark;
    HasChar(s, st.at, "</", 0);
    HasChar(s, st.at, "</", 1);
    HasChar(s, st.at + 2 + |name|, ">", 0);
    NotName();
    NameIs(s, st.at + 2, name);
    DeepLess(st.root, st.open);
    AtBracket(s, st);
  }

  // ---------------------------------------------------------------- the parts of the text

  lemma TabsAre(style: Style, s: string, i: nat, d: nat)
    requires Has(s, i, Tabs(style, d))
    ensures i + |Tabs(style, d)| <= |s| && forall k :: i <= k < i + |Tabs(style, d)| ==> IsSpace(s[k])
  {
    forall k | i <= k < i + |Tabs(style, d)| ensures IsSpace(s[k]) { HasChar(s, i, Tabs(style, d), k - i); }
  }

  lemma EolIs(style: Style, s: string, i: nat)
    requires Has(s, i, Eol(style))
    ensures i + |Eol(style)| <= |s| && forall k :: i <= k < i + |Eol(style)| ==> IsSpace(s[k])
  {
    forall k | i <= k < i + |Eol(style)| ensures IsSpace(s[k]) { HasChar(s, i, Eol(style), k - i); }
  }

  lemma TextParts(style: Style, s: string, i: nat, e: Elem, d: nat)
    requires Has(s, i, Text(style, e, d))
    ensures var k := i + |HeadText(style, e, d)|;
      var t := k + |TextOf(style, e.kids, d + 1)|;
      && Has(s, i, HeadText(style, e, d)) && Has(s, k, TextOf(style, e.kids, d + 1)) && Has(s, t, TailText(style, e, d))
      && i + |Text(style, e, d)| == t + |TailText(style, e, d)|
  {
    hide Has, HeadText, TailText, TextOf;
    var h, m, t := HeadText(style, e, d), TextOf(style, e.kids, d + 1), TailText(style, e, d);
    HasParts(s, i, h + m, t);
    HasParts(s, i, h, m);
  }

  lemma HeadParts(style: Style, s: string, i: nat, e: Elem, d: nat)
    requires Has(s, i, HeadText(style, e, d))
    ensures var b := i + |Tabs(style, d)|;
      var n := b + 1 + |e.name|;
      var k := n + |AttrsText(e.attrs)|;
      var v := ValueText(style, e.name, e.value, e.kids != []);
      && Has(s, i, Tabs(style, d)) && Has(s, b, "<") && Has(s, b + 1, e.name) && Has(s, n, AttrsText(e.attrs))
         && Has(s, k, v)
      && i + |HeadText(style, e, d)| == k + |v|
  {
    hide Has, AttrsText, ValueText, Tabs;
    var v := ValueText(style, e.name, e.value, e.kids != []);
    HasParts(s, i, NameText(style, e.name, d) + AttrsText(e.attrs), v);
    HasParts(s, i, NameText(style, e.name, d), AttrsText(e.attrs));
    HasParts(s, i, Tabs(style, d) + "<", e.name);
    HasParts(s, i, Tabs(style, d), "<");
  }

  lemma EndParts(style: Style, s: string, i: nat, name: string, d: nat)
    requires Has(s, i, EndText(style, name, d))
    ensures var b := i + |Tabs(style, d)|;
      && Has(s, i, Tabs(style, d)) && Has(s, b, "</") && Has(s, b + 2, name) && Has(s, b + 2 + |name|, ">")
      && Has(s, b + 3 + |name|, Eol(style)) && i + |EndText(style, name, d)| == b + 3 + |name| + |Eol(style)|
  {
    hide Has, Tabs, Eol;
    HasParts(s, i, Tabs(style, d) + "</" + name + ">", Eol(style));
    HasParts(s, i, Tabs(style, d) + "</" + name, ">");
    HasParts(s, i, Tabs(style, d) + "</", name);
    HasParts(s, i, Tabs(style, d), "</");
  }

  lemma ClosedParts(style: Style, s: string, k: nat, name: string)
    requires Has(s, k, ValueText(style, name, None, false))
    ensures Has(s, k, "/>") && Has(s, k + 2, Eol(style)) && |ValueText(style, name, None, false)| == 2 + |Eol(style)|
  {
    HasParts(s, k, "/>", Eol(style));
  }

  lemma LeafParts(style: Style, s: string, k: nat, name: string, v: string)
    requires Has(s, k, ValueText(style, name, Some(v), false))
    ensures var w := k + 1 + |v|;
      && Has(s, k, ">") && Has(s, k + 1, v) && Has(s, w, "</") && Has(s, w + 2, name) && Has(s, w + 2 + |name|, ">")
      && Has(s, w + 3 + |name|, Eol(style)) && |ValueText(style, name, Some(v), false)|
         == 4 + |v| + |name| + |Eol(style)|
  {
    hide Has, Eol;
    HasParts(s, k, ">" + v + "</" + name + ">", Eol(style));
    HasParts(s, k, ">" + v + "</" + name, ">");
    HasParts(s, k, ">" + v + "</", name);
    HasParts(s, k, ">" + v, "</");
    HasParts(s, k, ">", v);
  }

  lemma ParentParts(style: Style, s: string, k: nat, name: string, value: Option<string>)
    requires Has(s, k, ValueText(style, name, value, true))
    ensures var v := if value.Some? then value.value else "";
      && Has(s, k, ">") && Has(s, k + 1, v) && Has(s, k + 1 + |v|, Eol(style))
      && |ValueText(style, name, value, true)| == 1 + |v| + |Eol(style)|
  {
    hide Has, Eol;
    var v := if value.Some? then value.value else "";
    assert ValueText(style, name, value, true) == ">" + v + Eol(style);
    HasParts(s, k, ">" + v, Eol(style));
    HasParts(s, k, ">", v);
  }

  /** The first bracket of the children, and nothing but white space before it. */
  lemma KidsStart(style: Style, s: string, i: nat, kids: seq<Elem>, d: nat) returns (w: nat)
    requires kids != [] && Has(s, i, TextOf(style, kids, d))
    ensures Blank(s, i, w)
  {
    hide *;
    KidsParts(style, s, i, kids, d);
    TextParts(style, s, i, kids[0], d);
    HeadParts(style, s, i, kids[0], d);
    TabsAre(style, s, i, d);
    w := i + |Tabs(style, d)|;
    HasChar(s, w, "<", 0);
    BlankIs(s, i, w);
  }

  lemma BlankIs(s: string, i: nat, w: nat)
    requires i <= w < |s| && At(s, w) == '<' && forall k :: i <= k < w ==> IsSpace(s[k])
    ensures Blank(s, i, w)
  {
  }

  lemma BlankMore(s: string, i: nat, j: nat, w: nat)
    requires i <= j <= |s| && Blank(s, j, w) && forall k :: i <= k < j ==> IsSpace(s[k])
    ensures Blank(s, i, w)
  {
  }

  lemma BlankSkips(s: string, st: State, w: nat)
    requires Sound(s, st) && Blank(s, st.at, w)
    ensures w <= |s| && Parse(s, st) == Parse(s, st.(at := w))
  {
    hide IsSpace, Parse;
    SkipAll(s, st, w);
  }

  lemma KidsParts(style: Style, s: string, i: nat, kids: seq<Elem>, d: nat)
    requires kids != [] && Has(s, i, TextOf(style, kids, d))
    ensures Has(s, i, Text(style, kids[0], d)) && Has(s, i + |Text(style, kids[0], d)|, TextOf(style, kids[1..], d))
    ensures |TextOf(style, kids, d)| == |Text(style, kids[0], d)| + |TextOf(style, kids[1..], d)|
  {
    hide Has, Text;
    HasParts(s, i, Text(style, kids[0], d), TextOf(style, kids[1..], d));
  }

  lemma GoodParts(e: Elem)
    requires Good(e)
    ensures GoodName(e.name) && (forall k :: 0 <= k < |e.attrs| ==> GoodAttr(e.attrs[k]))
      && (e.value.Some? ==> GoodValue(e.value.value))
    ensures GoodAll(e.kids)
  {
  }

  // ---------------------------------------------------------------- the trip

  /** The start tag of any element, with what its bracket leads to. */
  lemma HeadRead(style: Style, s: string, i: nat, e: Elem, d: nat, root: Elem, open: nat, closed: bool, next: nat,
      leaf: Elem)
    requires Sound(s, State(i, root, open)) && open < MAX_DEPTH && GoodHead(e) && Has(s, i, HeadText(style, e, d))
    requires var k := i + |Tabs(style, d)| + 1 + |e.name| + |AttrsText(e.attrs)|;
      k < |s| && (At(s, k) == '/' || At(s, k) == '>') && Rest(s, Elem(e.name, e.attrs, None, []), k)
        == Some((leaf, closed, next))
    ensures Deep(Append(root, open, leaf), open + 1) && next <= |s| && leaf.kids == []
    ensures Parse(s, State(i, root, open)) == Parse(s, State(next, Append(root, open, leaf), if closed then open
      else open + 1))
  {
    hide Has, Parse, Rest, Start, HeadText, Append, AttrsText, Tabs, Deep, At, GoodName, GoodAttr, GoodValue, IsSpace;
    HeadParts(style, s, i, e, d);
    TabsAre(style, s, i, d);
    var b := i + |Tabs(style, d)|;
    SkipAll(s, State(i, root, open), b);
    StartRead(s, b + 1, e.name, e.attrs, b + 1 + |e.name| + |AttrsText(e.attrs)|);
    StartStep(s, State(b, root, open), leaf, closed, next, e.name);
  }

  /** An element without value or children. */
  lemma EmptyRead(style: Style, s: string, i: nat, e: Elem, d: nat, root: Elem, open: nat)
    requires Sound(s, State(i, root, open)) && open < MAX_DEPTH && GoodHead(e)
    requires e.kids == [] && e.value == None && Has(s, i, HeadText(style, e, d))
    ensures var j := i + |HeadText(style, e, d)|;
      Sound(s, State(j, Append(root, open, e), open))
      && Parse(s, State(i, root, open)) == Parse(s, State(j, Append(root, open, e), open))
  {
    hide Has, Parse, Rest, HeadText, Append, AttrsText, Tabs, Deep, At, GoodHead, ValueText, Eol, IsSpace;
    var k := i + |Tabs(style, d)| + 1 + |e.name| + |AttrsText(e.attrs)|;
    HeadParts(style, s, i, e, d);
    ClosedParts(style, s, k, e.name);
    HasChar(s, k, "/>", 0);
    RestClosed(s, e, k);
    HeadRead(style, s, i, e, d, root, open, true, k + 2, e);
    EolIs(style, s, k + 2);
    SkipAll(s, State(k + 2, Append(root, open, e), open), k + 2 + |Eol(style)|);
  }

  /** An element with a value and no children. */
  lemma LeafRead(style: Style, s: string, i: nat, e: Elem, d: nat, root: Elem, open: nat)
    requires Sound(s, State(i, root, open)) && open < MAX_DEPTH && GoodHead(e)
    requires e.kids == [] && e.value.Some? && Has(s, i, HeadText(style, e, d))
    ensures var j := i + |HeadText(style, e, d)|;
      Sound(s, State(j, Append(root, open, e), open))
      && Parse(s, State(i, root, open)) == Parse(s, State(j, Append(root, open, e), open))
  {
    hide Has, Parse, Rest, HeadText, Append, AttrsText, Tabs, Deep, At, GoodName, GoodAttr, GoodValue, ValueText, Eol,
      IsSpace, Blank, Top;
    var k, v := i + |Tabs(style, d)| + 1 + |e.name| + |AttrsText(e.attrs)|, e.value.value;
    var w := k + 1 + |v|;
    HeadParts(style, s, i, e, d);
    LeafParts(style, s, k, e.name, v);
    HasChar(s, k, ">", 0);
    HasChar(s, w, "</", 0);
    BlankIs(s, w, w);
    RestValue(s, Elem(e.name, e.attrs, None, []), k, v, w);
    HeadRead(style, s, i, e, d, root, open, false, w, e);
    var root' := Append(root, open, e);
    EndStep(s, State(w, root', open + 1), e.name);
    EolIs(style, s, w + 3 + |e.name|);
    SkipAll(s, State(w + 3 + |e.name|, root', open), w + 3 + |e.name| + |Eol(style)|);
  }

  /** The start of an element with children: it is open, and its text goes on at them. */
  lemma ParentRead(style: Style, s: string, i: nat, e: Elem, d: nat, root: Elem, open: nat)
    requires Sound(s, State(i, root, open)) && open < MAX_DEPTH && GoodHead(e)
    requires e.kids != [] && Has(s, i, HeadText(style, e, d))
      && Has(s, i + |HeadText(style, e, d)|, TextOf(style, e.kids, d + 1))
    ensures var j, leaf := i + |HeadText(style, e, d)|, e.(kids := []);
      Sound(s, State(j, Append(root, open, leaf), open + 1))
      && Parse(s, State(i, root, open)) == Parse(s, State(j, Append(root, open, leaf), open + 1))
  {
    hide Has, Parse, Rest, HeadText, TextOf, Append, AttrsText, Tabs, Deep, At, GoodName, GoodAttr, GoodValue,
      ValueText, Eol, IsSpace, Blank, Top;
    var j, leaf := i + |HeadText(style, e, d)|, e.(kids := []);
    var k := i + |Tabs(style, d)| + 1 + |e.name| + |AttrsText(e.attrs)|;
    var v := if e.value.Some? then e.value.value else "";
    HeadParts(style, s, i, e, d);
    ParentParts(style, s, k, e.name, e.value);
    HasChar(s, k, ">", 0);
    var w := KidsStart(style, s, j, e.kids, d + 1);
    EolIs(style, s, k + 1 + |v|);
    BlankMore(s, k + 1 + |v|, j, w);
    if e.value.Some? {
      RestValue(s, Elem(e.name, e.attrs, None, []), k, v, w);
    } else {
      RestParent(s, leaf, k, w);
    }
    HeadRead(style, s, i, e, d, root, open, false, w, leaf);
    HasSome(s, j, style, e.kids, d + 1);
    BlankSkips(s, State(j, Append(root, open, leaf), open + 1), w);
  }

  lemma HasSome(s: string, i: nat, style: Style, kids: seq<Elem>, d: nat)
    requires Has(s, i, TextOf(style, kids, d))
    ensures i <= |s|
  {
  }

  /** The end tag of an element with children. */
  lemma TailRead(style: Style, s: string, i: nat, e: Elem, d: nat, root: Elem, open: nat)
    requires Sound(s, State(i, root, open + 1)) && Top(root, open + 1) == e && GoodName(e.name)
    requires e.kids != [] && Has(s, i, TailText(style, e, d))
    ensures var j := i + |TailText(style, e, d)|;
      Sound(s, State(j, root, open)) && Parse(s, State(i, root, open + 1)) == Parse(s, State(j, root, open))
  {
    hide Has, Parse, EndText, Tabs, Deep, At, GoodName, Eol, IsSpace, Top;
    var b := i + |Tabs(style, d)|;
    EndParts(style, s, i, e.name, d);
    TabsAre(style, s, i, d);
    SkipAll(s, State(i, root, open + 1), b);
    EndStep(s, State(b, root, open + 1), e.name);
    EolIs(style, s, b + 3 + |e.name|);
    SkipAll(s, State(b + 3 + |e.name|, root, open), b + 3 + |e.name| + |Eol(style)|);
  }

  lemma NoKids(style: Style, e: Elem, d: nat)
    requires e.kids == []
    ensures TextOf(style, e.kids, d + 1) == "" && TailText(style, e, d) == ""
  {
  }

  lemma HeightIs(e: Elem)
    ensures Height(e) == 1 + HeightOf(e.kids) >= 1
  {
  }

  lemma KidsHeight(kids: seq<Elem>)
    requires kids != []
    ensures Height(kids[0]) <= HeightOf(kids) && HeightOf(kids[1..]) <= HeightOf(kids)
  {
  }

  /** Reading the text of an element appends the element. */
  lemma {:induction false} ElemRead(style: Style, s: string, i: nat, e: Elem, d: nat, root: Elem, open: nat)
    requires Sound(s, State(i, root, open)) && Good(e) && open + Height(e) <= MAX_DEPTH
    requires Has(s, i, Text(style, e, d))
    ensures var j := i + |Text(style, e, d)|;
      Sound(s, State(j, Append(root, open, e), open))
      && Parse(s, State(i, root, open)) == Parse(s, State(j, Append(root, open, e), open))
    decreases e, 1
  {
    hide Has, Parse, Text, TextOf, HeadText, TailText, Append, Deep, Top, Height, HeightOf, GoodHead;
    TextParts(style, s, i, e, d);
    HeightIs(e);
    if e.kids == [] {
      NoKids(style, e, d);
      if e.value.Some? {
        LeafRead(style, s, i, e, d, root, open);
      } else {
        EmptyRead(style, s, i, e, d, root, open);
      }
    } else {
      var leaf, k := e.(kids := []), i + |HeadText(style, e, d)|;
      ParentRead(style, s, i, e, d, root, open);
      KidsRead(style, s, k, e.kids, d + 1, root, open, leaf);
      assert leaf.(kids := leaf.kids + e.kids) == e;
      GoodParts(e);
      TailRead(style, s, k + |TextOf(style, e.kids, d + 1)|, e, d, Append(root, open, e), open);
    }
  }

  lemma {:induction false} KidsRead(style: Style, s: string, i: nat, kids: seq<Elem>, d: nat, root: Elem, open: nat,
      x: Elem)
    requires Deep(root, open) && Sound(s, State(i, Append(root, open, x), open + 1))
    requires GoodAll(kids) && open + 1 + HeightOf(kids) <= MAX_DEPTH && Has(s, i, TextOf(style, kids, d))
    ensures var j, y := i + |TextOf(style, kids, d)|, x.(kids := x.kids + kids);
      Sound(s, State(j, Append(root, open, y), open + 1))
      && Parse(s, State(i, Append(root, open, x), open + 1)) == Parse(s, State(j, Append(root, open, y), open + 1))
    decreases kids, 0
  {
    hide Has, Parse, Text, Append, Deep, Top, Height, HeightOf, Good;
    if kids == [] {
      assert x.kids + kids == x.kids;
    } else {
      var x' := x.(kids := x.kids + [kids[0]]);
      KidsParts(style, s, i, kids, d);
      KidsHeight(kids);
      hide TextOf;
      ElemRead(style, s, i, kids[0], d, Append(root, open, x), open + 1);
      AppendTwice(root, open, x, kids[0]);
      KidsRead(style, s, i + |Text(style, kids[0], d)|, kids[1..], d, root, open, x');
      assert x'.kids + kids[1..] == x.kids + kids;
    }
  }

  /** Printing the children of a root and reading the result gives the same children back. */
  lemma ParseOfText(style: Style, kids: seq<Elem>, root: Elem)
    requires GoodAll(kids) && HeightOf(kids) <= MAX_DEPTH && root.kids == []
    ensures Parse(TextOf(style, kids, 1), State(0, root, 0)) == Some(root.(kids := kids))
  {
    hide Parse, TextOf, GoodAll, HeightOf;
    ParseOfAll(style, TextOf(style, kids, 1), 0, kids, root);
    assert root.(kids := root.kids + kids) == root.(kids := kids);
  }

  lemma AtTheEnd(s: string, root: Elem)
    ensures Parse(s, State(|s|, root, 0)) == Some(root)
  {
  }

  lemma AppendFirst(root: Elem, e: Elem)
    ensures Append(root, 0, e) == root.(kids := root.kids + [e])
  {
  }

  lemma {:induction false} ParseOfAll(style: Style, s: string, i: nat, kids: seq<Elem>, root: Elem)
    requires GoodAll(kids) && HeightOf(kids) <= MAX_DEPTH && i <= |s| && Has(s, i, TextOf(style, kids, 1))
    requires i + |TextOf(style, kids, 1)| == |s|
    ensures Parse(s, State(i, root, 0)) == Some(root.(kids := root.kids + kids))
    decreases |kids|
  {
    hide Has, Text, Height, HeightOf, Good, Parse;
    if kids == [] {
      assert root.kids + kids == root.kids;
      AtTheEnd(s, root);
    } else {
      var root' := root.(kids := root.kids + [kids[0]]);
      KidsParts(style, s, i, kids, 1);
      KidsHeight(kids);
      hide TextOf;
      ElemRead(style, s, i, kids[0], 1, root, 0);
      AppendFirst(root, kids[0]);
      ParseOfAll(style, s, i + |Text(style, kids[0], 1)|, kids[1..], root');
      assert root'.kids + kids[1..] == root.kids + kids;
    }
  }

  /** So no two forests of such trees are printed alike, even in different layouts. */
  lemma TextIsUnique(style: Style, kids: seq<Elem>, style': Style, kids': seq<Elem>)
    requires GoodAll(kids) && HeightOf(kids) <= MAX_DEPTH && GoodAll(kids') && HeightOf(kids') <= MAX_DEPTH
    requires TextOf(style, kids, 1) == TextOf(style', kids', 1)
    ensures kids == kids'
  {
    hide *;
    var root := Elem("", [], None, []);
    ParseOfText(style, kids, root);
    ParseOfText(style', kids', root);
  }
}
