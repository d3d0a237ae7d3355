/** The XML trees of `xml_tree.h` as values, the text they are printed as, and the reading of a text. */
module Xml {
  import opened Records

  /** `XML_MAX_DEPTH`, the size of the stack the tree is walked with. */
  const MAX_DEPTH: nat := 32

  datatype Attr = Attr(name: string, value: string)

  datatype Elem = Elem(name: string, attrs: seq<Attr>, value: Option<string>, kids: seq<Elem>)

  function Height(e: Elem): (h: nat)
    ensures h >= 1
    decreases e
  {
    1 + HeightOf(e.kids)
  }

  function HeightOf(kids: seq<Elem>): (h: nat)
    ensures forall k :: 0 <= k < |kids| ==> Height(kids[k]) <= h
    decreases kids
  {
    if kids == [] then 0 else
      var h := Height(kids[0]);
      var rest := HeightOf(kids[1..]);
      assert forall k :: 1 <= k < |kids| ==> kids[k] == kids[1..][k - 1];
      if h > rest then h else rest
  }

  // ---------------------------------------------------------------- printed text

  /** `xml_pack_tree` prints without layout, `xml_sprint_tree` with tabs and line ends. */
  datatype Style = Packed | Laid

  function Eol(style: Style): string { if style == Laid then "\n" else "" }

  function Tabs(style: Style, depth: nat): string {
    if style == Laid && depth > 1 then seq(depth - 1, i => '\t') else ""
  }

  function AttrText(a: Attr): string { " " + a.name + "=\"" + a.value + "\"" }

  function AttrsText(attrs: seq<Attr>): string {
    if attrs == [] then "" else AttrText(attrs[0]) + AttrsText(attrs[1..])
  }

  function NameText(style: Style, name: string, depth: nat): string { Tabs(style, depth) + "<" + name }

  /** What follows the attributes. */
  function ValueText(style: Style, name: string, value: Option<string>, parent: bool): string {
    match value
    case Some(v) => if parent then ">" + v + Eol(style) else ">" + v + "</" + name + ">" + Eol(style)
    case None => if parent then ">" + Eol(style) else "/>" + Eol(style)
  }

  function EndText(style: Style, name: string, depth: nat): string {
    Tabs(style, depth) + "</" + name + ">" + Eol(style)
  }

  function HeadText(style: Style, e: Elem, depth: nat): string {
    NameText(style, e.name, depth) + AttrsText(e.attrs) + ValueText(style, e.name, e.value, e.kids != [])
  }

  function TailText(style: Style, e: Elem, depth: nat): string {
    if e.kids != [] then EndText(style, e.name, depth) else ""
  }

  function Text(style: Style, e: Elem, depth: nat): string
    decreases e
  {
    HeadText(style, e, depth) + TextOf(style, e.kids, depth + 1) + TailText(style, e, depth)
  }

  function TextOf(style: Style, kids: seq<Elem>, depth: nat): string
    decreases kids
  {
    if kids == [] then "" else Text(style, kids[0], depth) + TextOf(style, kids[1..], depth)
  }

  // ---------------------------------------------------------------- characters

  predicate IsSpace(c: char) { c == ' ' || '\t' <= c <= '\r' }

  predicate IsMark(c: char) {
    'a' <= c <= 'z' || 'A' <= c <= 'Z' || '0' <= c <= '9' || c == '_' || c == '-' || c == ':'
  }

  predicate IsBorder(c: char) { IsSpace(c) || c == '/' || c == '>' }

  predicate IsQuote(c: char) { c == '"' || c == '\'' }

  /** The character at place `i` of a string that ends with a zero. */
  function At(s: string, i: nat): char { if i < |s| then s[i] else '\0' }

  /** Where the run of such characters from place `i` ends. */
  function Span(p: char -> bool, s: string, i: nat): (j: nat)
    ensures i <= j && (i <= |s| ==> j <= |s|)
    decreases |s| - i
  {
    if i < |s| && p(s[i]) then Span(p, s, i + 1) else i
  }

  /** Where the border or the end of the string comes. */
  function Find(s: string, i: nat, border: char): (j: nat)
    ensures i <= j && (i <= |s| ==> j <= |s|)
    decreases |s| - i
  {
    if At(s, i) == '\0' || At(s, i) == border then i else Find(s, i + 1, border)
  }

  /** `hi` without the white space before it. */
  function TrimEnd(s: string, lo: nat, hi: nat): (j: nat)
    requires lo <= hi <= |s|
    ensures lo <= j <= hi
    decreases hi
  {
    if hi > lo && IsSpace(s[hi - 1]) then TrimEnd(s, lo, hi - 1) else hi
  }

  // ---------------------------------------------------------------- trees under construction

  /** The last elements from the root down: the ones that can be open. */
  predicate Deep(r: Elem, d: nat)
    decreases d
  {
    d == 0 || (r.kids != [] && Deep(r.kids[|r.kids| - 1], d - 1))
  }

  function Top(r: Elem, d: nat): Elem
    requires Deep(r, d)
    decreases d
  {
    if d == 0 then r else Top(r.kids[|r.kids| - 1], d - 1)
  }

  /** `e` as a new last child of the open element at depth `d`. */
  function Append(r: Elem, d: nat, e: Elem): (r': Elem)
    requires Deep(r, d)
    ensures Deep(r', d + 1) && Deep(r', d) && Top(r', d + 1) == e
    decreases d
  {
    if d == 0 then r.(kids := r.kids + [e]) else
      var n := |r.kids| - 1;
      r.(kids := r.kids[..n] + [Append(r.kids[n], d - 1, e)])
  }

  lemma {:induction false} AppendTwice(r: Elem, d: nat, x: Elem, y: Elem)
    requires Deep(r, d)
    ensures Append(Append(r, d, x), d + 1, y) == Append(r, d, x.(kids := x.kids + [y]))
    decreases d
  {
    var n := |r.kids|;
    if d == 0 {
      assert (r.kids + [x])[..n] == r.kids;
      assert Append(x, 0, y) == x.(kids := x.kids + [y]);
    } else {
      AppendTwice(r.kids[n - 1], d - 1, x, y);
      assert (r.kids[..n - 1] + [Append(r.kids[n - 1], d - 1, x)])[..n - 1] == r.kids[..n - 1];
    }
  }

  // ---------------------------------------------------------------- reading

  /** One attribute from place `i`, and the place after it and its white space. */
  function OneAttr(s: string, i: nat): (r: Option<(Attr, nat)>)
    requires i <= |s|
    ensures r.Some? ==> i < r.value.1 <= |s|
  {
    var n := Span(IsMark, s, i);
    var eq := Span(IsSpace, s, n);
    if At(s, eq) != '=' then None else
      var q := Span(IsSpace, s, eq + 1);
      if !IsQuote(At(s, q)) then None else
        var e := Find(s, q + 1, At(s, q));
        if At(s, e) != At(s, q) then None else Some((Attr(s[i..n], s[q + 1..e]), Span(IsSpace, s, e + 1)))
  }

  /** Attributes from place `i`, where a name starts. */
  function Attrs(s: string, i: nat): (r: Option<(seq<Attr>, nat)>)
    requires i <= |s|
    ensures r.Some? ==> i < r.value.1 <= |s|
    decreases |s| - i
  {
    match OneAttr(s, i)
    case None => None
    case Some((a, next)) =>
      if IsMark(At(s, next)) then
        match Attrs(s, next)
        case None => None
        case Some((more, j)) => Some(([a] + more, j))
      else Some(([a], next))
  }

  /** A value from place `i`, and the place of the bracket after it. */
  function Value(s: string, i: nat): (r: Option<(string, nat)>)
    requires i <= |s|
    ensures r.Some? ==> i <= r.value.1 < |s|
  {
    var p := Span(IsSpace, s, i);
    var border := if IsQuote(At(s, p)) then At(s, p) else '<';
    var start := if IsQuote(At(s, p)) then p + 1 else p;
    var e := Find(s, start, border);
    if At(s, e) == '<' then Some((s[start..TrimEnd(s, start, e)], e))
    else if At(s, e) == '\0' then None
    else
      var next := Span(IsSpace, s, e + 1);
      if At(s, next) != '<' then None else Some((s[start..e], next))
  }

  /** The name and the attributes of a start tag after its bracket, and the place after them. */
  function Start(s: string, i: nat): (r: Option<(Elem, nat)>)
    requires i <= |s|
    ensures r.Some? ==> i <= r.value.1 <= |s| && r.value.0.kids == []
  {
    var n := Span(IsMark, s, i);
    if !IsBorder(At(s, n)) then None else
      var a := Span(IsSpace, s, n);
      match (if IsMark(At(s, a)) then Attrs(s, a) else Some(([], a)))
      case None => None
      case Some((attrs, k)) => Some((Elem(s[i..n], attrs, None, []), k))
  }

  /** The rest of the tag: the element, whether it is closed already, and the place after it. */
  function Rest(s: string, leaf: Elem, k: nat): (r: Option<(Elem, bool, nat)>)
    requires k <= |s|
    ensures r.Some? ==> k <= r.value.2 <= |s| && r.value.0.kids == leaf.kids
  {
    var c := Span(IsSpace, s, k);
    if At(s, c) == '/' && At(s, c + 1) == '>' then Some((leaf, true, k + 2))
    else if At(s, c) != '>' then None
    else
      var v := Span(IsSpace, s, c + 1);
      if At(s, v) == '<' then Some((leaf, false, v))
      else
        match Value(s, v)
        case None => None
        case Some((value, next)) => Some((leaf.(value := Some(value)), false, next))
  }

  function Tag(s: string, i: nat): (r: Option<(Elem, bool, nat)>)
    requires i <= |s|
    ensures r.Some? ==> i <= r.value.2 <= |s| && r.value.0.kids == []
  {
    match Start(s, i)
    case None => None
    case Some((leaf, k)) => Rest(s, leaf, k)
  }

  /** Between two steps: the place, the tree so far, and how many elements are open. */
  datatype State = State(at: nat, root: Elem, open: nat)

  predicate Sound(s: string, st: State) { st.at <= |s| && st.open <= MAX_DEPTH && Deep(st.root, st.open) }

  function Mark(s: string, st: State): (r: Option<State>)
    requires Sound(s, st) && st.at < |s|
    ensures r.Some? ==> Sound(s, r.value) && st.at < r.value.at
  {
    match Tag(s, st.at + 1)
    case None => None
    case Some((leaf, closed, next)) =>
      if st.open >= MAX_DEPTH then None
      else Some(State(next, Append(st.root, st.open, leaf), if closed then st.open else st.open + 1))
  }

  lemma {:induction false} DeepLess(r: Elem, d: nat)
    requires Deep(r, d) && d > 0
    ensures Deep(r, d - 1)
    decreases d
  {
    if d > 1 { DeepLess(r.kids[|r.kids| - 1], d - 1); }
  }

  function End(s: string, st: State): (r: Option<State>)
    requires Sound(s, st) && st.at + 2 <= |s|
    ensures r.Some? ==> Sound(s, r.value) && st.at < r.value.at
  {
    var n := Span(IsMark, s, st.at + 2);
    if At(s, n) != '>' || st.open == 0 || Top(st.root, st.open).name != s[st.at + 2..n] then None
    else
      DeepLess(st.root, st.open);
      Some(State(n + 1, st.root, st.open - 1))
  }

  predicate Has(s: string, i: nat, t: string) { i + |t| <= |s| && s[i..i + |t|] == t }

  /** The pairs of a version line, up to its question mark. */
  function VersionPairs(s: string, i: nat): (r: Option<nat>)
    requires i <= |s|
    ensures r.Some? ==> i <= r.value <= |s|
    decreases |s| - i
  {
    if At(s, i) == '?' || At(s, i) == '\0' then Some(i) else
      var n := Span(IsMark, s, i);
      if n == i || At(s, n) != '=' then None else
        var q := Span(IsSpace, s, n + 1);
        if !IsQuote(At(s, q)) then None else
          var e := Find(s, q + 1, At(s, q));
          if At(s, e) != At(s, q) then None else VersionPairs(s, Span(IsSpace, s, e + 1))
  }

  function Version(s: string, i: nat): (r: Option<nat>)
    requires i <= |s|
    ensures r.Some? ==> i < r.value <= |s|
  {
    if !Has(s, i, "<?xml ") then None else
      match VersionPairs(s, Span(IsSpace, s, i + 6))
      case None => None
      case Some(j) => if At(s, j) == '?' && At(s, j + 1) == '>' then Some(j + 2) else None
  }

  /** The first `--` from place `i` on, or the end of the string. */
  function Dashes(s: string, i: nat): (j: nat)
    requires i <= |s|
    ensures i <= j <= |s|
    decreases |s| - i
  {
    if At(s, i) == '\0' || (At(s, i) == '-' && At(s, i + 1) == '-') then i else Dashes(s, i + 1)
  }

  function Note(s: string, i: nat): (r: Option<nat>)
    requires i <= |s|
    ensures r.Some? ==> i < r.value <= |s|
  {
    if !Has(s, i, "<!--") then None else
      var j := Dashes(s, i + 4);
      if At(s, j) == '-' && At(s, j + 2) == '>' then Some(j + 3) else None
  }

  function Moved(st: State, r: Option<nat>): Option<State> {
    match r case None => None case Some(at) => Some(st.(at := at))
  }

  /** What one round of the main loop does at a bracket. */
  function Round(s: string, st: State): (r: Option<State>)
    requires Sound(s, st) && At(s, st.at) == '<' && st.at < |s|
    ensures r.Some? ==> Sound(s, r.value) && st.at < r.value.at
  {
    match At(s, st.at + 1)
    case '?' => Moved(st, Version(s, st.at))
    case '!' => Moved(st, Note(s, st.at))
    case '/' => End(s, st)
    case _ => Mark(s, st)
  }

  /** The tree a text is read as, if it is read. */
  function Parse(s: string, st: State): (r: Option<Elem>)
    requires Sound(s, st)
    decreases |s| - st.at
  {
    var k := Span(IsSpace, s, st.at);
    if At(s, k) == '<' then
      match Round(s, st.(at := k))
      case None => None
      case Some(next) => Parse(s, next)
    else if At(s, k) == '\0' && st.open == 0 then Some(st.root)
    else None
  }
}
