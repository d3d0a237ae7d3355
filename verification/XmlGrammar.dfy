/** The texts the parser of `xml_comm.c` is for, as a grammar: what may be written, how it is spelled, and what it
    means. Nothing here reads a text. */
module XmlGrammar {
  import opened Records
  import Xml

  // ---------------------------------------------------------------- characters

  const LETTERS := "abcdefghijklmnopqrstuvwxyz"
  const CAPITALS := "ABCDEFGHIJKLMNOPQRSTUVWXYZ"
  const DIGITS := "0123456789"

  predicate NameChar(c: char) { c in LETTERS || c in CAPITALS || c in DIGITS || c in "_-:" }

  predicate BlankChar(c: char) { c == ' ' || c == '\t' || c == '\n' || c == '\U{0B}' || c == '\U{0C}' || c == '\r' }

  predicate Quote(c: char) { c == '"' || c == '\'' }

  predicate Name(n: string) { forall i :: 0 <= i < |n| ==> NameChar(n[i]) }

  predicate Blank(w: string) { forall i :: 0 <= i < |w| ==> BlankChar(w[i]) }

  /** Text without the character `c`, or an end of the string. */
  predicate Without(t: string, c: char) { forall i :: 0 <= i < |t| ==> t[i] != c && t[i] != '\0' }

  // ---------------------------------------------------------------- what may be written

  /** A name and a value in quotes, and the white space around the sign between them and behind. */
  datatype Pair = Pair(name: string, gap1: string, gap2: string, quote: char, value: string, gap3: string)

  /** The name of an element and its attributes. */
  datatype Head = Head(name: string, gap: string, pairs: seq<Pair>)

  /** What stands before the first element inside another. */
  datatype Inner = Nothing(gap: string)
    | Plain(gap: string, text: string, after: string)
    | Quoted(gap: string, quote: char, text: string, after: string)

  datatype Node = Space(w: string)
    | Comment(body: string)
    | Version(gap: string, pairs: seq<Pair>)
    | Empty(head: Head)
    | Full(head: Head, inner: Inner, nodes: seq<Node>)

  predicate PairOk(p: Pair) {
    && p.name != "" && Name(p.name) && Blank(p.gap1) && Blank(p.gap2) && Blank(p.gap3)
    && Quote(p.quote) && Without(p.value, p.quote)
  }

  predicate PairsOk(pairs: seq<Pair>) { forall k :: 0 <= k < |pairs| ==> PairOk(pairs[k]) }

  /** White space before the attributes, if there are any. */
  predicate HeadOk(h: Head) {
    Name(h.name) && Blank(h.gap) && PairsOk(h.pairs) && (h.pairs != [] ==> h.gap != "")
  }

  predicate InnerOk(v: Inner) {
    && Blank(v.gap)
    && match v
       case Nothing(_) => true
       case Plain(_, text, after) =>
         && text != "" && Without(text, '<') && Blank(after)
         && !BlankChar(text[0]) && !Quote(text[0]) && !BlankChar(text[|text| - 1])
       case Quoted(_, quote, text, after) => Quote(quote) && Without(text, quote) && Blank(after)
  }

  /** No two dashes in a row before those that end it. */
  predicate CommentOk(body: string) {
    forall k :: 0 <= k < |body| ==> body[k] != '\0' && !(body[k] == '-' && (body + "-")[k + 1] == '-')
  }

  predicate NodeOk(n: Node)
    decreases n
  {
    match n
    case Space(w) => Blank(w)
    case Comment(body) => CommentOk(body)
    case Version(gap, pairs) => Blank(gap) && PairsOk(pairs) && forall k :: 0 <= k < |pairs| ==> pairs[k].gap1 == ""
    case Empty(head) => HeadOk(head) && (head.name != "" || head.gap != "")
    case Full(head, inner, nodes) => HeadOk(head) && InnerOk(inner) && NodesOk(nodes)
  }

  predicate NodesOk(nodes: seq<Node>)
    decreases nodes
  {
    nodes == [] || (NodeOk(nodes[0]) && NodesOk(nodes[1..]))
  }

  /** How deep elements are nested. */
  function Depth(n: Node): nat
    decreases n
  {
    match n
    case Empty(_) => 1
    case Full(_, _, nodes) => 1 + DepthOf(nodes)
    case _ => 0
  }

  function DepthOf(nodes: seq<Node>): nat
    decreases nodes
  {
    if nodes == [] then 0
    else if Depth(nodes[0]) > DepthOf(nodes[1..]) then Depth(nodes[0]) else DepthOf(nodes[1..])
  }

  // ---------------------------------------------------------------- how it is spelled

  function PairText(p: Pair): string {
    p.name + p.gap1 + "=" + p.gap2 + [p.quote] + p.value + [p.quote] + p.gap3
  }

  function PairsText(pairs: seq<Pair>): string {
    if pairs == [] then "" else PairText(pairs[0]) + PairsText(pairs[1..])
  }

  function HeadText(h: Head): string { h.name + h.gap + PairsText(h.pairs) }

  function InnerText(v: Inner): string {
    match v
    case Nothing(gap) => gap
    case Plain(gap, text, after) => gap + text + after
    case Quoted(gap, quote, text, after) => gap + [quote] + text + [quote] + after
  }

  function NodeText(n: Node): string
    decreases n
  {
    match n
    case Space(w) => w
    case Comment(body) => "<!--" + body + "-->"
    case Version(gap, pairs) => "<?xml " + gap + PairsText(pairs) + "?>"
    case Empty(head) => "<" + HeadText(head) + "/>"
    case Full(head, inner, nodes) =>
      "<" + HeadText(head) + ">" + InnerText(inner) + NodesText(nodes) + "</" + head.name + ">"
  }

  function NodesText(nodes: seq<Node>): string
    decreases nodes
  {
    if nodes == [] then "" else NodeText(nodes[0]) + NodesText(nodes[1..])
  }

  // ---------------------------------------------------------------- what it means

  function AttrsOf(pairs: seq<Pair>): seq<Xml.Attr> {
    if pairs == [] then [] else [Xml.Attr(pairs[0].name, pairs[0].value)] + AttrsOf(pairs[1..])
  }

  function ValueOf(v: Inner): Option<string> { if v.Nothing? then None else Some(v.text) }

  function LeafOf(h: Head, value: Option<string>): Xml.Elem { Xml.Elem(h.name, AttrsOf(h.pairs), value, []) }

  function Meaning(n: Node): seq<Xml.Elem>
    decreases n
  {
    match n
    case Empty(head) => [LeafOf(head, None)]
    case Full(head, inner, nodes) => [LeafOf(head, ValueOf(inner)).(kids := MeaningOf(nodes))]
    case _ => []
  }

  function MeaningOf(nodes: seq<Node>): seq<Xml.Elem>
    decreases nodes
  {
    if nodes == [] then [] else Meaning(nodes[0]) + MeaningOf(nodes[1..])
  }

  /** The string, up to its end or the zero in it, is these nodes as they may be written. */
  ghost predicate Spells(nodes: seq<Node>, s: string) {
    && NodesOk(nodes) && DepthOf(nodes) <= Xml.MAX_DEPTH
    && var n := |NodesText(nodes)|;
       n <= |s| && s[..n] == NodesText(nodes) && (n == |s| || s[n] == '\0')
  }
}
