/** What the scanning of `xml_comm.c` finds, against the grammar: each piece of a tag is read exactly when it is
    spelled. */
module XmlTokens {
  import opened Records
  import opened Xml
  import opened XmlTrip
  import G = XmlGrammar

  // ---------------------------------------------------------------- characters

  lemma InRow(row: string, first: char, c: char)
    requires 0 < |row| && forall k :: 0 <= k < |row| ==> row[k] as int == first as int + k
    ensures c in row <==> first as int <= c as int < first as int + |row|
  {
    if first as int <= c as int < first as int + |row| { assert row[c as int - first as int] == c; }
  }

  lemma SmallRow()
    ensures |G.LETTERS| == 26 && forall k :: 0 <= k < 26 ==> G.LETTERS[k] as int == 'a' as int + k
  {
  }

  lemma CapitalRow()
    ensures |G.CAPITALS| == 26 && forall k :: 0 <= k < 26 ==> G.CAPITALS[k] as int == 'A' as int + k
  {
  }

  lemma DigitRow()
    ensures |G.DIGITS| == 10 && forall k :: 0 <= k < 10 ==> G.DIGITS[k] as int == '0' as int + k
  {
  }

  /** The tests of the code on one character. */
  lemma Chars(c: char)
    ensures IsMark(c) <==> G.NameChar(c)
    ensures IsSpace(c) <==> G.BlankChar(c)
    ensures IsQuote(c) <==> G.Quote(c)
    ensures IsMark(c) ==> !IsSpace(c) && !IsQuote(c) && c !in "<>/?!=" && c != '\0'
    ensures IsSpace(c) ==> !IsQuote(c) && c !in "<>/?!=" && c != '\0'
  {
    SmallRow();
    CapitalRow();
    DigitRow();
    InRow(G.LETTERS, 'a', c);
    InRow(G.CAPITALS, 'A', c);
    InRow(G.DIGITS, '0', c);
  }

  lemma BlankMeans(w: string)
    ensures G.Blank(w) <==> forall k :: 0 <= k < |w| ==> IsSpace(w[k])
  {
    forall k | 0 <= k < |w| ensures IsSpace(w[k]) <==> G.BlankChar(w[k]) { Chars(w[k]); }
  }

  lemma NameOk(n: string)
    ensures G.Name(n) <==> forall k :: 0 <= k < |n| ==> IsMark(n[k])
  {
    forall k | 0 <= k < |n| ensures IsMark(n[k]) <==> G.NameChar(n[k]) { Chars(n[k]); }
  }

  // ---------------------------------------------------------------- what a scan tells

  lemma {:induction false} SpanTells(p: char -> bool, s: string, i: nat)
    requires i <= |s|
    ensures var j := Span(p, s, i); i <= j <= |s| && (forall k :: i <= k < j ==> p(s[k])) && (j < |s| ==> !p(s[j]))
    decreases |s| - i
  {
    if i < |s| && p(s[i]) { SpanTells(p, s, i + 1); }
  }

  lemma {:induction false} FindTells(s: string, i: nat, border: char)
    requires i <= |s|
    ensures var j := Find(s, i, border);
      && i <= j <= |s|
      && (forall k :: i <= k < j ==> s[k] != border && s[k] != '\0') && (At(s, j) == border || At(s, j) == '\0')
    decreases |s| - i
  {
    if At(s, i) != '\0' && At(s, i) != border { FindTells(s, i + 1, border); }
  }

  lemma {:induction false} TrimTells(s: string, lo: nat, hi: nat)
    requires lo <= hi <= |s|
    ensures var j := TrimEnd(s, lo, hi);
      && lo <= j <= hi
      && (forall k :: j <= k < hi ==> IsSpace(s[k])) && (j > lo ==> !IsSpace(s[j - 1]))
    decreases hi
  {
    if hi > lo && IsSpace(s[hi - 1]) { TrimTells(s, lo, hi - 1); }
  }

  lemma {:induction false} DashesTell(s: string, i: nat)
    requires i <= |s|
    ensures var j := Dashes(s, i);
      && i <= j <= |s|
      && (forall k :: i <= k < j ==> s[k] != '\0' && !(s[k] == '-' && At(s, k + 1) == '-'))
      && (At(s, j) == '\0' || (At(s, j) == '-' && At(s, j + 1) == '-'))
    decreases |s| - i
  {
    if At(s, i) != '\0' && !(At(s, i) == '-' && At(s, i + 1) == '-') { DashesTell(s, i + 1); }
  }

  lemma {:induction false} DashesAre(s: string, i: nat, j: nat)
    requires i <= j < |s| && s[j] == '-' && At(s, j + 1) == '-'
    requires forall k :: i <= k < j ==> s[k] != '\0' && !(s[k] == '-' && At(s, k + 1) == '-')
    ensures Dashes(s, i) == j
    decreases j - i
  {
    if i < j { DashesAre(s, i + 1, j); }
  }

  /** A stretch of white space, spelled and scanned. */
  lemma BlankScan(s: string, i: nat, w: string)
    requires G.Blank(w) && Has(s, i, w) && !IsSpace(At(s, i + |w|))
    ensures Span(IsSpace, s, i) == i + |w|
  {
    BlankMeans(w);
    forall k | i <= k < i + |w| ensures IsSpace(s[k]) { HasChar(s, i, w, k - i); }
    SpanIs(IsSpace, s, i, i + |w|);
  }

  lemma ScanBlank(s: string, i: nat) returns (w: string)
    requires i <= |s|
    ensures var j := Span(IsSpace, s, i);
      i <= j <= |s| && w == s[i..j] && G.Blank(w) && Has(s, i, w) && !IsSpace(At(s, j))
  {
    SpanTells(IsSpace, s, i);
    w := s[i..Span(IsSpace, s, i)];
    BlankMeans(w);
  }

  lemma NameScan(s: string, i: nat, n: string)
    requires G.Name(n) && Has(s, i, n) && !IsMark(At(s, i + |n|))
    ensures Span(IsMark, s, i) == i + |n| && s[i..i + |n|] == n
    ensures n != "" ==> IsMark(At(s, i)) && !IsSpace(At(s, i))
  {
    NameOk(n);
    forall k | i <= k < i + |n| ensures IsMark(s[k]) { HasChar(s, i, n, k - i); }
    SpanIs(IsMark, s, i, i + |n|);
    Chars(At(s, i));
  }

  lemma ScanName(s: string, i: nat) returns (n: string)
    requires i <= |s|
    ensures var j := Span(IsMark, s, i); i <= j <= |s| && n == s[i..j] && G.Name(n) && Has(s, i, n) && !IsMark(At(s, j))
    ensures n == "" <==> !IsMark(At(s, i))
  {
    SpanTells(IsMark, s, i);
    n := s[i..Span(IsMark, s, i)];
    NameOk(n);
  }

  lemma TextScan(s: string, i: nat, t: string, c: char)
    requires G.Without(t, c) && Has(s, i, t) && i + |t| < |s| && s[i + |t|] == c
    ensures Find(s, i, c) == i + |t|
  {
    forall k | i <= k < i + |t| ensures s[k] != c && s[k] != '\0' { HasChar(s, i, t, k - i); }
    FindIs(s, i, c, i + |t|);
  }

  lemma ScanText(s: string, i: nat, c: char) returns (t: string)
    requires i <= |s|
    ensures var j := Find(s, i, c);
      && i <= j <= |s| && t == s[i..j] && G.Without(t, c) && Has(s, i, t)
      && (At(s, j) == c || At(s, j) == '\0')
  {
    FindTells(s, i, c);
    t := s[i..Find(s, i, c)];
  }

  lemma HasOne(s: string, i: nat, c: char)
    requires c != '\0'
    ensures Has(s, i, [c]) <==> At(s, i) == c
  {
    if i < |s| { assert s[i..i + 1] == [s[i]]; }
  }

  lemma HasChars(s: string, i: nat, t: string)
    requires Has(s, i, t) && t != ""
    ensures At(s, i) == t[0] && At(s, i + |t| - 1) == t[|t| - 1]
  {
    HasChar(s, i, t, 0);
    HasChar(s, i, t, |t| - 1);
  }

  /** White space, or the character behind it when there is none. */
  lemma BlankOr(s: string, i: nat, w: string, c: char)
    requires G.Blank(w) && Has(s, i, w) && At(s, i + |w|) == c
    ensures At(s, i) == c || IsSpace(At(s, i))
  {
    BlankMeans(w);
    if w != "" { HasChars(s, i, w); }
  }

  // ---------------------------------------------------------------- attributes

  predicate Tight(pairs: seq<G.Pair>) { forall k :: 0 <= k < |pairs| ==> pairs[k].gap1 == "" }

  predicate PairAt(s: string, i: nat, p: G.Pair) {
    var i1 := i + |p.name|;
    var i2 := i1 + |p.gap1|;
    var i3 := i2 + 1 + |p.gap2|;
    var i4 := i3 + 1 + |p.value|;
    && Has(s, i, p.name) && Has(s, i1, p.gap1) && Has(s, i2, "=") && Has(s, i2 + 1, p.gap2) && Has(s, i3, [p.quote])
    && Has(s, i3 + 1, p.value) && Has(s, i4, [p.quote]) && Has(s, i4 + 1, p.gap3)
  }

  lemma PairIs(s: string, i: nat, p: G.Pair)
    ensures Has(s, i, G.PairText(p)) <==> PairAt(s, i, p)
  {
    hide Has;
    var a1 := p.name + p.gap1;
    var a2 := a1 + "=";
    var a3 := a2 + p.gap2;
    var a4 := a3 + [p.quote];
    var a5 := a4 + p.value;
    var a6 := a5 + [p.quote];
    HasParts(s, i, p.name, p.gap1);
    HasParts(s, i, a1, "=");
    HasParts(s, i, a2, p.gap2);
    HasParts(s, i, a3, [p.quote]);
    HasParts(s, i, a4, p.value);
    HasParts(s, i, a5, [p.quote]);
    HasParts(s, i, a6, p.gap3);
  }

  lemma PairLength(p: G.Pair)
    ensures |G.PairText(p)| == |p.name| + |p.gap1| + |p.gap2| + |p.value| + |p.gap3| + 3
  {
  }

  /** What stands behind the sign: white space, a quote, the value, the quote, white space. */
  predicate QuotedAt(s: string, i: nat, gap: string, quote: char, value: string, after: string) {
    var q := i + |gap|;
    var e := q + 1 + |value|;
    && Has(s, i, gap) && Has(s, q, [quote]) && Has(s, q + 1, value) && Has(s, e, [quote]) && Has(s, e + 1, after)
  }

  predicate QuotedOk(gap: string, quote: char, value: string, after: string) {
    G.Blank(gap) && G.Quote(quote) && G.Without(value, quote) && G.Blank(after)
  }

  lemma QuotedRead(s: string, i: nat, gap: string, quote: char, value: string, after: string)
    requires QuotedAt(s, i, gap, quote, value, after) && QuotedOk(gap, quote, value, after)
    requires !IsSpace(At(s, i + |gap| + |value| + |after| + 2))
    ensures var q := i + |gap|;
      && Span(IsSpace, s, i) == q && At(s, q) == quote && IsQuote(quote) && quote != '\0'
      && Find(s, q + 1, quote) == q + 1 + |value| && At(s, q + 1 + |value|) == quote
      && q + 1 + |value| < |s| && s[q + 1..q + 1 + |value|] == value
      && Span(IsSpace, s, q + 2 + |value|) == q + 2 + |value| + |after| <= |s|
  {
    hide G.Blank, G.Without, Has, IsSpace, IsQuote, Span, Find;
    var q := i + |gap|;
    var e := q + 1 + |value|;
    Chars(quote);
    HasOne(s, q, quote);
    HasOne(s, e, quote);
    BlankScan(s, i, gap);
    TextScan(s, q + 1, value, quote);
    TextAt(s, q + 1, value);
    TextAt(s, e + 1, after);
    BlankScan(s, e + 1, after);
  }

  lemma ScanQuoted(s: string, i: nat) returns (gap: string, quote: char, value: string, after: string)
    requires i <= |s|
    requires var q := Span(IsSpace, s, i);
      IsQuote(At(s, q)) && At(s, Find(s, q + 1, At(s, q))) == At(s, q)
    ensures QuotedAt(s, i, gap, quote, value, after) && QuotedOk(gap, quote, value, after)
    ensures var q := Span(IsSpace, s, i);
      && q == i + |gap| < |s| && quote == At(s, q) && Find(s, q + 1, quote) == q + 1 + |value| < |s|
      && s[q + 1..q + 1 + |value|] == value && Span(IsSpace, s, q + 2 + |value|) == q + 2 + |value| + |after| <= |s|
      && !IsSpace(At(s, q + 2 + |value| + |after|))
  {
    hide G.Blank, G.Without, Has, IsSpace, IsQuote, Span, Find;
    gap := ScanBlank(s, i);
    var q := Span(IsSpace, s, i);
    quote := At(s, q);
    Chars(quote);
    value := ScanText(s, q + 1, quote);
    var e := Find(s, q + 1, quote);
    after := ScanBlank(s, e + 1);
    HasOne(s, q, quote);
    HasOne(s, e, quote);
  }

  lemma PairQuoted(s: string, i: nat, p: G.Pair)
    ensures var i1 := i + |p.name|;
      var i2 := i1 + |p.gap1|;
      PairAt(s, i, p) <==>
        Has(s, i, p.name) && Has(s, i1, p.gap1) && Has(s, i2, "=")
        && QuotedAt(s, i2 + 1, p.gap2, p.quote, p.value, p.gap3)
    ensures G.PairOk(p) <==>
      p.name != "" && G.Name(p.name) && G.Blank(p.gap1)
      && QuotedOk(p.gap2, p.quote, p.value, p.gap3)
  {
    hide Has, G.Name, G.Blank, G.Without;
  }

  lemma PairRead(s: string, i: nat, p: G.Pair)
    requires i <= |s| && G.PairOk(p) && Has(s, i, G.PairText(p)) && !IsSpace(At(s, i + |G.PairText(p)|))
    ensures OneAttr(s, i) == Some((Attr(p.name, p.value), i + |G.PairText(p)|)) && IsMark(At(s, i))
    ensures p.gap1 == "" ==> At(s, i + |p.name|) == '=' && Span(IsMark, s, i) == i + |p.name|
  {
    PairIs(s, i, p);
    PairLength(p);
    PairQuoted(s, i, p);
    var i1 := i + |p.name|;
    var i2 := i1 + |p.gap1|;
    hide G.Name, G.Blank, Has, IsMark, IsSpace, IsQuote, Span, Find, G.PairText, G.PairOk, PairAt, QuotedAt, QuotedOk;
    HasOne(s, i2, '=');
    Chars('=');
    BlankOr(s, i1, p.gap1, '=');
    Chars(At(s, i1));
    NameScan(s, i, p.name);
    BlankScan(s, i1, p.gap1);
    QuotedRead(s, i2 + 1, p.gap2, p.quote, p.value, p.gap3);
  }

  lemma TextAt(s: string, i: nat, t: string)
    requires Has(s, i, t)
    ensures i + |t| <= |s| && s[i..i + |t|] == t
  {
  }

  lemma ScanPair(s: string, i: nat) returns (p: G.Pair)
    requires i <= |s| && OneAttr(s, i).Some? && IsMark(At(s, i))
    ensures G.PairOk(p) && Has(s, i, G.PairText(p))
    ensures OneAttr(s, i) == Some((Attr(p.name, p.value), i + |G.PairText(p)|))
    ensures !IsSpace(At(s, i + |G.PairText(p)|)) && (At(s, i + |p.name|) == '=' ==> p.gap1 == "")
  {
    hide G.Name, G.Blank, Has, IsMark, IsSpace, IsQuote, Span, Find, G.PairText, G.PairOk, PairAt, QuotedAt, QuotedOk;
    var name := ScanName(s, i);
    var n := Span(IsMark, s, i);
    var gap1 := ScanBlank(s, n);
    var eq := Span(IsSpace, s, n);
    Chars('=');
    HasOne(s, eq, '=');
    var gap2, quote, value, gap3 := ScanQuoted(s, eq + 1);
    p := G.Pair(name, gap1, gap2, quote, value, gap3);
    PairQuoted(s, i, p);
    PairLength(p);
    PairIs(s, i, p);
    if At(s, n) == '=' { NoGap(s, n); }
  }

  lemma NoGap(s: string, i: nat)
    requires i <= |s| && !IsSpace(At(s, i))
    ensures Span(IsSpace, s, i) == i
  {
  }

  lemma AttrsStep(s: string, i: nat, a: Attr, j: nat)
    requires i <= |s| && OneAttr(s, i) == Some((a, j))
    ensures !IsMark(At(s, j)) ==> Attrs(s, i) == Some(([a], j))
    ensures IsMark(At(s, j)) ==> j <= |s| && (Attrs(s, i).Some? <==> Attrs(s, j).Some?)
    ensures IsMark(At(s, j)) && Attrs(s, i).Some? ==>
      Attrs(s, i) == Some(([a] + Attrs(s, j).value.0, Attrs(s, j).value.1))
  {
    hide OneAttr, IsMark;
  }

  lemma PairsSplit(p: G.Pair, rest: seq<G.Pair>)
    ensures G.PairsText([p] + rest) == G.PairText(p) + G.PairsText(rest)
    ensures G.AttrsOf([p] + rest) == [Attr(p.name, p.value)] + G.AttrsOf(rest)
    ensures G.PairsOk([p] + rest) <==> G.PairOk(p) && G.PairsOk(rest)
    ensures |G.PairsText([p] + rest)| == |G.PairText(p)| + |G.PairsText(rest)|
    ensures rest == [] ==> G.PairsText([p] + rest) == G.PairText(p) && G.AttrsOf([p] + rest) == [Attr(p.name, p.value)]
  {
    hide G.PairText, G.PairOk;
    assert ([p] + rest)[1..] == rest;
    forall k | 0 <= k < |rest| ensures ([p] + rest)[k + 1] == rest[k] {}
    assert G.PairsOk([p] + rest) ==> G.PairOk(([p] + rest)[0]);
    if rest == [] { NoPairs(); }
  }

  lemma NoPairs()
    ensures G.PairsText([]) == "" && G.AttrsOf([]) == [] && G.PairsOk([])
  {
  }

  /** A run of attributes, and something behind it that is no name. */
  lemma {:induction false} PairsRead(s: string, i: nat, pairs: seq<G.Pair>)
    requires i <= |s| && pairs != [] && G.PairsOk(pairs) && Has(s, i, G.PairsText(pairs))
    requires var c := At(s, i + |G.PairsText(pairs)|); !IsSpace(c) && !IsMark(c)
    ensures Attrs(s, i) == Some((G.AttrsOf(pairs), i + |G.PairsText(pairs)|)) && IsMark(At(s, i))
    decreases |pairs|
  {
    hide Has, OneAttr, Attrs, IsMark, IsSpace, G.PairText, G.PairOk, G.PairsText, G.PairsOk, G.AttrsOf;
    var p, rest := pairs[0], pairs[1..];
    var j, end := i + |G.PairText(p)|, i + |G.PairsText(pairs)|;
    PairsApart(s, i, p, rest, pairs);
    if rest == [] {
      PairRead(s, i, p);
    } else {
      PairsRead(s, j, rest);
      Chars(At(s, j));
      PairRead(s, i, p);
    }
    AttrsStep(s, i, Attr(p.name, p.value), j);
  }

  lemma PairsApart(s: string, i: nat, p: G.Pair, rest: seq<G.Pair>, pairs: seq<G.Pair>)
    requires pairs == [p] + rest && G.PairsOk(pairs) && Has(s, i, G.PairsText(pairs))
    ensures G.PairOk(p) && G.PairsOk(rest) && Has(s, i, G.PairText(p))
    ensures var j := i + |G.PairText(p)|; j <= |s| && Has(s, j, G.PairsText(rest))
    ensures |G.PairsText(pairs)| == |G.PairText(p)| + |G.PairsText(rest)|
    ensures G.AttrsOf(pairs) == [Attr(p.name, p.value)] + G.AttrsOf(rest)
    ensures rest == [] ==> |G.PairsText(rest)| == 0 && G.AttrsOf(pairs) == [Attr(p.name, p.value)]
  {
    hide Has, G.PairText, G.PairOk, G.PairsText, G.PairsOk, G.AttrsOf;
    PairsSplit(p, rest);
    HasParts(s, i, G.PairText(p), G.PairsText(rest));
    TextAt(s, i, G.PairText(p));
    NoPairs();
  }

  lemma {:induction false} ScanPairs(s: string, i: nat) returns (pairs: seq<G.Pair>)
    requires i <= |s| && IsMark(At(s, i)) && Attrs(s, i).Some?
    ensures pairs != [] && G.PairsOk(pairs) && Has(s, i, G.PairsText(pairs))
    ensures Attrs(s, i) == Some((G.AttrsOf(pairs), i + |G.PairsText(pairs)|))
    ensures !IsSpace(At(s, i + |G.PairsText(pairs)|)) && i + |G.PairsText(pairs)| <= |s|
    decreases |s| - i
  {
    hide Has, OneAttr, IsMark, IsSpace, G.PairText, G.PairOk, G.PairsText, G.PairsOk, G.AttrsOf;
    assert OneAttr(s, i).Some?;
    hide Attrs;
    var p := ScanPair(s, i);
    var j := i + |G.PairText(p)|;
    TextAt(s, i, G.PairText(p));
    PairLength(p);
    AttrsStep(s, i, Attr(p.name, p.value), j);
    var rest: seq<G.Pair> := [];
    if IsMark(At(s, j)) {
      rest := ScanPairs(s, j);
    } else {
      HasNothing(s, j);
      NoPairs();
    }
    pairs := [p] + rest;
    PairsTogether(s, i, p, rest);
  }

  lemma PairsTogether(s: string, i: nat, p: G.Pair, rest: seq<G.Pair>)
    requires G.PairOk(p) && Has(s, i, G.PairText(p))
    requires G.PairsOk(rest) && Has(s, i + |G.PairText(p)|, G.PairsText(rest))
    ensures G.PairsOk([p] + rest) && Has(s, i, G.PairsText([p] + rest))
    ensures |G.PairsText([p] + rest)| == |G.PairText(p)| + |G.PairsText(rest)|
    ensures G.AttrsOf([p] + rest) == [Attr(p.name, p.value)] + G.AttrsOf(rest)
    ensures rest == [] ==> G.AttrsOf([p] + rest) == [Attr(p.name, p.value)]
    ensures Tight(rest) && p.gap1 == "" ==> Tight([p] + rest)
  {
    hide Has, G.PairText, G.PairOk, G.PairsText, G.PairsOk, G.AttrsOf;
    PairsSplit(p, rest);
    HasParts(s, i, G.PairText(p), G.PairsText(rest));
  }

  lemma HasNothing(s: string, i: nat)
    requires i <= |s|
    ensures Has(s, i, "")
  {
  }

  // ---------------------------------------------------------------- start tags

  lemma HeadApart(s: string, i: nat, h: G.Head)
    ensures Has(s, i, G.HeadText(h)) <==>
      Has(s, i, h.name) && Has(s, i + |h.name|, h.gap) && Has(s, i + |h.name| + |h.gap|, G.PairsText(h.pairs))
    ensures |G.HeadText(h)| == |h.name| + |h.gap| + |G.PairsText(h.pairs)|
  {
    hide Has, G.PairsText;
    HasParts(s, i, h.name, h.gap);
    HasParts(s, i, h.name + h.gap, G.PairsText(h.pairs));
  }

  lemma Borders(c: char)
    ensures IsSpace(c) || c == '/' || c == '>' <==> IsBorder(c)
    ensures IsBorder(c) ==> !IsMark(c)
    ensures c == '/' || c == '>' ==> !IsSpace(c)
  {
    Chars(c);
  }

  /** What comes after the name of an element: white space from `n` on, attributes from `a` on, and the end
      at `k`. */
  lemma AfterName(s: string, n: nat, gap: string, pairs: seq<G.Pair>, k: nat)
    requires G.Blank(gap) && G.PairsOk(pairs) && (pairs != [] ==> gap != "") && Has(s, n, gap)
    requires Has(s, n + |gap|, G.PairsText(pairs)) && k == n + |gap| + |G.PairsText(pairs)|
    requires At(s, k) == '/' || At(s, k) == '>'
    ensures IsBorder(At(s, n)) && !IsSpace(At(s, n + |gap|))
    ensures n + |gap| <= |s| && (IsMark(At(s, n + |gap|)) <==> pairs != [])
    ensures pairs != [] ==> Attrs(s, n + |gap|) == Some((G.AttrsOf(pairs), k))
  {
    hide Has, IsBorder, IsMark, IsSpace, Attrs, G.PairsText, G.PairsOk, G.Blank, G.AttrsOf;
    var a := n + |gap|;
    Borders(At(s, k));
    Borders(At(s, n));
    TextAt(s, n, gap);
    if pairs != [] {
      PairsRead(s, a, pairs);
      Chars(At(s, a));
      FirstBlank(s, n, gap);
    } else {
      NoPairs();
      if gap != "" { FirstBlank(s, n, gap); }
    }
  }

  lemma FirstBlank(s: string, i: nat, w: string)
    requires G.Blank(w) && Has(s, i, w) && w != ""
    ensures IsSpace(At(s, i))
  {
    HasChars(s, i, w);
    BlankMeans(w);
  }

  lemma HeadScan(s: string, i: nat, h: G.Head)
    requires i <= |s| && G.HeadOk(h) && Has(s, i, G.HeadText(h))
    requires At(s, i + |G.HeadText(h)|) == '/' || At(s, i + |G.HeadText(h)|) == '>'
    ensures Start(s, i) == Some((G.LeafOf(h, None), i + |G.HeadText(h)|))
  {
    hide Has, IsBorder, IsMark, IsSpace, Attrs, G.PairsText, G.PairsOk, G.Name, G.Blank, G.AttrsOf, G.HeadText, Span;
    HeadApart(s, i, h);
    AfterName(s, i + |h.name|, h.gap, h.pairs, i + |G.HeadText(h)|);
    Borders(At(s, i + |h.name|));
    NameScan(s, i, h.name);
    BlankScan(s, i + |h.name|, h.gap);
    NoPairs();
  }

  lemma ScanHead(s: string, i: nat) returns (h: G.Head)
    requires i <= |s| && Start(s, i).Some?
    ensures G.HeadOk(h) && Has(s, i, G.HeadText(h)) && i + |G.HeadText(h)| <= |s|
    ensures Start(s, i) == Some((G.LeafOf(h, None), i + |G.HeadText(h)|)) && !IsSpace(At(s, i + |G.HeadText(h)|))
    ensures h.name == "" && h.gap == "" ==> h.pairs == []
  {
    hide Has, IsBorder, IsMark, IsSpace, Attrs, G.PairsText, G.PairsOk, G.Name, G.Blank, G.AttrsOf, G.HeadText, Span;
    var name := ScanName(s, i);
    var n := Span(IsMark, s, i);
    var gap := ScanBlank(s, n);
    var a := Span(IsSpace, s, n);
    var pairs: seq<G.Pair> := [];
    if IsMark(At(s, a)) {
      pairs := ScanPairs(s, a);
    } else {
      NoPairs();
      HasNothing(s, a);
    }
    h := G.Head(name, gap, pairs);
    HeadApart(s, i, h);
    TextAt(s, a, G.PairsText(pairs));
  }

  // ---------------------------------------------------------------- the rest of a tag

  lemma {:induction false} SpanOn(s: string, i: nat, j: nat)
    requires i <= j <= |s| && forall k :: i <= k < j ==> IsSpace(s[k])
    ensures Span(IsSpace, s, i) == Span(IsSpace, s, j)
    decreases j - i
  {
    if i < j { SpanOn(s, i + 1, j); }
  }

  /** White space spelled, and more behind it. */
  lemma BlankOn(s: string, i: nat, w: string)
    requires G.Blank(w) && Has(s, i, w)
    ensures i + |w| <= |s| && Span(IsSpace, s, i) == Span(IsSpace, s, i + |w|)
  {
    BlankMeans(w);
    forall k | i <= k < i + |w| ensures IsSpace(s[k]) { HasChar(s, i, w, k - i); }
    SpanOn(s, i, i + |w|);
  }

  lemma PlainRead(s: string, p: nat, gap: string, text: string, after: string, w: nat)
    requires G.InnerOk(G.Plain(gap, text, after)) && Has(s, p, text) && Has(s, p + |text|, after)
    requires w == Span(IsSpace, s, p + |text| + |after|) && At(s, w) == '<'
    ensures p <= |s| && Value(s, p) == Some((text, w))
    ensures !IsSpace(At(s, p)) && At(s, p) != '<' && !IsQuote(At(s, p))
  {
    var t := p + |text|;
    TextAt(s, p, text);
    BlankOn(s, t, after);
    SpanTells(IsSpace, s, t);
    HasChars(s, p, text);
    Chars(text[0]);
    Chars(text[|text| - 1]);
    Chars(At(s, p));
    forall k | p <= k < w ensures s[k] != '<' && s[k] != '\0' {
      if k < t { HasChar(s, p, text, k - p); } else { Chars(s[k]); }
    }
    hide Has, G.Blank, Span, IsSpace, IsQuote;
    FindIs(s, p, '<', w);
    TrimIs(s, p, t, w);
    NoGap(s, p);
    hide Find;
  }

  lemma QuotedValue(s: string, p: nat, gap: string, quote: char, text: string, after: string, w: nat)
    requires G.InnerOk(G.Quoted(gap, quote, text, after)) && Has(s, p, [quote]) && Has(s, p + 1, text)
    requires Has(s, p + 1 + |text|, [quote]) && Has(s, p + 2 + |text|, after)
    requires w == Span(IsSpace, s, p + 2 + |text| + |after|) && At(s, w) == '<'
    ensures p <= |s| && Value(s, p) == Some((text, w)) && !IsSpace(At(s, p)) && At(s, p) != '<'
  {
    hide Has, G.Blank, G.Without, Span, IsSpace, IsQuote, Find;
    var e := p + 1 + |text|;
    Chars(quote);
    HasOne(s, p, quote);
    HasOne(s, e, quote);
    TextAt(s, p + 1, text);
    TextScan(s, p + 1, text, quote);
    BlankOn(s, e + 1, after);
    NoGap(s, p);
  }

  lemma InnerApart(s: string, i: nat, v: G.Inner)
    ensures v.Nothing? ==> (Has(s, i, G.InnerText(v)) <==> Has(s, i, v.gap))
    ensures v.Plain? ==> (Has(s, i, G.InnerText(v)) <==>
      Has(s, i, v.gap) && Has(s, i + |v.gap|, v.text) && Has(s, i + |v.gap| + |v.text|, v.after))
    ensures v.Quoted? ==> var q := i + |v.gap|;
      (Has(s, i, G.InnerText(v)) <==>
        Has(s, i, v.gap) && Has(s, q, [v.quote]) && Has(s, q + 1, v.text)
        && Has(s, q + 1 + |v.text|, [v.quote]) && Has(s, q + 2 + |v.text|, v.after))
  {
    hide Has;
    match v
    case Nothing(gap) =>
    case Plain(gap, text, after) =>
      HasParts(s, i, gap, text);
      HasParts(s, i, gap + text, after);
    case Quoted(gap, quote, text, after) =>
      HasParts(s, i, gap, [quote]);
      HasParts(s, i, gap + [quote], text);
      HasParts(s, i, gap + [quote] + text, [quote]);
      HasParts(s, i, gap + [quote] + text + [quote], after);
  }

  /** Behind the bracket of a start tag. */
  lemma RestGoes(s: string, leaf: Elem, k: nat)
    requires k <= |s| && At(s, k) == '>'
    ensures var p := Span(IsSpace, s, k + 1);
      Rest(s, leaf, k) == if At(s, p) == '<' then Some((leaf, false, p)) else
        match Value(s, p) case None => None case Some((value, next)) => Some((leaf.(value := Some(value)), false, next))
  {
    Chars('>');
    NoGap(s, k);
    hide Value, Span;
  }

  /** The inside of an element up to its first tag. */
  lemma InnerRead(s: string, leaf: Elem, k: nat, v: G.Inner)
    requires leaf.value == None && G.InnerOk(v) && At(s, k) == '>' && Has(s, k + 1, G.InnerText(v))
    requires k + 1 + |G.InnerText(v)| <= |s| && At(s, Span(IsSpace, s, k + 1 + |G.InnerText(v)|)) == '<'
    ensures k <= |s|
    ensures Rest(s, leaf, k)
      == Some((leaf.(value := G.ValueOf(v)), false, Span(IsSpace, s, k + 1 + |G.InnerText(v)|)))
  {
    hide Has, Span, Value, IsSpace, IsQuote, Rest, G.Without, G.Blank;
    var w := Span(IsSpace, s, k + 1 + |G.InnerText(v)|);
    RestGoes(s, leaf, k);
    InnerApart(s, k + 1, v);
    InnerLength(v);
    hide G.InnerText;
    var p := k + 1 + |v.gap|;
    BlankOn(s, k + 1, v.gap);
    match v
    case Nothing(gap) =>
    case Plain(gap, text, after) =>
      PlainRead(s, p, gap, text, after, w);
      NoGap(s, p);
    case Quoted(gap, quote, text, after) =>
      QuotedValue(s, p, gap, quote, text, after, w);
      NoGap(s, p);
  }

  lemma InnerLength(v: G.Inner)
    ensures |G.InnerText(v)| == match v
      case Nothing(gap) => |gap|
      case Plain(gap, text, after) => |gap| + |text| + |after|
      case Quoted(gap, _, text, after) => |gap| + |text| + |after| + 2
  {
  }

  lemma ScanInner(s: string, leaf: Elem, k: nat) returns (v: G.Inner)
    requires k <= |s| && leaf.value == None && At(s, k) == '>' && Rest(s, leaf, k).Some?
    ensures G.InnerOk(v) && Has(s, k + 1, G.InnerText(v))
    ensures Rest(s, leaf, k) == Some((leaf.(value := G.ValueOf(v)), false, k + 1 + |G.InnerText(v)|))
    ensures At(s, k + 1 + |G.InnerText(v)|) == '<' && k + 1 + |G.InnerText(v)| < |s|
  {
    hide Has, Span, Value, IsSpace, IsQuote, Rest, G.Without, G.Blank, G.InnerText, G.InnerOk;
    RestGoes(s, leaf, k);
    var gap := ScanBlank(s, k + 1);
    var p := Span(IsSpace, s, k + 1);
    if At(s, p) == '<' {
      v := G.Nothing(gap);
      NothingOk(gap);
    } else {
      NoGap(s, p);
      if IsQuote(At(s, p)) {
        v := ScanQuotedValue(s, gap, p);
      } else {
        v := ScanPlain(s, gap, p);
      }
    }
    InnerApart(s, k + 1, v);
    InnerLength(v);
  }

  lemma NothingOk(gap: string)
    requires G.Blank(gap)
    ensures G.InnerOk(G.Nothing(gap))
  {
  }

  lemma ScanQuotedValue(s: string, gap: string, p: nat) returns (v: G.Inner)
    requires p <= |s| && G.Blank(gap) && Value(s, p).Some? && IsQuote(At(s, p)) && Span(IsSpace, s, p) == p
    ensures v.Quoted? && v.gap == gap && G.InnerOk(v)
    ensures Has(s, p, [v.quote]) && Has(s, p + 1, v.text) && Has(s, p + 1 + |v.text|, [v.quote])
      && Has(s, p + 2 + |v.text|, v.after)
    ensures Value(s, p) == Some((v.text, p + 2 + |v.text| + |v.after|))
    ensures At(s, p + 2 + |v.text| + |v.after|) == '<'
  {
    hide Has, Span, Find, IsSpace, IsQuote, G.Blank;
    var quote := At(s, p);
    Chars(quote);
    var text := ScanText(s, p + 1, quote);
    var e := Find(s, p + 1, quote);
    var after := ScanBlank(s, e + 1);
    HasOne(s, p, quote);
    HasOne(s, e, quote);
    v := G.Quoted(gap, quote, text, after);
  }

  lemma ScanPlain(s: string, gap: string, p: nat) returns (v: G.Inner)
    requires p <= |s| && G.Blank(gap) && Value(s, p).Some? && !IsQuote(At(s, p)) && Span(IsSpace, s, p) == p
    requires !IsSpace(At(s, p)) && At(s, p) != '<'
    ensures v.Plain? && v.gap == gap && G.InnerOk(v) && Has(s, p, v.text) && Has(s, p + |v.text|, v.after)
    ensures Value(s, p) == Some((v.text, p + |v.text| + |v.after|)) && At(s, p + |v.text| + |v.after|) == '<'
  {
    FindTells(s, p, '<');
    var e := Find(s, p, '<');
    TrimTells(s, p, e);
    var t := TrimEnd(s, p, e);
    var text, after := s[p..t], s[t..e];
    BlankMeans(after);
    Chars(s[p]);
    if t > p { Chars(s[t - 1]); }
    v := G.Plain(gap, text, after);
    hide Find, TrimEnd, Span, IsSpace, IsQuote, G.Blank;
  }

  // ---------------------------------------------------------------- comments and version lines

  lemma NoteApart(s: string, i: nat, body: string)
    ensures Has(s, i, "<!--" + body + "-->") <==>
      Has(s, i, "<!--") && Has(s, i + 4, body) && Has(s, i + 4 + |body|, "-->")
  {
    HasParts(s, i, "<!--", body);
    HasParts(s, i, "<!--" + body, "-->");
  }

  lemma NoteEnds(s: string, j: nat)
    ensures Has(s, j, "-->") <==> At(s, j) == '-' && At(s, j + 1) == '-' && At(s, j + 2) == '>'
  {
    if j + 3 <= |s| { assert s[j..j + 3] == [s[j], s[j + 1], s[j + 2]]; }
  }

  /** Two dashes in a row, in the string and in the body. */
  lemma BodyDash(s: string, i: nat, body: string, k: nat)
    requires Has(s, i, body) && At(s, i + |body|) == '-' && k < |body|
    ensures i + k < |s| && s[i + k] == body[k] && At(s, i + k + 1) == (body + "-")[k + 1]
  {
    HasChar(s, i, body, k);
    if k + 1 < |body| { HasChar(s, i, body, k + 1); }
  }

  lemma NoteRead(s: string, i: nat, body: string)
    requires i <= |s| && G.CommentOk(body) && Has(s, i, "<!--" + body + "-->")
    ensures Note(s, i) == Some(i + 7 + |body|) && i + 7 + |body| <= |s|
  {
    NoteApart(s, i, body);
    var j := i + 4 + |body|;
    NoteEnds(s, j);
    forall k | i + 4 <= k < j ensures s[k] != '\0' && !(s[k] == '-' && At(s, k + 1) == '-') {
      BodyDash(s, i + 4, body, k - (i + 4));
    }
    DashesAre(s, i + 4, j);
  }

  lemma ScanNote(s: string, i: nat) returns (body: string)
    requires i <= |s| && Note(s, i).Some?
    ensures G.CommentOk(body) && Has(s, i, "<!--" + body + "-->") && Note(s, i) == Some(i + 7 + |body|)
  {
    DashesTell(s, i + 4);
    var j := Dashes(s, i + 4);
    body := s[i + 4..j];
    forall k | 0 <= k < |body| ensures body[k] != '\0' && !(body[k] == '-' && (body + "-")[k + 1] == '-') {
      BodyDash(s, i + 4, body, k);
      assert s[i + 4 + k] != '\0';
    }
    NoteEnds(s, j);
    NoteApart(s, i, body);
  }

  /** One pair of a version line. */
  lemma VersionStep(s: string, i: nat)
    requires i <= |s| && At(s, i) != '?' && At(s, i) != '\0'
    ensures VersionPairs(s, i).Some? ==> IsMark(At(s, i)) && OneAttr(s, i).Some? && At(s, Span(IsMark, s, i)) == '='
    ensures IsMark(At(s, i)) && OneAttr(s, i).Some? && At(s, Span(IsMark, s, i)) == '=' ==>
      VersionPairs(s, i) == VersionPairs(s, OneAttr(s, i).value.1)
  {
    SpanTells(IsMark, s, i);
    var n := Span(IsMark, s, i);
    Chars(At(s, n));
    if At(s, n) == '=' { NoGap(s, n); }
    if n > i { assert IsMark(s[i]); }
    hide Find, IsMark, IsSpace, IsQuote, Span;
  }

  lemma {:induction false} VersionPairsRead(s: string, i: nat, pairs: seq<G.Pair>)
    requires i <= |s| && G.PairsOk(pairs) && Tight(pairs) && Has(s, i, G.PairsText(pairs))
    requires At(s, i + |G.PairsText(pairs)|) == '?'
    ensures VersionPairs(s, i) == Some(i + |G.PairsText(pairs)|) && !IsSpace(At(s, i))
    decreases |pairs|
  {
    hide Has, OneAttr, IsMark, IsSpace, G.PairText, G.PairOk, G.PairsText, G.PairsOk, G.AttrsOf;
    Chars('?');
    if pairs == [] {
      NoPairs();
    } else {
      hide VersionPairs;
      var p, rest := pairs[0], pairs[1..];
      PairsApart(s, i, p, rest, pairs);
      var j := i + |G.PairText(p)|;
      VersionPairsRead(s, j, rest);
      PairRead(s, i, p);
      Chars(At(s, i));
      VersionStep(s, i);
    }
  }

  lemma VersionPairsEnd(s: string, i: nat)
    requires i <= |s| && (At(s, i) == '?' || At(s, i) == '\0')
    ensures VersionPairs(s, i) == Some(i)
  {
  }

  lemma NoneTight()
    ensures Tight([])
  {
  }

  lemma {:induction false} ScanVersionPairs(s: string, i: nat) returns (pairs: seq<G.Pair>)
    requires i <= |s| && VersionPairs(s, i).Some? && At(s, VersionPairs(s, i).value) == '?'
    ensures G.PairsOk(pairs) && Tight(pairs) && Has(s, i, G.PairsText(pairs))
    ensures VersionPairs(s, i) == Some(i + |G.PairsText(pairs)|)
    decreases |s| - i
  {
    hide *;
    if At(s, i) == '?' || At(s, i) == '\0' {
      pairs := [];
      NoPairs();
      HasNothing(s, i);
      VersionPairsEnd(s, i);
      NoneTight();
    } else {
      VersionStep(s, i);
      var p := ScanPair(s, i);
      NameEnds(s, i, p);
      var j := i + |G.PairText(p)|;
      TextAt(s, i, G.PairText(p));
      PairLength(p);
      var rest := ScanVersionPairs(s, j);
      pairs := [p] + rest;
      PairsTogether(s, i, p, rest);
    }
  }

  lemma NameEnds(s: string, i: nat, p: G.Pair)
    requires i <= |s| && G.PairOk(p) && Has(s, i, G.PairText(p))
    ensures Span(IsMark, s, i) == i + |p.name|
  {
    PairIs(s, i, p);
    var n := i + |p.name|;
    hide Has, IsMark, IsSpace, Span, G.PairText, G.Name, G.Blank, G.Without;
    HasOne(s, n + |p.gap1|, '=');
    BlankOr(s, n, p.gap1, '=');
    Chars('=');
    Chars(At(s, n));
    NameScan(s, i, p.name);
  }

  lemma VersionApart(s: string, i: nat, gap: string, pairs: seq<G.Pair>)
    ensures Has(s, i, "<?xml " + gap + G.PairsText(pairs) + "?>") <==>
      Has(s, i, "<?xml ") && Has(s, i + 6, gap) && Has(s, i + 6 + |gap|, G.PairsText(pairs))
      && Has(s, i + 6 + |gap| + |G.PairsText(pairs)|, "?>")
  {
    hide G.PairsText;
    HasParts(s, i, "<?xml ", gap);
    HasParts(s, i, "<?xml " + gap, G.PairsText(pairs));
    HasParts(s, i, "<?xml " + gap + G.PairsText(pairs), "?>");
  }

  lemma HasTwo(s: string, j: nat, a: char, b: char)
    requires a != '\0' && b != '\0'
    ensures Has(s, j, [a, b]) <==> At(s, j) == a && At(s, j + 1) == b
  {
    if j + 2 <= |s| { assert s[j..j + 2] == [s[j], s[j + 1]]; }
  }

  lemma VersionRead(s: string, i: nat, gap: string, pairs: seq<G.Pair>)
    requires i <= |s| && G.Blank(gap) && G.PairsOk(pairs) && Tight(pairs)
    requires Has(s, i, "<?xml " + gap + G.PairsText(pairs) + "?>")
    ensures Version(s, i) == Some(i + 8 + |gap| + |G.PairsText(pairs)|) && i + 8 + |gap| + |G.PairsText(pairs)| <= |s|
  {
    hide G.PairsText, G.PairsOk, G.Blank, Tight, Span, VersionPairs, IsSpace, Has;
    VersionApart(s, i, gap, pairs);
    var a, j := i + 6 + |gap|, i + 6 + |gap| + |G.PairsText(pairs)|;
    TextAt(s, i, "<?xml ");
    TextAt(s, i + 6, gap);
    TextAt(s, j, "?>");
    HasTwo(s, j, '?', '>');
    VersionPairsRead(s, a, pairs);
    BlankScan(s, i + 6, gap);
  }

  lemma ScanVersion(s: string, i: nat) returns (gap: string, pairs: seq<G.Pair>)
    requires i <= |s| && Version(s, i).Some?
    ensures G.Blank(gap) && G.PairsOk(pairs) && Tight(pairs)
    ensures Has(s, i, "<?xml " + gap + G.PairsText(pairs) + "?>")
    ensures Version(s, i) == Some(i + 8 + |gap| + |G.PairsText(pairs)|)
  {
    hide G.PairsText, G.PairsOk, G.Blank, Tight, Span, VersionPairs, IsSpace, Has;
    gap := ScanBlank(s, i + 6);
    pairs := ScanVersionPairs(s, i + 6 + |gap|);
    HasTwo(s, i + 6 + |gap| + |G.PairsText(pairs)|, '?', '>');
    VersionApart(s, i, gap, pairs);
  }
}
