/** Knuth-Morris-Pratt search, with the table of `kmp.c` that skips borders bound to fail. */
module Kmp {

  /** The first `k` characters of `p` are also the last `k` of its first `j`. */
  ghost predicate Border(p: seq<char>, j: nat, k: int) {
    0 <= k < j <= |p| && p[..k] == p[j - k..j]
  }

  /** Where to go on in the pattern after a mismatch at `j`: the longest border that is followed by
      another character than `p[j]`, or -1. */
  ghost predicate IsNext(p: seq<char>, j: nat, k: int) {
    && j < |p| && -1 <= k < j
    && (k >= 0 ==> Border(p, j, k) && p[k] != p[j])
    && forall b :: k < b < j && Border(p, j, b) ==> p[b] == p[j]
  }

  /** The table has an entry even for the empty pattern. */
  function Entries(p: seq<char>): nat { if p == [] then 1 else |p| }

  ghost predicate TableFor(p: seq<char>, next: seq<int>) {
    |next| == Entries(p) && forall j :: 0 <= j < |p| ==> IsNext(p, j, next[j])
  }

  ghost predicate Occurs(p: seq<char>, s: seq<char>, at: int) {
    0 <= at <= at + |p| <= |s| && s[at..at + |p|] == p
  }

  /** A border of a border is a border; a border shorter than a border is a border of it. */
  lemma BorderOfBorder(p: seq<char>, j: nat, k: int, b: int)
    requires Border(p, j, k) && 0 <= b < k
    ensures Border(p, j, b) <==> Border(p, k, b)
  {
    assert p[j - b..j] == p[j - k..j][k - b..] == p[..k][k - b..] == p[k - b..k];
  }

  /** A border grows by one where the next characters agree, and only there. */
  lemma BorderGrows(p: seq<char>, j: nat, b: int)
    requires 0 <= b < j < |p|
    ensures Border(p, j + 1, b + 1) <==> Border(p, j, b) && p[b] == p[j]
  {
    assert p[..b + 1] == p[..b] + [p[b]];
    assert p[j - b..j + 1] == p[j - b..j] + [p[j]];
  }

  /** A mismatch entry of the border serves the whole when both are followed by the same character. */
  lemma NextOfBorder(p: seq<char>, j: nat, k: nat, n: int)
    requires j < |p| && k < j && p[k] == p[j] && IsNext(p, k, n)
    requires Longest(p, j, k)
    ensures IsNext(p, j, n)
  {
    forall b | 0 <= b < k ensures Border(p, j, b) <==> Border(p, k, b) { BorderOfBorder(p, j, k, b); }
  }

  /** Candidate `k` for position `j`: every longer border fails to grow. */
  ghost predicate Candidate(p: seq<char>, j: nat, k: int) {
    && j < |p| && -1 <= k < j && (k >= 0 ==> Border(p, j, k))
    && forall b :: k < b < j && Border(p, j, b) ==> p[b] != p[j]
  }

  ghost predicate Longest(p: seq<char>, j: nat, k: int) {
    Border(p, j, k) && forall b :: k < b < j ==> !Border(p, j, b)
  }

  lemma CandidateGrows(p: seq<char>, j: nat, k: int)
    requires Candidate(p, j, k) && j + 1 < |p| && (k == -1 || p[j] == p[k])
    ensures Longest(p, j + 1, k + 1)
  {
    var j' := j + 1;
    if k >= 0 { BorderGrows(p, j, k); }
    forall b | k + 1 < b < j' ensures !Border(p, j', b) { BorderGrows(p, j, b - 1); }
  }

  lemma CandidateFallsBack(p: seq<char>, j: nat, k: nat, n: int)
    requires Candidate(p, j, k) && p[j] != p[k] && IsNext(p, k, n)
    ensures Candidate(p, j, n)
  {
    forall b | 0 <= b < k ensures Border(p, j, b) <==> Border(p, k, b) { BorderOfBorder(p, j, k, b); }
  }

  lemma FirstNext(p: seq<char>)
    requires p != []
    ensures IsNext(p, 0, -1) && Candidate(p, 0, -1)
  {
  }

  lemma NextIsBelow(p: seq<char>, j: nat, n: int)
    requires IsNext(p, j, n)
    ensures -1 <= n < j
  {
  }

  /** The longest border is a candidate, and the entry itself if it is followed by another character. */
  lemma LongestServes(p: seq<char>, j: nat, k: nat)
    requires Longest(p, j, k) && j < |p|
    ensures k < j && Candidate(p, j, k) && (p[k] != p[j] ==> IsNext(p, j, k))
  {
  }

  /** An occurrence that begins inside the matched part makes a border of it. */
  lemma OccurrenceInside(p: seq<char>, s: seq<char>, i: nat, j: nat, at: int)
    requires Occurs(p, s, at) && i < |s| && j <= i && j < |p| && s[i - j..i] == p[..j]
    requires i - j <= at <= i
    ensures var b := i - at; s[i] == p[b] && (b < j ==> Border(p, j, b))
  {
    var b := i - at;
    assert s[at..at + |p|][b] == p[b];
    assert p[..b] == s[at..at + |p|][..b] == s[at..i] == s[i - j..i][j - b..] == p[..j][j - b..] == p[j - b..j];
  }

  /** The start moves on without passing an occurrence. */
  lemma MismatchSkips(p: seq<char>, s: seq<char>, i: nat, j: nat, n: int, at: int)
    requires i < |s| && j <= i && IsNext(p, j, n) && s[i - j..i] == p[..j] && s[i] != p[j]
    requires i - j <= at < i - n
    ensures !Occurs(p, s, at)
  {
    if at <= i && Occurs(p, s, at) { OccurrenceInside(p, s, i, j, at); }
  }

  lemma MismatchKeeps(p: seq<char>, s: seq<char>, i: nat, j: nat, n: int)
    requires i <= |s| && j <= i && IsNext(p, j, n) && n >= 0 && s[i - j..i] == p[..j]
    ensures s[i - n..i] == p[..n]
  {
    assert s[i - n..i] == s[i - j..i][j - n..] == p[..j][j - n..] == p[j - n..j];
  }

  const INT_BYTES := 4

  /** The bytes asked of `calloc` for the table of a pattern of that length: one for each character. */
  function TableBytes(len: nat): nat { 1 * len }

  /** Entry `j` is an `int`: it lies in that memory exactly when it is in the first quarter of the table. */
  lemma EntryFits(len: nat, j: nat)
    requires j < len
    ensures INT_BYTES * j + INT_BYTES <= TableBytes(len) <==> j < len / INT_BYTES
  {
  }

  /** The table and the search are right for any pattern, for a table all of whose entries exist. `within` tells
      whether they do. */
  class Matcher {
    const p: seq<char>
    const next: array<int>
    const within: bool

    ghost predicate Valid()
      reads next
    {
      TableFor(p, next[..])
    }

    constructor (p: seq<char>)
      ensures Valid() && this.p == p && fresh(next)
      ensures !within
    {
      var table, fits := GenNext(p, TableBytes(|p|));
      this.p := p;
      next := table;
      within := fits;
    }

    /** The table, and whether every entry written lies within the `bytes` allocated for it. */
    static method GenNext(p: seq<char>, bytes: nat) returns (next: array<int>, within: bool)
      ensures fresh(next) && TableFor(p, next[..])
      ensures within <==> INT_BYTES * Entries(p) <= bytes
    {
      hide IsNext, Candidate, Border, Longest;
      var max := |p| - 1;
      var k, j := -1, 0;
      if p != [] { FirstNext(p); }
      next := new int[Entries(p)];
      next[0] := -1;
      within := INT_BYTES <= bytes;
      while j < max
        invariant within <==> INT_BYTES * (j + 1) <= bytes
        invariant p == [] || (-1 <= k < j <= max && Candidate(p, j, k))
        invariant j == 0 || p != []
        invariant forall i :: 0 <= i <= j && i < |p| ==> IsNext(p, i, next[i])
        decreases max - j, k
      {
        if k == -1 || p[j] == p[k] {
          CandidateGrows(p, j, k);
          k := k + 1;
          j := j + 1;
          within := within && INT_BYTES * j + INT_BYTES <= bytes;
          LongestServes(p, j, k);
          if p[k] != p[j] {
            next[j] := k;
          } else {
            NextOfBorder(p, j, k, next[k]);
            next[j] := next[k];
          }
        } else {
          CandidateFallsBack(p, j, k, next[k]);
          NextIsBelow(p, k, next[k]);
          k := next[k];
        }
      }
    }

    /** The first occurrence of the pattern, or -1 exactly when there is none. */
    method Match(s: seq<char>) returns (at: int)
      requires Valid()
      ensures at == -1 <==> forall q :: !Occurs(p, s, q)
      ensures at != -1 ==> Occurs(p, s, at) && forall q :: 0 <= q < at ==> !Occurs(p, s, q)
    {
      var i, j := 0, 0;
      while i < |s| && j < |p|
        invariant 0 <= i <= |s| && -1 <= j <= i && j <= |p|
        invariant j >= 0 ==> s[i - j..i] == p[..j]
        invariant forall q :: 0 <= q < i - j ==> !Occurs(p, s, q)
        decreases |s| - i, j
      {
        if j == -1 || s[i] == p[j] {
          if j >= 0 { assert s[i - j..i + 1] == s[i - j..i] + [s[i]] && p[..j + 1] == p[..j] + [p[j]]; }
          i, j := i + 1, j + 1;
        } else {
          var n := next[j];
          assert IsNext(p, j, n);
          forall q | i - j <= q < i - n ensures !Occurs(p, s, q) { MismatchSkips(p, s, i, j, n, q); }
          if n >= 0 { MismatchKeeps(p, s, i, j, n); }
          j := n;
        }
      }
      if j == |p| {
        assert Occurs(p, s, i - j);
        return i - j;
      }
      return -1;
    }
  }
}
