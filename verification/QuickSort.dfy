/** The sort of `quick_sort.c`, which moves elements by swaps alone and whose pivot changes ends with each of them. */
module QuickSort {

  ghost predicate Sorted(s: seq<int>) {
    forall i, j :: 0 <= i < j < |s| ==> s[i] <= s[j]
  }

  /** The same elements in `[low, high]`, nothing else touched. */
  ghost predicate Within(s: seq<int>, t: seq<int>, low: int, high: int)
    requires 0 <= low <= high + 1 <= |s| == |t|
  {
    && s[..low] == t[..low] && s[high + 1..] == t[high + 1..]
    && multiset(s[low..high + 1]) == multiset(t[low..high + 1])
  }

  lemma WithinChains(s: seq<int>, t: seq<int>, u: seq<int>, low: int, high: int)
    requires 0 <= low <= high + 1 <= |s| == |t| == |u| && Within(s, t, low, high) && Within(t, u, low, high)
    ensures Within(s, u, low, high)
  {
  }

  lemma SwapWithin(s: seq<int>, low: int, high: int, i: int, j: int)
    requires 0 <= low <= i <= high < |s| && low <= j <= high
    ensures Within(s, s[i := s[j]][j := s[i]], low, high)
  {
    var t := s[i := s[j]][j := s[i]];
    assert t[low..high + 1] == s[low..high + 1][i - low := s[j]][j - low := s[i]];
    assert t[..low] == s[..low] && t[high + 1..] == s[high + 1..];
  }

  /** A smaller stretch rearranged is the larger one rearranged. */
  lemma WithinWidens(s: seq<int>, t: seq<int>, low: int, high: int, l: int, h: int)
    requires 0 <= low <= l <= h + 1 <= high + 1 <= |s| == |t| && Within(s, t, l, h)
    ensures Within(s, t, low, high)
  {
    assert s[..low] == s[..l][..low] == t[..l][..low] == t[..low];
    assert s[high + 1..] == s[h + 1..][high - h..] == t[h + 1..][high - h..] == t[high + 1..];
    var a, b, c := s[low..l], s[l..h + 1], s[h + 1..high + 1];
    var a', b', c' := t[low..l], t[l..h + 1], t[h + 1..high + 1];
    assert a == s[..l][low..] && a' == t[..l][low..];
    assert c == s[h + 1..][..high - h] && c' == t[h + 1..][..high - h];
    assert s[low..high + 1] == a + b + c && t[low..high + 1] == a' + b' + c';
  }

  /** What bounds a stretch still bounds it rearranged. */
  lemma WithinBounds(s: seq<int>, t: seq<int>, low: int, high: int, p: int)
    requires 0 <= low <= high + 1 <= |s| == |t| && Within(s, t, low, high)
    ensures (forall k :: low <= k <= high ==> s[k] <= p) ==> forall k :: low <= k <= high ==> t[k] <= p
    ensures (forall k :: low <= k <= high ==> p <= s[k]) ==> forall k :: low <= k <= high ==> p <= t[k]
  {
    forall k | low <= k <= high ensures exists j :: low <= j <= high && s[j] == t[k] {
      assert t[k] in t[low..high + 1];
      assert t[k] in multiset(s[low..high + 1]);
      var j :| 0 <= j < |s[low..high + 1]| && s[low..high + 1][j] == t[k];
      assert s[low + j] == t[k];
    }
  }

  method Swap(a: array<int>, i: nat, j: nat, ghost s: seq<int>, ghost low: nat, ghost high: nat)
    requires low <= i <= high < a.Length && low <= j <= high && |s| == a.Length && Within(s, a[..], low, high)
    modifies a
    ensures a[..] == old(a[..])[i := old(a[j])][j := old(a[i])] && Within(s, a[..], low, high)
  {
    hide Within;
    SwapWithin(a[..], low, high, i, j);
    WithinChains(s, a[..], a[..][i := a[j]][j := a[i]], low, high);
    ghost var t := a[..][i := a[j]][j := a[i]];
    a[i], a[j] := a[j], a[i];
    assert a[..] == t;
  }

  lemma WithinSelf(s: seq<int>, low: int, high: int)
    requires 0 <= low <= high + 1 <= |s|
    ensures Within(s, s, low, high)
  {
  }

  ghost predicate Split(s: seq<int>, low: int, i: int, j: int, high: int, p: int)
    requires 0 <= low <= i <= j <= high < |s|
  {
    (forall k :: low <= k < i ==> s[k] <= p) && (forall k :: j < k <= high ==> p <= s[k])
  }

  /** `_quick_sort_once`: the first element ends at `m`, none greater to its left, none smaller to its right. */
  method Once(a: array<int>, low: nat, high: nat) returns (m: nat)
    requires low < high < a.Length
    modifies a
    ensures low <= m <= high && Within(old(a[..]), a[..], low, high) && Split(a[..], low, m, m, high, a[m])
    ensures a[m] == old(a[low])
  {
    hide Within;
    WithinSelf(a[..], low, high);
    var i, j := low, high;
    ghost var s, p := a[..], a[low];
    while i < j
      invariant low <= i <= j <= high && Within(s, a[..], low, high) && a[i] == p && Split(a[..], low, i, j, high, p)
      decreases j - i
    {
      ghost var j0 := j;
      while i < j
        invariant low <= i <= j <= j0 && Within(s, a[..], low, high) && Split(a[..], low, i, j, high, p)
        invariant a[i] == p
        decreases j - i
      {
        if a[i] > a[j] {
          Swap(a, i, j, s, low, high);
          i := i + 1;
          break;
        }
        j := j - 1;
      }
      while i < j
        invariant low <= i <= j <= j0 && Within(s, a[..], low, high) && Split(a[..], low, i, j, high, p)
        invariant a[j] == p
        decreases j - i
      {
        if a[i] > a[j] {
          Swap(a, i, j, s, low, high);
          j := j - 1;
          break;
        }
        i := i + 1;
      }
    }
    m := i;
  }

  /** `_quick_sort`. */
  method Sort(a: array<int>, low: int, high: int)
    requires 0 <= low <= high + 1 <= a.Length
    modifies a
    ensures Within(old(a[..]), a[..], low, high) && Sorted(a[..][low..high + 1])
    decreases high - low
  {
    hide Within, Sorted, Split;
    if low < high {
      ghost var s := a[..];
      var m: int := Once(a, low, high);
      ghost var t := a[..];
      Sort(a, low, m - 1);
      ghost var u := a[..];
      Sort(a, m + 1, high);
      Meet(s, t, u, a[..], low, m, high);
    } else {
      ShortIs(a[..], low, high);
    }
  }

  lemma ShortIs(s: seq<int>, low: int, high: int)
    requires 0 <= low <= high + 1 <= |s| && high <= low
    ensures Within(s, s, low, high) && Sorted(s[low..high + 1])
  {
  }

  /** The pivot put in its place, then the stretch below it sorted, then the one above. */
  lemma Meet(s: seq<int>, t: seq<int>, u: seq<int>, v: seq<int>, low: int, m: int, high: int)
    requires 0 <= low <= m <= high < |s| == |t| == |u| == |v|
    requires Within(s, t, low, high) && Split(t, low, m, m, high, t[m])
    requires Within(t, u, low, m - 1) && Sorted(u[low..m - 1 + 1])
    requires Within(u, v, m + 1, high) && Sorted(v[m + 1..high + 1])
    ensures Within(s, v, low, high) && Sorted(v[low..high + 1])
  {
    hide Within, Sorted;
    WithinBounds(t, u, low, m - 1, t[m]);
    WithinKeeps(t, u, low, m - 1);
    WithinBounds(u, v, m + 1, high, t[m]);
    WithinKeeps(u, v, m + 1, high);
    Joins(u, v, low, m, high, t[m]);
    WithinWidens(t, u, low, high, low, m - 1);
    WithinWidens(u, v, low, high, m + 1, high);
    WithinChains(s, t, u, low, high);
    WithinChains(s, u, v, low, high);
  }

  lemma WithinKeeps(s: seq<int>, t: seq<int>, low: int, high: int)
    requires 0 <= low <= high + 1 <= |s| == |t| && Within(s, t, low, high)
    ensures forall k :: 0 <= k < |s| && (k < low || k > high) ==> t[k] == s[k]
  {
    forall k | 0 <= k < low ensures t[k] == s[k] { assert s[..low][k] == t[..low][k]; }
    forall k | high < k < |s|
      ensures t[k] == s[k]
    {
      assert s[high + 1..][k - high - 1] == t[high + 1..][k - high - 1];
    }
  }

  /** Two sorted stretches around the pivot. */
  lemma Joins(u: seq<int>, v: seq<int>, low: int, m: int, high: int, p: int)
    requires 0 <= low <= m <= high < |u| == |v| && Sorted(u[low..m]) && Sorted(v[m + 1..high + 1]) && u[m] == p
    requires forall k :: 0 <= k <= m ==> v[k] == u[k]
    requires forall k :: low <= k < m ==> u[k] <= p
    requires forall k :: m < k <= high ==> p <= v[k]
    ensures Sorted(v[low..high + 1])
  {
    var w := v[low..high + 1];
    forall i, j | 0 <= i < j < |w| ensures w[i] <= w[j] {
      var x, y := low + i, low + j;
      assert w[i] == v[x] && w[j] == v[y];
      if y < m {
        assert u[low..m][i] <= u[low..m][j];
      } else if x > m {
        assert v[m + 1..high + 1][x - m - 1] <= v[m + 1..high + 1][y - m - 1];
      }
    }
  }

  /** `quick_sort`: the array ends sorted, with the elements it had. */
  method QuickSort(a: array<int>)
    modifies a
    ensures Sorted(a[..]) && multiset(a[..]) == multiset(old(a[..]))
  {
    if a.Length <= 0 { return; }
    Sort(a, 0, a.Length - 1);
    assert a[..][0..a.Length - 1 + 1] == a[..] && old(a[..])[0..a.Length - 1 + 1] == old(a[..]);
  }
}
