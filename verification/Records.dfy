/** The records the ordered containers keep, and the finite map a sorted run of them stands for. */
module Records {

  /** A record: the key the comparison callback looks at, and the caller's payload.
      `cmp_cb(a, b)` has the sign of `a.key - b.key`. */
  datatype Data = Data(key: int, payload: int)

  datatype Option<+T> = None | Some(value: T)

  ghost predicate Ascending(s: seq<Data>) {
    forall i, j :: 0 <= i < j < |s| ==> s[i].key < s[j].key
  }

  ghost predicate Below(s: seq<Data>, key: int) {
    forall i :: 0 <= i < |s| ==> s[i].key < key
  }

  ghost predicate Above(s: seq<Data>, key: int) {
    forall i :: 0 <= i < |s| ==> key < s[i].key
  }

  ghost function AsMap(s: seq<Data>): map<int, Data>
    requires Ascending(s)
  {
    map d | d in s :: d.key := d
  }

  ghost function Lookup(m: map<int, Data>, key: int): Option<Data> {
    if key in m then Some(m[key]) else None
  }

  // Sequence regrouping, stated once so that no other proof has to reassociate.

  lemma Cancel<T>(p: seq<T>, x: seq<T>, rest: seq<T>, y: seq<T>, rest': seq<T>)
    ensures (p + x + rest == p + x + (y + rest')) <==> rest == y + rest'
    ensures p + y + rest' == p + (y + rest')
  {
    var s := p + x + rest;
    assert rest == s[|p + x|..];
    assert (p + x + (y + rest'))[|p + x|..] == y + rest';
  }

  lemma Regroup<T>(a: seq<T>, b: seq<T>, x: seq<T>, c: seq<T>, d: seq<T>)
    ensures a + (b + x + c) + d == a + b + x + (c + d)
  {
  }

  lemma Regroup2<T>(p: seq<T>, y: seq<T>, rest: seq<T>, c: seq<T>, d: seq<T>, q: seq<T>)
    requires rest == c + d
    ensures p + [] + y + rest == p + (y + rest)
    ensures q + y + c + d == q + y + rest
  {
  }

  lemma JoinAscending(a: seq<Data>, d: Data, b: seq<Data>)
    requires Ascending(a + b) && Below(a, d.key) && Above(b, d.key)
    ensures Ascending(a + [d] + b)
  {
    var s, s' := a + b, a + [d] + b;
    forall i, j | 0 <= i < j < |s'| ensures s'[i].key < s'[j].key {
      if i != |a| && j != |a| {
        var p, q := if i < |a| then i else i - 1, if j < |a| then j else j - 1;
        assert s[p] == s'[i] && s[q] == s'[j];
      }
    }
  }

  lemma SplitAscending(a: seq<Data>, d: Data, b: seq<Data>)
    requires Ascending(a + [d] + b)
    ensures Ascending(a + b) && Below(a, d.key) && Above(b, d.key)
  {
    var s, s' := a + b, a + [d] + b;
    assert s'[|a|] == d;
    assert forall i :: 0 <= i < |a| ==> s'[i] == a[i];
    assert forall i :: 0 <= i < |b| ==> s'[|a| + 1 + i] == b[i];
    assert forall i :: 0 <= i < |s| ==> s[i] == s'[if i < |a| then i else i + 1];
  }

  lemma FoundAt(a: seq<Data>, d: Data, b: seq<Data>)
    requires Ascending(a + [d] + b)
    ensures Below(a, d.key) && Above(b, d.key)
    ensures Lookup(AsMap(a + [d] + b), d.key) == Some(d)
  {
    SplitAscending(a, d, b);
    assert d in a + [d] + b;
  }

  lemma NotFound(a: seq<Data>, b: seq<Data>, key: int)
    requires Ascending(a + b) && Below(a, key) && Above(b, key)
    ensures Lookup(AsMap(a + b), key) == None
  {
    assert forall d :: d in a + b ==> d in a || d in b;
  }

  /** A key below that of `d` is looked up in what is before `d`, a key above it in what is behind. */
  lemma LookupLeft(a: seq<Data>, d: Data, b: seq<Data>, key: int)
    requires Ascending(a + [d] + b) && Ascending(a) && Above(b, d.key) && key < d.key
    ensures Lookup(AsMap(a + [d] + b), key) == Lookup(AsMap(a), key)
  {
    if i :| 0 <= i < |a| && a[i].key == key {
      assert a == a[..i] + [a[i]] + a[i + 1..];
      assert a + [d] + b == a[..i] + [a[i]] + (a[i + 1..] + [d] + b);
      hide Ascending;
      FoundAt(a[..i], a[i], a[i + 1..]);
      FoundAt(a[..i], a[i], a[i + 1..] + [d] + b);
    } else {
      hide Ascending;
      assert forall x :: x in a + [d] + b ==> x in a || x == d || x in b;
    }
  }

  lemma LookupRight(a: seq<Data>, d: Data, b: seq<Data>, key: int)
    requires Ascending(a + [d] + b) && Ascending(b) && Below(a, d.key) && key > d.key
    ensures Lookup(AsMap(a + [d] + b), key) == Lookup(AsMap(b), key)
  {
    if i :| 0 <= i < |b| && b[i].key == key {
      assert b == b[..i] + [b[i]] + b[i + 1..];
      assert a + [d] + b == (a + [d] + b[..i]) + [b[i]] + b[i + 1..];
      hide Ascending;
      FoundAt(b[..i], b[i], b[i + 1..]);
      FoundAt(a + [d] + b[..i], b[i], b[i + 1..]);
    } else {
      hide Ascending;
      assert forall x :: x in a + [d] + b ==> x in a || x == d || x in b;
    }
  }

  lemma Added(a: seq<Data>, d: Data, b: seq<Data>)
    requires Ascending(a + b) && Below(a, d.key) && Above(b, d.key)
    ensures Ascending(a + [d] + b)
    ensures AsMap(a + [d] + b) == AsMap(a + b)[d.key := d]
  {
    JoinAscending(a, d, b);
    assert forall e :: e in a + [d] + b <==> e in a + b || e == d;
    assert forall e :: e in a + b <==> e in a || e in b;
  }

  lemma Removed(a: seq<Data>, d: Data, b: seq<Data>)
    requires Ascending(a + [d] + b)
    ensures Ascending(a + b)
    ensures AsMap(a + b) == AsMap(a + [d] + b) - {d.key}
  {
    SplitAscending(a, d, b);
    Added(a, d, b);
    NotFound(a, b, d.key);
  }

  // ---------------------------------------------------------------- searching by a callback

  ghost function FirstMatch(s: seq<Data>, find: Data -> bool): Option<Data> {
    if s == [] then None else if find(s[0]) then Some(s[0]) else FirstMatch(s[1..], find)
  }

  ghost predicate NoneBefore(s: seq<Data>, i: int, find: Data -> bool)
    requires i <= |s|
  {
    forall j :: 0 <= j < i ==> !find(s[j])
  }

  /** The first match is an element the callback accepts, and it accepts none before it. */
  lemma {:induction false} FirstMatchIsFirst(s: seq<Data>, find: Data -> bool)
    ensures FirstMatch(s, find) == None <==> forall i :: 0 <= i < |s| ==> !find(s[i])
    ensures FirstMatch(s, find).Some? ==>
      exists i :: 0 <= i < |s| && FirstMatch(s, find) == Some(s[i]) && find(s[i]) && NoneBefore(s, i, find)
  {
    if s != [] {
      FirstMatchIsFirst(s[1..], find);
      assert forall i :: 0 < i < |s| ==> s[i] == s[1..][i - 1];
      if !find(s[0]) && FirstMatch(s, find).Some? {
        var i :| 0 <= i < |s[1..]| && FirstMatch(s[1..], find) == Some(s[1..][i])
          && find(s[1..][i]) && NoneBefore(s[1..], i, find);
        assert s[i + 1] == s[1..][i] && NoneBefore(s, i + 1, find);
      }
    }
  }

  /** The callback has turned down `seen`, a first stretch of `all`. */
  ghost predicate TurnedDown(all: seq<Data>, seen: seq<Data>, find: Data -> bool) {
    seen <= all && FirstMatch(all, find) == FirstMatch(all[|seen|..], find)
  }

  lemma TurnedDownStep(all: seq<Data>, seen: seq<Data>, d: Data, find: Data -> bool)
    requires TurnedDown(all, seen, find) && seen + [d] <= all
    ensures find(d) ==> FirstMatch(all, find) == Some(d)
    ensures !find(d) ==> TurnedDown(all, seen + [d], find)
  {
    assert all[|seen|] == (seen + [d])[|seen|] == d;
    assert all[|seen|..][1..] == all[|seen + [d]|..];
  }

  lemma TurnedDownEnds(all: seq<Data>, find: Data -> bool)
    ensures TurnedDown(all, [], find)
    ensures TurnedDown(all, all, find) ==> FirstMatch(all, find) == None
  {
    assert all[0..] == all;
  }
}
