/** How many nodes an insertion into a B-tree asks the allocator for. */
module BNeeds {
  import opened Records
  import opened BShape

  /** Where the search for `key` goes on: behind the records before it. */
  ghost function Way(recs: seq<Data>, key: int): (i: nat)
    ensures i <= |recs|
  {
    if recs == [] || key <= recs[0].key then 0 else 1 + Way(recs[1..], key)
  }

  /** The node and all below it on the way of the key are full: it will be cut in two. */
  ghost predicate Fills(max: nat, t: BT, key: int)
    decreases t
  {
    |t.recs| >= max && (t.kids == [] || (Way(t.recs, key) < |t.kids| && Fills(max, t.kids[Way(t.recs, key)], key)))
  }

  /** The nodes on the way of the key that will be cut in two. */
  ghost function Cuts(max: nat, t: BT, key: int): nat
    decreases t
  {
    (if Fills(max, t, key) then 1 else 0)
    + if Way(t.recs, key) < |t.kids| then Cuts(max, t.kids[Way(t.recs, key)], key) else 0
  }

  /** A node for each of these, and one for a new root when the root is among them. */
  ghost function Needs(max: nat, t: BT, key: int): nat {
    Cuts(max, t, key) + if Fills(max, t, key) then 1 else 0
  }

  // ---------------------------------------------------------------- while splits climb

  /** The node at place `p` holds too many records, and all those above it are full. */
  ghost predicate Over(max: nat, t: BT, p: seq<nat>)
    requires Path(t, p)
    decreases |p|
  {
    if p == [] then |t.recs| > max else |t.recs| >= max && Over(max, t.kids[p[0]], p[1..])
  }

  ghost function Climbs(max: nat, t: BT, p: seq<nat>): nat
    requires Path(t, p)
    decreases |p|
  {
    (if Over(max, t, p) then 1 else 0) + if p == [] then 0 else Climbs(max, t.kids[p[0]], p[1..])
  }

  /** The nodes still to be asked for. */
  ghost function Due(max: nat, t: BT, p: seq<nat>): nat
    requires Path(t, p)
  {
    Climbs(max, t, p) + if Over(max, t, p) then 1 else 0
  }

  lemma {:induction false} WayIs(recs: seq<Data>, key: int, i: nat)
    requires i <= |recs| && (forall k :: 0 <= k < i ==> recs[k].key < key)
    requires forall k :: i <= k < |recs| ==> key < recs[k].key
    ensures Way(recs, key) == i
  {
    if i > 0 { WayIs(recs[1..], key, i - 1); }
  }

  /** The way of the key is that of the search. */
  lemma WayOfSearch(t: BT, p: seq<nat>, key: int)
    requires p != [] && Path(t, p) && Narrowed(t, p, key)
    ensures Way(t.recs, key) == p[0] && Narrowed(t.kids[p[0]], p[1..], key)
  {
    var i := p[0];
    var l, a, b, r := Left(t.recs[..i], t.kids[..i]), Ahead(t.kids[i], p[1..]), Behind(t.kids[i], p[1..]),
      Right(t.recs[i..], t.kids[i + 1..]);
    hide Left, Right, Ahead, Behind;
    BelowParts(l, a, key);
    AboveParts(b, r, key);
    LeftHas(t.recs[..i], t.kids[..i], key);
    RightHas(t.recs[i..], t.kids[i + 1..], key);
    assert forall k :: 0 <= k < i ==> t.recs[..i][k] == t.recs[k];
    forall k | i <= k < |t.recs| ensures key < t.recs[k].key { assert t.recs[i..][k - i] == t.recs[k]; }
    WayIs(t.recs, key, i);
  }

  lemma BelowParts(a: seq<Data>, b: seq<Data>, key: int)
    requires Below(a + b, key)
    ensures Below(a, key) && Below(b, key)
  {
    forall k | 0 <= k < |a| ensures a[k].key < key { assert (a + b)[k] == a[k]; }
    forall k | 0 <= k < |b| ensures b[k].key < key { assert (a + b)[|a| + k] == b[k]; }
  }

  lemma AboveParts(a: seq<Data>, b: seq<Data>, key: int)
    requires Above(a + b, key)
    ensures Above(a, key) && Above(b, key)
  {
    forall k | 0 <= k < |a| ensures key < a[k].key { assert (a + b)[k] == a[k]; }
    forall k | 0 <= k < |b| ensures key < b[k].key { assert (a + b)[|a| + k] == b[k]; }
  }

  lemma {:induction false} LeftHas(rs: seq<Data>, ks: seq<BT>, key: int)
    requires |rs| == |ks| && Below(Left(rs, ks), key)
    ensures forall k :: 0 <= k < |rs| ==> rs[k].key < key
  {
    if rs != [] {
      hide InOrder;
      BelowParts(InOrder(ks[0]) + [rs[0]], Left(rs[1..], ks[1..]), key);
      BelowParts(InOrder(ks[0]), [rs[0]], key);
      LeftHas(rs[1..], ks[1..], key);
      assert [rs[0]][0].key < key;
      forall k | 0 <= k < |rs| ensures rs[k].key < key { if k > 0 { assert rs[1..][k - 1] == rs[k]; } }
    }
  }

  lemma {:induction false} RightHas(rs: seq<Data>, ks: seq<BT>, key: int)
    requires |rs| == |ks| && Above(Right(rs, ks), key)
    ensures forall k :: 0 <= k < |rs| ==> key < rs[k].key
  {
    if rs != [] {
      hide InOrder;
      AboveParts([rs[0]] + InOrder(ks[0]), Right(rs[1..], ks[1..]), key);
      AboveParts([rs[0]], InOrder(ks[0]), key);
      RightHas(rs[1..], ks[1..], key);
      assert key < [rs[0]][0].key;
      forall k | 0 <= k < |rs| ensures key < rs[k].key { if k > 0 { assert rs[1..][k - 1] == rs[k]; } }
    }
  }

  /** With the record in its leaf, what is due is what the insertion needs. */
  lemma {:induction false} DueAtFirst(max: nat, t: BT, p: seq<nat>, u: BT, key: int)
    requires Path(t, p) && Narrowed(t, p, key) && Sub(t, p).kids == [] && |u.recs| == |Sub(t, p).recs| + 1
    ensures Path(Put(t, p, u), p)
    ensures Over(max, Put(t, p, u), p) <==> Fills(max, t, key)
    ensures Climbs(max, Put(t, p, u), p) == Cuts(max, t, key)
    decreases |p|
  {
    if p != [] {
      WayOfSearch(t, p, key);
      DueAtFirst(max, t.kids[p[0]], p[1..], u, key);
    }
  }

  /** One round of the splits takes one node. */
  lemma {:induction false} OneLessDue(max: nat, t: BT, p: seq<nat>, w: BT)
    requires p != [] && Path(t, p) && Path(t, p[..|p| - 1])
    requires |Sub(t, p).recs| > max && |w.recs| == |Sub(t, p[..|p| - 1]).recs| + 1
    ensures var q := p[..|p| - 1]; Path(Put(t, q, w), q)
    ensures var q := p[..|p| - 1]; Over(max, Put(t, q, w), q) <==> Over(max, t, p)
    ensures var q := p[..|p| - 1]; Climbs(max, Put(t, q, w), q) + 1 == Climbs(max, t, p)
    decreases |p|
  {
    var q := p[..|p| - 1];
    if |p| > 1 {
      assert q[0] == p[0] && q[1..] == p[1..][..|p| - 2];
      OneLessDue(max, t.kids[p[0]], p[1..], w);
    } else {
      assert q == [] && p[1..] == [];
    }
  }

  /** Something is due exactly while a node holds too many. */
  lemma {:induction false} DueWhile(max: nat, t: BT, p: seq<nat>)
    requires Path(t, p)
    ensures |Sub(t, p).recs| > max <==> Climbs(max, t, p) > 0
    ensures Over(max, t, p) ==> |Sub(t, p).recs| > max
    decreases |p|
  {
    if p != [] { DueWhile(max, t.kids[p[0]], p[1..]); }
  }

  lemma DueLess(max: nat, t: BT, p: seq<nat>, w: BT)
    requires p != [] && Path(t, p) && Path(t, p[..|p| - 1])
    requires |Sub(t, p).recs| > max && |w.recs| == |Sub(t, p[..|p| - 1]).recs| + 1
    ensures var q := p[..|p| - 1]; Path(Put(t, q, w), q)
    ensures var q := p[..|p| - 1]; Due(max, Put(t, q, w), q) + 1 == Due(max, t, p)
  {
    OneLessDue(max, t, p, w);
  }

  lemma OneMoreRec(y: BT, i: nat, l: BT, d: Data, r: BT)
    requires i < |y.kids| && i <= |y.recs|
    ensures |Widened(y, i, l, d, r).recs| == |y.recs| + 1
  {
  }
}
