/** B-trees as values: order, size and depth, and what an insertion and a split do to them. */
module BShape {
  import opened Records

  /** A node: its records, and one child more than records unless it is a leaf. */
  datatype BT = BT(recs: seq<Data>, kids: seq<BT>)

  // ---------------------------------------------------------------- the records in order

  ghost function InOrder(t: BT): seq<Data>
    decreases t
  {
    if |t.kids| != |t.recs| + 1 then t.recs
    else Left(t.recs, t.kids[..|t.recs|]) + InOrder(t.kids[|t.recs|])
  }

  /** Children, each with the record after it. */
  ghost function Left(rs: seq<Data>, ks: seq<BT>): seq<Data>
    decreases ks
  {
    if rs == [] || |ks| != |rs| then [] else InOrder(ks[0]) + [rs[0]] + Left(rs[1..], ks[1..])
  }

  /** Children, each with the record before it. */
  ghost function Right(rs: seq<Data>, ks: seq<BT>): seq<Data>
    decreases ks
  {
    if rs == [] || |ks| != |rs| then [] else [rs[0]] + InOrder(ks[0]) + Right(rs[1..], ks[1..])
  }

  lemma {:induction false} LeftJoins(rs: seq<Data>, ks: seq<BT>, rs': seq<Data>, ks': seq<BT>)
    requires |rs| == |ks| && |rs'| == |ks'|
    ensures Left(rs + rs', ks + ks') == Left(rs, ks) + Left(rs', ks')
    decreases |rs|
  {
    hide InOrder;
    if rs == [] {
      assert rs + rs' == rs' && ks + ks' == ks';
    } else {
      assert (rs + rs')[1..] == rs[1..] + rs' && (ks + ks')[1..] == ks[1..] + ks';
      LeftJoins(rs[1..], ks[1..], rs', ks');
    }
  }

  lemma {:induction false} RightJoins(rs: seq<Data>, ks: seq<BT>, rs': seq<Data>, ks': seq<BT>)
    requires |rs| == |ks| && |rs'| == |ks'|
    ensures Right(rs + rs', ks + ks') == Right(rs, ks) + Right(rs', ks')
    decreases |rs|
  {
    hide InOrder;
    if rs == [] {
      assert rs + rs' == rs' && ks + ks' == ks';
    } else {
      assert (rs + rs')[1..] == rs[1..] + rs' && (ks + ks')[1..] == ks[1..] + ks';
      RightJoins(rs[1..], ks[1..], rs', ks');
    }
  }

  /** A run of children can be read from either end. */
  lemma {:induction false} Turns(rs: seq<Data>, ks: seq<BT>)
    requires |ks| == |rs| + 1
    ensures Left(rs, ks[..|rs|]) + InOrder(ks[|rs|]) == InOrder(ks[0]) + Right(rs, ks[1..])
    decreases |rs|
  {
    hide InOrder;
    if rs != [] {
      Turns(rs[1..], ks[1..]);
      assert ks[..|rs|][1..] == ks[1..][..|rs| - 1] && ks[..|rs|][0] == ks[0];
      assert ks[1..][0] == ks[1] && ks[1..][1..] == ks[2..];
      var a, d, l, x, y, r := InOrder(ks[0]), [rs[0]], Left(rs[1..], ks[1..][..|rs| - 1]), InOrder(ks[|rs|]),
        InOrder(ks[1]), Right(rs[1..], ks[2..]);
      assert Left(rs, ks[..|rs|]) == a + d + l && Right(rs, ks[1..]) == d + y + r;
      assert a + d + l + x == a + d + (l + x);
      assert a + (d + y + r) == a + d + (y + r);
    }
  }

  /** What stands around child `i`. */
  lemma Around(t: BT, i: nat)
    requires |t.kids| == |t.recs| + 1 && i < |t.kids|
    ensures InOrder(t) == Left(t.recs[..i], t.kids[..i]) + InOrder(t.kids[i]) + Right(t.recs[i..], t.kids[i + 1..])
  {
    hide InOrder, Left, Right;
    var n := |t.recs|;
    LastChild(t);
    assert t.recs == t.recs[..i] + t.recs[i..] && t.kids[..n] == t.kids[..i] + t.kids[i..][..n - i];
    LeftJoins(t.recs[..i], t.kids[..i], t.recs[i..], t.kids[i..][..n - i]);
    Turns(t.recs[i..], t.kids[i..]);
    assert t.kids[i..][n - i] == t.kids[n] && t.kids[i..][0] == t.kids[i] && t.kids[i..][1..] == t.kids[i + 1..];
    Reassociate(Left(t.recs[..i], t.kids[..i]), Left(t.recs[i..], t.kids[i..][..n - i]), InOrder(t.kids[n]),
      InOrder(t.kids[i]), Right(t.recs[i..], t.kids[i + 1..]));
  }

  lemma Reassociate<T>(a: seq<T>, b: seq<T>, c: seq<T>, x: seq<T>, r: seq<T>)
    ensures (a + b) + c == a + (b + c) && a + (x + r) == a + x + r
  {
  }

  // ---------------------------------------------------------------- places in a tree

  ghost predicate Path(t: BT, p: seq<nat>)
    decreases |p|
  {
    p == [] || (|t.kids| == |t.recs| + 1 && p[0] < |t.kids| && Path(t.kids[p[0]], p[1..]))
  }

  ghost function Sub(t: BT, p: seq<nat>): BT
    requires Path(t, p)
    decreases |p|
  {
    if p == [] then t else Sub(t.kids[p[0]], p[1..])
  }

  ghost function Put(t: BT, p: seq<nat>, u: BT): BT
    requires Path(t, p)
    decreases |p|
  {
    if p == [] then u else t.(kids := t.kids[p[0] := Put(t.kids[p[0]], p[1..], u)])
  }

  ghost function Ahead(t: BT, p: seq<nat>): seq<Data>
    requires Path(t, p)
    decreases |p|
  {
    if p == [] then [] else Left(t.recs[..p[0]], t.kids[..p[0]]) + Ahead(t.kids[p[0]], p[1..])
  }

  ghost function Behind(t: BT, p: seq<nat>): seq<Data>
    requires Path(t, p)
    decreases |p|
  {
    if p == [] then [] else Behind(t.kids[p[0]], p[1..]) + Right(t.recs[p[0]..], t.kids[p[0] + 1..])
  }

  /** Whatever is put at a place stands between the same records. */
  lemma {:induction false} PutInOrder(t: BT, p: seq<nat>, u: BT)
    requires Path(t, p)
    ensures Path(Put(t, p, u), p) && Sub(Put(t, p, u), p) == u
    ensures InOrder(Put(t, p, u)) == Ahead(t, p) + InOrder(u) + Behind(t, p)
    decreases |p|
  {
    hide InOrder, Left, Right;
    if p != [] {
      var i, k := p[0], t.kids[p[0]];
      var t' := Put(t, p, u);
      PutInOrder(k, p[1..], u);
      Around(t', i);
      assert t'.kids[..i] == t.kids[..i] && t'.kids[i + 1..] == t.kids[i + 1..];
      Regroup(Left(t.recs[..i], t.kids[..i]), Ahead(k, p[1..]), InOrder(u), Behind(k, p[1..]),
        Right(t.recs[i..], t.kids[i + 1..]));
    }
  }

  lemma {:induction false} PutSame(t: BT, p: seq<nat>)
    requires Path(t, p)
    ensures Put(t, p, Sub(t, p)) == t
    decreases |p|
  {
    if p != [] { PutSame(t.kids[p[0]], p[1..]); }
  }

  lemma SubInOrder(t: BT, p: seq<nat>)
    requires Path(t, p)
    ensures InOrder(t) == Ahead(t, p) + InOrder(Sub(t, p)) + Behind(t, p)
  {
    PutSame(t, p);
    PutInOrder(t, p, Sub(t, p));
  }

  // ---------------------------------------------------------------- whose key is where

  ghost predicate HasKey(s: seq<Data>, key: int) { exists i :: 0 <= i < |s| && s[i].key == key }

  lemma HasJoins(a: seq<Data>, b: seq<Data>, key: int)
    ensures HasKey(a + b, key) <==> HasKey(a, key) || HasKey(b, key)
  {
    if HasKey(a, key) { var i :| 0 <= i < |a| && a[i].key == key; assert (a + b)[i].key == key; }
    if HasKey(b, key) { var i :| 0 <= i < |b| && b[i].key == key; assert (a + b)[|a| + i].key == key; }
  }

  lemma AscendingApart(a: seq<Data>, x: seq<Data>, b: seq<Data>, key: int)
    requires Ascending(a + x + b)
    ensures Ascending(x) && (HasKey(x, key) ==> !HasKey(a, key) && !HasKey(b, key))
  {
    var s := a + x + b;
    forall i, j | 0 <= i < j < |x| ensures x[i].key < x[j].key { assert s[|a| + i] == x[i] && s[|a| + j] == x[j]; }
    if HasKey(x, key) {
      var i :| 0 <= i < |x| && x[i].key == key;
      assert s[|a| + i] == x[i];
      forall j | 0 <= j < |a| ensures a[j].key != key { assert s[j] == a[j]; }
      forall j | 0 <= j < |b| ensures b[j].key != key { assert s[|a| + |x| + j] == b[j]; }
    }
  }

  lemma {:induction false} LeftHas(rs: seq<Data>, ks: seq<BT>, j: nat, key: int)
    requires j < |rs| == |ks|
    ensures HasKey(Left(rs, ks), rs[j].key) && (HasKey(InOrder(ks[j]), key) ==> HasKey(Left(rs, ks), key))
    decreases |rs|
  {
    hide InOrder, HasKey, Left;
    LeftJoins(rs[..1], ks[..1], rs[1..], ks[1..]);
    LeftOne(rs[0], ks[0], rs[..1], ks[..1]);
    assert rs == rs[..1] + rs[1..] && ks == ks[..1] + ks[1..];
    HasJoins(InOrder(ks[0]), [rs[0]], rs[j].key);
    HasJoins(InOrder(ks[0]), [rs[0]], key);
    HasJoins(InOrder(ks[0]) + [rs[0]], Left(rs[1..], ks[1..]), rs[j].key);
    HasJoins(InOrder(ks[0]) + [rs[0]], Left(rs[1..], ks[1..]), key);
    if j > 0 { LeftHas(rs[1..], ks[1..], j - 1, key); } else { HasOne(rs[0]); }
  }

  lemma LeftOne(r: Data, k: BT, rs: seq<Data>, ks: seq<BT>)
    requires rs == [r] && ks == [k]
    ensures Left(rs, ks) == InOrder(k) + [r] && Right(rs, ks) == [r] + InOrder(k)
  {
    hide InOrder;
  }

  lemma HasOne(r: Data)
    ensures HasKey([r], r.key)
  {
    assert [r][0].key == r.key;
  }

  lemma {:induction false} RightHas(rs: seq<Data>, ks: seq<BT>, j: nat, key: int)
    requires j < |rs| == |ks|
    ensures HasKey(Right(rs, ks), rs[j].key) && (HasKey(InOrder(ks[j]), key) ==> HasKey(Right(rs, ks), key))
    decreases |rs|
  {
    hide InOrder, HasKey, Right;
    RightJoins(rs[..1], ks[..1], rs[1..], ks[1..]);
    LeftOne(rs[0], ks[0], rs[..1], ks[..1]);
    assert rs == rs[..1] + rs[1..] && ks == ks[..1] + ks[1..];
    HasJoins([rs[0]], InOrder(ks[0]), rs[j].key);
    HasJoins([rs[0]], InOrder(ks[0]), key);
    HasJoins([rs[0]] + InOrder(ks[0]), Right(rs[1..], ks[1..]), rs[j].key);
    HasJoins([rs[0]] + InOrder(ks[0]), Right(rs[1..], ks[1..]), key);
    if j > 0 { RightHas(rs[1..], ks[1..], j - 1, key); } else { HasOne(rs[0]); }
  }

  /** The keys of one child are not those of the node itself or of another child. */
  lemma KidsApart(t: BT, i: nat, j: nat, key: int)
    requires |t.kids| == |t.recs| + 1 && i < |t.kids| && Ascending(InOrder(t)) && HasKey(InOrder(t.kids[i]), key)
    ensures HasKey(InOrder(t), key) && Ascending(InOrder(t.kids[i]))
    ensures j < |t.recs| ==> t.recs[j].key != key
    ensures j < |t.kids| && j != i ==> !HasKey(InOrder(t.kids[j]), key)
  {
    hide InOrder, HasKey, Left, Right, Ascending;
    Around(t, i);
    var a, x, b := Left(t.recs[..i], t.kids[..i]), InOrder(t.kids[i]), Right(t.recs[i..], t.kids[i + 1..]);
    AscendingApart(a, x, b, key);
    HasJoins(a, x, key);
    HasJoins(a + x, b, key);
    if j < |t.recs| {
      if j < i { LeftHas(t.recs[..i], t.kids[..i], j, key); }
        else { RightHas(t.recs[i..], t.kids[i + 1..], j - i, key); }
    }
    if j < |t.kids| && j != i {
      if j < i { LeftHas(t.recs[..i], t.kids[..i], j, key); }
        else { RightHas(t.recs[i..], t.kids[i + 1..], j - i - 1, key); }
    }
  }

  lemma KidAscending(t: BT, i: nat)
    requires |t.kids| == |t.recs| + 1 && i < |t.kids| && Ascending(InOrder(t))
    ensures Ascending(InOrder(t.kids[i]))
  {
    hide InOrder, Left, Right;
    Around(t, i);
    AscendingApart(Left(t.recs[..i], t.kids[..i]), InOrder(t.kids[i]), Right(t.recs[i..], t.kids[i + 1..]), 0);
  }

  /** A node's own records are among those in order. */
  lemma OwnKeys(t: BT, j: nat)
    requires (t.kids == [] || |t.kids| == |t.recs| + 1) && j < |t.recs|
    ensures HasKey(InOrder(t), t.recs[j].key)
  {
    if t.kids == [] {
      assert InOrder(t)[j] == t.recs[j];
    } else {
      hide HasKey, InOrder;
      Around(t, |t.recs|);
      assert t.recs[..|t.recs|] == t.recs && t.recs[|t.recs|..] == [] && t.kids[|t.recs| + 1..] == [];
      var a, x, b := Left(t.recs, t.kids[..|t.recs|]), InOrder(t.kids[|t.recs|]),
        Right(t.recs[|t.recs|..], t.kids[|t.recs| + 1..]);
      LeftHas(t.recs, t.kids[..|t.recs|], j, 0);
      HasJoins(a, x, t.recs[j].key);
      HasJoins(a + x, b, t.recs[j].key);
    }
  }

  // ---------------------------------------------------------------- size and depth

  /** The limits of order `m`: `max` and `min` records in a node, and the place where a full node is cut. */
  datatype Order = Order(max: nat, min: nat, sep: nat)

  function OrderOf(m: nat): Order
    requires m >= 3
  {
    Order(m - 1, m / 2 + m % 2 - 1, m / 2)
  }

  /** Every order gives both halves of an overfull node enough records, and a new root child two. */
  lemma OrderIsRight(m: nat)
    requires m >= 3
    ensures var o := OrderOf(m);
      && 1 <= o.min <= o.sep <= o.max && o.min <= o.max - o.sep <= o.max
      && o.min == (m + 1) / 2 - 1
  {
  }

  ghost predicate Valid(o: Order) { 1 <= o.min <= o.sep <= o.max && o.min <= o.max - o.sep }

  /** A node at height `h`, all of whose children have the right size; nothing is said of its own. */
  ghost predicate Inner(o: Order, t: BT, h: nat)
    decreases h, 0
  {
    if h == 0 then t.kids == []
    else |t.kids| == |t.recs| + 1 && forall i :: 0 <= i < |t.kids| ==> Fits(o, t.kids[i], h - 1)
  }

  ghost predicate Fits(o: Order, t: BT, h: nat)
    decreases h, 1
  {
    o.min <= |t.recs| <= o.max && Inner(o, t, h)
  }

  /** The whole tree: all leaves at depth `h`, the root with at least one record. */
  ghost predicate Whole(o: Order, t: BT, h: nat) {
    1 <= |t.recs| <= o.max && Inner(o, t, h)
  }

  /** All is well except that the node at place `p` may hold one record too many. */
  ghost predicate Almost(o: Order, t: BT, h: nat, lo: nat, p: seq<nat>)
    decreases |p|
  {
    lo <= |t.recs| &&
    if p == [] then |t.recs| <= o.max + 1 && Inner(o, t, h)
    else
      && |t.recs| <= o.max && h > 0 && |t.kids| == |t.recs| + 1 && p[0] < |t.kids|
      && (forall i :: 0 <= i < |t.kids| && i != p[0] ==> Fits(o, t.kids[i], h - 1))
      && Almost(o, t.kids[p[0]], h - 1, o.min, p[1..])
  }

  lemma {:induction false} AlmostPath(o: Order, t: BT, h: nat, lo: nat, p: seq<nat>)
    requires Almost(o, t, h, lo, p)
    ensures Path(t, p) && |p| <= h && Inner(o, Sub(t, p), h - |p|)
    ensures |Sub(t, p).recs| <= o.max + 1 && (p != [] ==> |Sub(t, p).recs| >= o.min)
    decreases |p|
  {
    if p != [] { AlmostPath(o, t.kids[p[0]], h - 1, o.min, p[1..]); }
  }

  /** With the node at `p` within its limit, all is well. */
  lemma {:induction false} AlmostDone(o: Order, t: BT, h: nat, lo: nat, p: seq<nat>)
    requires Almost(o, t, h, lo, p) && Path(t, p) && |Sub(t, p).recs| <= o.max
    ensures lo <= |t.recs| <= o.max && Inner(o, t, h)
    decreases |p|
  {
    if p != [] {
      AlmostDone(o, t.kids[p[0]], h - 1, o.min, p[1..]);
    }
  }

  /** A tree that is all right is so at any place. */
  lemma {:induction false} AlmostStarts(o: Order, t: BT, h: nat, lo: nat, p: seq<nat>)
    requires lo <= |t.recs| <= o.max && Inner(o, t, h) && Path(t, p) && |p| <= h
    ensures Almost(o, t, h, lo, p)
    decreases |p|
  {
    if p != [] {
      assert Fits(o, t.kids[p[0]], h - 1);
      AlmostStarts(o, t.kids[p[0]], h - 1, o.min, p[1..]);
    }
  }

  lemma {:induction false} AlmostPut(o: Order, t: BT, h: nat, lo: nat, p: seq<nat>, u: BT)
    requires Almost(o, t, h, lo, p) && Path(t, p) && |p| <= h
    requires Inner(o, u, h - |p|) && (if p == [] then lo else o.min) <= |u.recs| <= o.max + 1
    ensures Almost(o, Put(t, p, u), h, lo, p)
    decreases |p|
  {
    if p != [] { AlmostPut(o, t.kids[p[0]], h - 1, o.min, p[1..], u); }
  }

  /** One level up: the place of the parent. */
  lemma {:induction false} AlmostUp(o: Order, t: BT, h: nat, lo: nat, p: seq<nat>, y: BT)
    requires p != [] && Almost(o, t, h, lo, p) && Path(t, p[..|p| - 1]) && |p| <= h
    requires var x := Sub(t, p[..|p| - 1]);
      Inner(o, y, h - |p| + 1) && |y.recs| == |x.recs| + 1
    ensures Almost(o, Put(t, p[..|p| - 1], y), h, lo, p[..|p| - 1])
    decreases |p|
  {
    if |p| > 1 {
      assert p[1..][..|p| - 2] == p[..|p| - 1][1..];
      AlmostUp(o, t.kids[p[0]], h - 1, o.min, p[1..], y);
    }
  }

  lemma {:induction false} PathMore(t: BT, p: seq<nat>, i: nat)
    requires Path(t, p) && |Sub(t, p).kids| == |Sub(t, p).recs| + 1 && i < |Sub(t, p).kids|
    ensures Path(t, p + [i]) && Sub(t, p + [i]) == Sub(t, p).kids[i]
    decreases |p|
  {
    if p != [] {
      assert (p + [i])[1..] == p[1..] + [i];
      PathMore(t.kids[p[0]], p[1..], i);
    } else {
      assert ([] + [i])[1..] == [];
    }
  }

  // ---------------------------------------------------------------- cutting a node

  /** The two halves of an overfull node. */
  function LeftHalf(t: BT, sep: nat): BT
    requires sep < |t.recs|
  {
    BT(t.recs[..sep], if |t.kids| == |t.recs| + 1 then t.kids[..sep + 1] else [])
  }

  function RightHalf(t: BT, sep: nat): BT
    requires sep < |t.recs|
  {
    BT(t.recs[sep + 1..], if |t.kids| == |t.recs| + 1 then t.kids[sep + 1..] else [])
  }

  lemma HalvesInOrder(t: BT, sep: nat)
    requires sep < |t.recs| && (t.kids == [] || |t.kids| == |t.recs| + 1)
    ensures InOrder(t) == InOrder(LeftHalf(t, sep)) + [t.recs[sep]] + InOrder(RightHalf(t, sep))
  {
    if t.kids == [] {
      assert t.recs == LeftHalf(t, sep).recs + [t.recs[sep]] + RightHalf(t, sep).recs;
    } else {
      hide InOrder;
      InnerHalves(t, sep);
    }
  }

  lemma InnerHalves(t: BT, sep: nat)
    requires sep < |t.recs| && |t.kids| == |t.recs| + 1
    ensures InOrder(t) == InOrder(LeftHalf(t, sep)) + [t.recs[sep]] + InOrder(RightHalf(t, sep))
  {
    hide InOrder, Left, Right;
    var l, r := LeftHalf(t, sep), RightHalf(t, sep);
    Around(t, sep);
    LastChild(l);
    FirstChild(r);
    assert l.kids[..sep] == t.kids[..sep];
    LeftSplits(t.recs[sep..], t.kids[sep + 1..]);
    assert t.recs[sep..][1..] == r.recs && t.kids[sep + 1..][1..] == r.kids[1..];
    HalvesRegroup(Left(t.recs[..sep], t.kids[..sep]), InOrder(t.kids[sep]), [t.recs[sep]], InOrder(t.kids[sep + 1]),
      Right(r.recs, r.kids[1..]));
  }

  lemma LastChild(t: BT)
    requires |t.kids| == |t.recs| + 1
    ensures InOrder(t) == Left(t.recs, t.kids[..|t.recs|]) + InOrder(t.kids[|t.recs|])
  {
    hide Left;
  }

  lemma FirstChild(t: BT)
    requires |t.kids| == |t.recs| + 1
    ensures InOrder(t) == InOrder(t.kids[0]) + Right(t.recs, t.kids[1..])
  {
    LastChild(t);
    hide InOrder, Left, Right;
    Turns(t.recs, t.kids);
  }

  lemma Empty()
    ensures Left([], []) == [] && Right([], []) == []
  {
  }

  lemma HalvesRegroup<T>(a: seq<T>, x: seq<T>, d: seq<T>, y: seq<T>, b: seq<T>)
    ensures a + x + (d + y + b) == (a + x) + d + (y + b)
  {
  }

  lemma HalvesFit(o: Order, t: BT, h: nat)
    requires Valid(o) && |t.recs| == o.max + 1 && Inner(o, t, h)
    ensures Fits(o, LeftHalf(t, o.sep), h) && Fits(o, RightHalf(t, o.sep), h)
  {
  }

  /** The parent after its child `i` was cut. */
  function Widened(y: BT, i: nat, l: BT, d: Data, r: BT): BT
    requires i < |y.kids| && i <= |y.recs|
  {
    BT(y.recs[..i] + [d] + y.recs[i..], y.kids[..i] + [l, r] + y.kids[i + 1..])
  }

  lemma WidenedInOrder(y: BT, i: nat, l: BT, d: Data, r: BT)
    requires |y.kids| == |y.recs| + 1 && i < |y.kids| && InOrder(y.kids[i]) == InOrder(l) + [d] + InOrder(r)
    ensures InOrder(Widened(y, i, l, d, r)) == InOrder(y)
  {
    hide InOrder, Left, Right;
    var y' := Widened(y, i, l, d, r);
    Around(y, i);
    Around(y', i);
    assert y'.recs[..i] == y.recs[..i] && y'.kids[..i] == y.kids[..i] && y'.kids[i] == l;
    assert y'.recs[i..] == [d] + y.recs[i..] && y'.kids[i + 1..] == [r] + y.kids[i + 1..];
    RightJoins([d], [r], y.recs[i..], y.kids[i + 1..]);
    LeftOne(d, r, [d], [r]);
    var a, b := Left(y.recs[..i], y.kids[..i]), Right(y.recs[i..], y.kids[i + 1..]);
    WidenRegroup(a, InOrder(l), [d], InOrder(r), b);
  }

  lemma WidenRegroup<T>(a: seq<T>, x: seq<T>, d: seq<T>, y: seq<T>, b: seq<T>)
    ensures a + x + ((d + y) + b) == a + (x + d + y) + b
  {
  }

  lemma WidenedInner(o: Order, y: BT, h: nat, i: nat, l: BT, d: Data, r: BT)
    requires h > 0 && |y.kids| == |y.recs| + 1 && i < |y.kids| && Fits(o, l, h - 1) && Fits(o, r, h - 1)
    requires forall j :: 0 <= j < |y.kids| && j != i ==> Fits(o, y.kids[j], h - 1)
    ensures Inner(o, Widened(y, i, l, d, r), h)
  {
    hide Fits;
    var y' := Widened(y, i, l, d, r);
    forall j | 0 <= j < |y'.kids| ensures Fits(o, y'.kids[j], h - 1) {
      assert y'.kids[j] == if j < i then y.kids[j] else if j == i then l else if j == i + 1 then r else y.kids[j - 1];
    }
  }

  /** A new root over the halves of the old one. */
  lemma RootInOrder(t: BT, l: BT, d: Data, r: BT)
    requires InOrder(t) == InOrder(l) + [d] + InOrder(r)
    ensures InOrder(BT([d], [l, r])) == InOrder(t)
  {
    var t' := BT([d], [l, r]);
    Around(t', 0);
    hide InOrder;
    assert t'.recs[..0] == [] && t'.kids[..0] == [] && t'.recs[0..] == [d] && t'.kids[1..] == [r];
    Empty();
    LeftOne(d, r, [d], [r]);
    assert [] + InOrder(l) + ([d] + InOrder(r)) == InOrder(l) + [d] + InOrder(r);
  }

  lemma RootWhole(o: Order, h: nat, l: BT, d: Data, r: BT)
    requires Fits(o, l, h) && Fits(o, r, h) && Valid(o)
    ensures Whole(o, BT([d], [l, r]), h + 1)
  {
  }

  // ---------------------------------------------------------------- searching

  lemma {:induction false} LeftAscending(rs: seq<Data>, ks: seq<BT>)
    requires |rs| == |ks| && Ascending(Left(rs, ks))
    ensures Ascending(rs)
    decreases |rs|
  {
    hide InOrder, Left;
    if rs != [] {
      LeftSplits(rs, ks);
      var rest := Left(rs[1..], ks[1..]);
      AscendingApart(InOrder(ks[0]) + [rs[0]], rest, [], 0);
      assert InOrder(ks[0]) + [rs[0]] + rest + [] == Left(rs, ks);
      LeftAscending(rs[1..], ks[1..]);
      SplitAscending(InOrder(ks[0]), rs[0], rest);
      forall j | 1 <= j < |rs| ensures rs[0].key < rs[j].key {
        LeftHas(rs[1..], ks[1..], j - 1, 0);
        var i :| 0 <= i < |rest| && rest[i].key == rs[1..][j - 1].key;
      }
      assert forall j :: 1 <= j < |rs| ==> rs[j] == rs[1..][j - 1];
    }
  }

  lemma LeftSplits(rs: seq<Data>, ks: seq<BT>)
    requires |rs| == |ks| > 0
    ensures Left(rs, ks) == InOrder(ks[0]) + [rs[0]] + Left(rs[1..], ks[1..])
    ensures Right(rs, ks) == [rs[0]] + InOrder(ks[0]) + Right(rs[1..], ks[1..])
  {
    hide InOrder;
  }

  /** The records of a node are in order. */
  lemma RecsAscending(t: BT)
    requires (t.kids == [] || |t.kids| == |t.recs| + 1) && Ascending(InOrder(t))
    ensures Ascending(t.recs)
  {
    if t.kids == [] {
      assert InOrder(t) == t.recs;
    } else {
      var n := |t.recs|;
      Around(t, n);
      hide InOrder, Left, Right, Ascending;
      assert t.recs[..n] == t.recs;
      var a, x, b := Left(t.recs, t.kids[..n]), InOrder(t.kids[n]), Right(t.recs[n..], t.kids[n + 1..]);
      assert [] + a + (x + b) == a + x + b;
      AscendingApart([], a, x + b, 0);
      LeftAscending(t.recs, t.kids[..n]);
    }
  }

  /** Between the records below a key and those above it, everything before is below, everything behind above. */
  lemma Between(t: BT, c: nat, key: int)
    requires |t.kids| == |t.recs| + 1 && c < |t.kids| && Ascending(InOrder(t))
    requires c > 0 ==> t.recs[c - 1].key < key
    requires c < |t.recs| ==> key < t.recs[c].key
    ensures Below(Left(t.recs[..c], t.kids[..c]), key) && Above(Right(t.recs[c..], t.kids[c + 1..]), key)
  {
    hide InOrder, Left, Right;
    Around(t, c);
    var a, x, b := Left(t.recs[..c], t.kids[..c]), InOrder(t.kids[c]), Right(t.recs[c..], t.kids[c + 1..]);
    if c > 0 {
      LeftJoins(t.recs[..c - 1], t.kids[..c - 1], t.recs[c - 1..c], t.kids[c - 1..c]);
      LeftOne(t.recs[c - 1], t.kids[c - 1], t.recs[c - 1..c], t.kids[c - 1..c]);
      assert t.recs[..c] == t.recs[..c - 1] + t.recs[c - 1..c] && t.kids[..c] == t.kids[..c - 1] + t.kids[c - 1..c];
      assert a[|a| - 1] == t.recs[c - 1];
      assert a + (x + b) == a + x + b;
      UpToLast(a, x + b, key);
    } else {
      Empty();
      assert t.recs[..c] == [] && t.kids[..c] == [];
    }
    if c < |t.recs| {
      LeftSplits(t.recs[c..], t.kids[c + 1..]);
      assert b[0] == t.recs[c];
      FromFirst(a + x, b, key);
    } else {
      Empty();
      assert t.recs[c..] == [] && t.kids[c + 1..] == [];
    }
  }

  lemma UpToLast(a: seq<Data>, b: seq<Data>, key: int)
    requires Ascending(a + b) && a != [] && a[|a| - 1].key < key
    ensures Below(a, key)
  {
    forall i | 0 <= i < |a| ensures a[i].key < key {
      assert (a + b)[i] == a[i] && (a + b)[|a| - 1] == a[|a| - 1];
    }
  }

  lemma FromFirst(a: seq<Data>, b: seq<Data>, key: int)
    requires Ascending(a + b) && b != [] && key < b[0].key
    ensures Above(b, key)
  {
    forall i | 0 <= i < |b| ensures key < b[i].key {
      assert (a + b)[|a| + i] == b[i] && (a + b)[|a|] == b[0];
    }
  }

  /** What a search knows at place `p`: the key, if present, is in the subtree there. */
  ghost predicate Narrowed(t: BT, p: seq<nat>, key: int)
    requires Path(t, p)
  {
    Below(Ahead(t, p), key) && Above(Behind(t, p), key)
  }

  /** Down into child `c`. */
  lemma {:induction false} NarrowedMore(t: BT, p: seq<nat>, c: nat, key: int)
    requires Ascending(InOrder(t)) && Path(t, p) && Narrowed(t, p, key)
    requires var y := Sub(t, p);
      |y.kids| == |y.recs| + 1 && c < |y.kids| && (c > 0 ==> y.recs[c - 1].key < key)
      && (c < |y.recs| ==> key < y.recs[c].key)
    ensures Path(t, p + [c]) && Sub(t, p + [c]) == Sub(t, p).kids[c] && Narrowed(t, p + [c], key)
  {
    hide InOrder, Left, Right, Path, Sub;
    var y := Sub(t, p);
    SubInOrder(t, p);
    AscendingApart(Ahead(t, p), InOrder(y), Behind(t, p), 0);
    Between(y, c, key);
    PathMore(t, p, c);
    AheadMore(t, p, c);
  }

  lemma {:induction false} AheadMore(t: BT, p: seq<nat>, c: nat)
    requires Path(t, p) && Path(t, p + [c])
    ensures var y := Sub(t, p);
      c < |y.kids| == |y.recs| + 1
      && Ahead(t, p + [c]) == Ahead(t, p) + Left(y.recs[..c], y.kids[..c])
      && Behind(t, p + [c]) == Right(y.recs[c..], y.kids[c + 1..]) + Behind(t, p)
    decreases |p|
  {
    hide Left, Right, InOrder;
    if p == [] {
      assert ([] + [c])[1..] == [] && ([] + [c])[0] == c;
      assert Ahead(t, [] + [c]) == Left(t.recs[..c], t.kids[..c]) + [];
    } else {
      assert (p + [c])[1..] == p[1..] + [c];
      AheadMore(t.kids[p[0]], p[1..], c);
    }
  }

  /** A key at a place where it would be the next record of a leaf, and is not. */
  lemma LeafMisses(t: BT, p: seq<nat>, c: nat, d: Data)
    requires Ascending(InOrder(t)) && Path(t, p) && Narrowed(t, p, d.key) && Sub(t, p).kids == []
    requires var y := Sub(t, p);
      c <= |y.recs| && (c > 0 ==> y.recs[c - 1].key < d.key)
      && (c < |y.recs| ==> d.key < y.recs[c].key)
    ensures Lookup(AsMap(InOrder(t)), d.key) == None
    ensures var y := Sub(t, p);
      var t' := Put(t, p, BT(y.recs[..c] + [d] + y.recs[c..], []));
      Ascending(InOrder(t')) && AsMap(InOrder(t')) == AsMap(InOrder(t))[d.key := d]
  {
    hide *;
    var y := Sub(t, p);
    var y' := BT(y.recs[..c] + [d] + y.recs[c..], []);
    SubInOrder(t, p);
    PutInOrder(t, p, y');
    LeafOrder(y);
    LeafOrder(y');
    assert y.recs == y.recs[..c] + y.recs[c..];
    NarrowedIs(t, p, d.key);
    RunMisses(Ahead(t, p), y.recs[..c], d, y.recs[c..], Behind(t, p), c);
  }

  lemma RunMisses(a: seq<Data>, l: seq<Data>, d: Data, r: seq<Data>, b: seq<Data>, c: nat)
    requires Ascending(a + (l + r) + b) && Below(a, d.key) && Above(b, d.key)
    requires |l| == c && (l != [] ==> l[c - 1].key < d.key) && (r != [] ==> d.key < r[0].key)
    ensures Lookup(AsMap(a + (l + r) + b), d.key) == None
    ensures Ascending(a + (l + [d] + r) + b) && AsMap(a + (l + [d] + r) + b) == AsMap(a + (l + r) + b)[d.key := d]
  {
    hide AsMap, Lookup;
    AscendingApart(a, l + r, b, 0);
    Sides(l, r, d.key, a, b, c);
    hide Ascending, Below, Above;
    assert a + (l + r) + b == (a + l) + (r + b);
    assert a + (l + [d] + r) + b == (a + l) + [d] + (r + b);
    NotFound(a + l, r + b, d.key);
    Added(a + l, d, r + b);
  }

  lemma LeafOrder(t: BT)
    ensures t.kids == [] ==> InOrder(t) == t.recs
  {
  }

  lemma NarrowedIs(t: BT, p: seq<nat>, key: int)
    requires Path(t, p) && Narrowed(t, p, key)
    ensures Below(Ahead(t, p), key) && Above(Behind(t, p), key)
  {
  }

  lemma Sides(l: seq<Data>, r: seq<Data>, key: int, a: seq<Data>, b: seq<Data>, c: nat)
    requires Ascending(l + r) && |l| == c && (l != [] ==> l[c - 1].key < key) && (r != [] ==> key < r[0].key)
    requires Below(a, key) && Above(b, key)
    ensures Below(a + l, key) && Above(r + b, key)
  {
    if l != [] { UpToLast(l, r, key); }
    if r != [] { FromFirst(l, r, key); }
  }

  /** A key that is there. */
  lemma Found(t: BT, p: seq<nat>, j: nat)
    requires Ascending(InOrder(t)) && Path(t, p)
    requires var y := Sub(t, p); (y.kids == [] || |y.kids| == |y.recs| + 1) && j < |y.recs|
    ensures Lookup(AsMap(InOrder(t)), Sub(t, p).recs[j].key) == Some(Sub(t, p).recs[j])
  {
    hide Ahead, Behind, Path, Sub, AsMap, Lookup;
    var y := Sub(t, p);
    var d := y.recs[j];
    SubInOrder(t, p);
    var a, b := OwnPlace(y, j);
    var a', b' := Ahead(t, p), Behind(t, p);
    hide InOrder, Ascending;
    assert a' + (a + [d] + b) + b' == (a' + a) + [d] + (b + b');
    FoundAt(a' + a, d, b + b');
  }

  lemma OwnPlace(t: BT, j: nat) returns (a: seq<Data>, b: seq<Data>)
    requires (t.kids == [] || |t.kids| == |t.recs| + 1) && j < |t.recs|
    ensures InOrder(t) == a + [t.recs[j]] + b
  {
    if t.kids == [] {
      a, b := t.recs[..j], t.recs[j + 1..];
    } else {
      Around(t, j);
      hide InOrder, Left, Right;
      LeftSplits(t.recs[j..], t.kids[j + 1..]);
      a := Left(t.recs[..j], t.kids[..j]) + InOrder(t.kids[j]);
      b := InOrder(t.kids[j + 1]) + Right(t.recs[j..][1..], t.kids[j + 1..][1..]);
      assert a + ([t.recs[j]] + InOrder(t.kids[j + 1]) + Right(t.recs[j..][1..], t.kids[j + 1..][1..]))
        == a + [t.recs[j]] + b;
    }
  }

  /** The keys of a child lie between the records around it. */
  lemma KeyBetween(t: BT, i: nat, key: int)
    requires |t.kids| == |t.recs| + 1 && i < |t.kids| && Ascending(InOrder(t)) && HasKey(InOrder(t.kids[i]), key)
    ensures i > 0 ==> t.recs[i - 1].key < key
    ensures i < |t.recs| ==> key < t.recs[i].key
  {
    hide InOrder, Left, Right;
    Around(t, i);
    var a, x, b := Left(t.recs[..i], t.kids[..i]), InOrder(t.kids[i]), Right(t.recs[i..], t.kids[i + 1..]);
    var k :| 0 <= k < |x| && x[k].key == key;
    assert (a + x + b)[|a| + k] == x[k];
    if i > 0 {
      LeftJoins(t.recs[..i - 1], t.kids[..i - 1], t.recs[i - 1..i], t.kids[i - 1..i]);
      LeftOne(t.recs[i - 1], t.kids[i - 1], t.recs[i - 1..i], t.kids[i - 1..i]);
      assert t.recs[..i] == t.recs[..i - 1] + t.recs[i - 1..i] && t.kids[..i] == t.kids[..i - 1] + t.kids[i - 1..i];
      assert (a + x + b)[|a| - 1] == a[|a| - 1] == t.recs[i - 1];
    }
    if i < |t.recs| {
      LeftSplits(t.recs[i..], t.kids[i + 1..]);
      assert (a + x + b)[|a| + |x|] == b[0] == t.recs[i];
    }
  }

  /** Every place of a tree that is all right is all right; a leaf is at full depth. */
  lemma {:induction false} SubFits(o: Order, t: BT, h: nat, lo: nat, p: seq<nat>)
    requires lo <= |t.recs| <= o.max && Inner(o, t, h) && Path(t, p)
    ensures var y := Sub(t, p);
      && |p| <= h && Inner(o, y, h - |p|) && (if p == [] then lo else o.min) <= |y.recs| <= o.max
      && (y.kids == [] ==> |p| == h)
    decreases |p|
  {
    if p != [] {
      assert Fits(o, t.kids[p[0]], h - 1);
      SubFits(o, t.kids[p[0]], h - 1, o.min, p[1..]);
    }
  }
}
