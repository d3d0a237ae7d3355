/** The steps of `btree_split` on single nodes, and that together they turn one overfull child into two. */
module BSplit {
  import opened Records
  import opened BShape
  import opened BNodes

  // ---------------------------------------------------------------- single nodes

  /** A record put at place `i`, with the child after it. */
  ghost predicate IsWidened(f: Fields, g: Fields, i: nat, key: int, data: int, child: Node) {
    && i <= f.num && f.num + 1 <= |f.key| && |g.key| == |f.key| && |g.data| == |f.data| == |f.key|
       && |g.child| == |f.child|
    && f.num + 2 <= |f.child| && g.num == f.num + 1 && g.parent == f.parent
    && (forall j {:trigger g.key[j]} :: 0 <= j <= f.num ==> g.key[j] == if j < i then f.key[j] else if j == i then key
       else f.key[j - 1])
    && (forall j {:trigger g.data[j]} :: 0 <= j <= f.num ==> g.data[j] == if j < i then f.data[j]
       else if j == i then data else f.data[j - 1])
    && forall j {:trigger g.child[j]} :: 0 <= j <= f.num + 1 ==> g.child[j] == if j <= i then f.child[j]
       else if j == i + 1 then child else f.child[j - 1]
  }

  /** What stays before the cut; all places after it are cleared. */
  ghost predicate IsLeft(f: Fields, g: Fields, sep: nat) {
    && sep < f.num <= |f.key| && |g.key| == |f.key| && |g.data| == |f.data| == |f.key| && |g.child| == |f.child| > sep
    && g.num == sep
    && (forall j :: 0 <= j < sep ==> g.key[j] == f.key[j] && g.data[j] == f.data[j])
    && (forall j :: 0 <= j < |g.child| ==> g.child[j] == if j <= sep then f.child[j] else null)
  }

  /** What goes to the new node. */
  ghost predicate IsRight(f: Fields, g: Fields, sep: nat) {
    && sep < f.num <= |f.key| && |g.key| == |f.key| && |g.data| == |f.data| == |f.key| && |g.child| == |f.child| > f.num
    && g.num == f.num - sep - 1
    && (forall j {:trigger g.key[j]} :: 0 <= j < g.num ==> g.key[j] == f.key[sep + 1 + j])
    && (forall j {:trigger g.data[j]} :: 0 <= j < g.num ==> g.data[j] == f.data[sep + 1 + j])
    && (forall j {:trigger g.child[j]} :: 0 <= j < |g.child| ==> g.child[j] == if j <= g.num then f.child[sep + 1 + j]
       else null)
  }

  lemma WidenedRecs(f: Fields, g: Fields, i: nat, key: int, data: int, child: Node)
    requires IsWidened(f, g, i, key, data, child)
    ensures Recs(g) == Recs(f)[..i] + [Data(key, data)] + Recs(f)[i..]
  {
    var s := Recs(f)[..i] + [Data(key, data)] + Recs(f)[i..];
    forall j | 0 <= j < g.num ensures Recs(g)[j] == s[j] {
      assert s[j] == if j < i then Recs(f)[j] else if j == i then Data(key, data) else Recs(f)[j - 1];
    }
  }

  lemma LeftRecs(f: Fields, g: Fields, sep: nat)
    requires IsLeft(f, g, sep)
    ensures Recs(g) == Recs(f)[..sep]
  {
  }

  lemma RightRecs(f: Fields, g: Fields, sep: nat)
    requires IsRight(f, g, sep)
    ensures Recs(g) == Recs(f)[sep + 1..]
  {
  }

  // ---------------------------------------------------------------- the store after a cut

  ghost predicate InHeads(n: Node, kids: seq<Tree>) { exists j :: 0 <= j < |kids| && kids[j].node == n }

  /** A child of the overfull node, after its parent may have changed. */
  ghost predicate Moved(m: Store, m': Store, u: Tree, j: nat, max: nat, c: nat, node2: Node)
    requires j < |u.kids|
  {
    var k := u.kids[j];
    Rep(m', k, max) && AsBT(m', k) == AsBT(m, k) && k.node in m'.Keys && m'[k.node].parent == if j < c then u.node
      else node2
  }

  /** Nodes with a key below `u` other than `u` itself: changed only if they are the moved children. */
  ghost predicate MovedOnly(m: Store, m': Store, u: Tree, moved: seq<Tree>, node2: Node) {
    forall n :: n in m.Keys && n != u.node && Mine(m, n, InOrder(AsBT(m, u))) ==>
      n in m'.Keys && m'[n] == (if InHeads(n, moved) then m[n].(parent := node2) else m[n])
  }

  ghost predicate AllMoved(m: Store, m': Store, u: Tree, max: nat, c: nat, node2: Node) {
    forall j :: 0 <= j < |u.kids| ==> Moved(m, m', u, j, max, c, node2)
  }

  lemma KidsMoved(m: Store, m': Store, u: Tree, max: nat, c: nat, node2: Node)
    requires Rep(m, u, max) && Ascending(InOrder(AsBT(m, u))) && c <= |u.kids|
      && MovedOnly(m, m', u, u.kids[c..], node2)
    ensures AllMoved(m, m', u, max, c, node2)
  {
    hide Rep, AsBT, InOrder, HasKey, Ascending, Rooted, MovedOnly;
    forall j | 0 <= j < |u.kids| ensures Moved(m, m', u, j, max, c, node2) {
      var k := u.kids[j];
      RepParts(m, u, max);
      KidIsOther(m, u, max, j);
      KidParent(m, u, max, j);
      KidMoved(m, m', u, max, c, node2, j);
      FrameKid(m, m', k, max);
    }
  }

  lemma KidParent(m: Store, u: Tree, max: nat, j: nat)
    requires Rooted(m, u, max) && j < |u.kids|
    ensures u.node in m.Keys && u.kids[j].node in m.Keys && m[u.kids[j].node].parent == u.node
    ensures j < |m[u.node].child| && m[u.node].child[j] == u.kids[j].node
  {
    assert Hung(m, m[u.node], u.node, u.kids, j);
  }

  lemma FrameKid(m: Store, m': Store, k: Tree, max: nat)
    requires Rep(m, k, max) && Ascending(InOrder(AsBT(m, k))) && Same(m, m', InOrder(AsBT(m, k)), k.node)
    ensures Rep(m', k, max) && AsBT(m', k) == AsBT(m, k)
  {
    Frame(m, m', k, max);
  }

  /** Two children with the same node would share its first key. */
  lemma KidMoved(m: Store, m': Store, u: Tree, max: nat, c: nat, node2: Node, j: nat)
    requires Rep(m, u, max) && Ascending(InOrder(AsBT(m, u))) && c <= |u.kids|
      && MovedOnly(m, m', u, u.kids[c..], node2) && j < |u.kids|
    ensures var k := u.kids[j];
      && k.node in m.Keys && k.node in m'.Keys && m'[k.node].parent == (if j < c then m[k.node].parent else node2)
      && Same(m, m', InOrder(AsBT(m, k)), k.node)
  {
    hide Rep, AsBT, InOrder, HasKey, Ascending, Rooted;
    var k := u.kids[j];
    RepParts(m, u, max);
    KidIsOther(m, u, max, j);
    FirstIsMine(m, k, max);
    if j >= c { assert u.kids[c..][j - c] == k; }
    if j < c && InHeads(k.node, u.kids[c..]) {
      var i :| 0 <= i < |u.kids[c..]| && u.kids[c..][i].node == k.node;
      OneHead(m, u, max, j, c + i);
    }
    forall n | n in m.Keys && n != k.node && Mine(m, n, InOrder(AsBT(m, k))) ensures n in m'.Keys && m'[n] == m[n] {
      KidsApart(AsBT(m, u), j, 0, m[n].key[0]);
      assert n != u.node;
      if InHeads(n, u.kids[c..]) {
        var i :| 0 <= i < |u.kids[c..]| && u.kids[c..][i].node == n;
        KidIsOther(m, u, max, c + i);
        FirstIsMine(m, u.kids[c + i], max);
        KidsApart(AsBT(m, u), j, c + i, m[n].key[0]);
      }
    }
  }

  lemma OneHead(m: Store, u: Tree, max: nat, i: nat, j: nat)
    requires Rep(m, u, max) && Ascending(InOrder(AsBT(m, u))) && i < |u.kids| && j < |u.kids|
      && u.kids[i].node == u.kids[j].node
    ensures i == j
  {
    hide Rep, AsBT, InOrder, HasKey, Ascending, Rooted;
    RepParts(m, u, max);
    KidIsOther(m, u, max, i);
    KidIsOther(m, u, max, j);
    FirstIsMine(m, u.kids[i], max);
    FirstIsMine(m, u.kids[j], max);
    KidsApart(AsBT(m, u), i, j, m[u.kids[i].node].key[0]);
  }

  // ---------------------------------------------------------------- the halves

  ghost function LeftTree(u: Tree, sep: nat): Tree {
    if sep + 1 <= |u.kids| then Tree(u.node, u.kids[..sep + 1]) else Tree(u.node, [])
  }

  ghost function RightTree(u: Tree, sep: nat, node2: Node): Tree {
    if sep + 1 <= |u.kids| then Tree(node2, u.kids[sep + 1..]) else Tree(node2, [])
  }

  lemma LeftIsRep(m: Store, m': Store, u: Tree, max: nat, sep: nat, node2: Node)
    requires Rep(m, u, max) && u.node in m.Keys && u.node in m'.Keys && 1 <= sep < m[u.node].num
      && IsLeft(m[u.node], m'[u.node], sep)
    requires AllMoved(m, m', u, max, sep + 1, node2)
    ensures Rep(m', LeftTree(u, sep), max) && AsBT(m', LeftTree(u, sep)) == LeftHalf(AsBT(m, u), sep)
  {
    hide Rep, AsBT;
    RepParts(m, u, max);
    LeftRecs(m[u.node], m'[u.node], sep);
    var l := LeftTree(u, sep);
    forall j | 0 <= j < |l.kids|
      ensures Hung(m', m'[l.node], l.node, l.kids, j) && Rep(m', l.kids[j], max)
        && AsBT(m', l.kids[j]) == AsBT(m, u.kids[j])
    {
      assert Moved(m, m', u, j, max, sep + 1, node2) && Hung(m, m[u.node], u.node, u.kids, j);
    }
    RepFrom(m', l, max);
    RepParts(m', l, max);
    assert AsBT(m', l).kids == LeftHalf(AsBT(m, u), sep).kids;
  }

  lemma RightIsRep(m: Store, m': Store, u: Tree, max: nat, sep: nat, node2: Node)
    requires Rep(m, u, max) && u.node in m.Keys && node2 in m'.Keys && sep + 1 < m[u.node].num
      && IsRight(m[u.node], m'[node2], sep)
    requires AllMoved(m, m', u, max, sep + 1, node2)
    ensures Rep(m', RightTree(u, sep, node2), max) && AsBT(m', RightTree(u, sep, node2)) == RightHalf(AsBT(m, u), sep)
  {
    hide Rep, AsBT;
    RepParts(m, u, max);
    RightRecs(m[u.node], m'[node2], sep);
    var r := RightTree(u, sep, node2);
    forall j | 0 <= j < |r.kids|
      ensures Hung(m', m'[r.node], r.node, r.kids, j) && Rep(m', r.kids[j], max)
        && AsBT(m', r.kids[j]) == AsBT(m, u.kids[sep + 1 + j])
    {
      assert Moved(m, m', u, sep + 1 + j, max, sep + 1, node2) && Hung(m, m[u.node], u.node, u.kids, sep + 1 + j);
    }
    RepFrom(m', r, max);
    RepParts(m', r, max);
    assert AsBT(m', r).kids == RightHalf(AsBT(m, u), sep).kids;
  }

  // ---------------------------------------------------------------- the parent

  ghost function WidenedTree(y: Tree, i: nat, sep: nat, node2: Node): (r: Tree)
    requires i < |y.kids|
    ensures r.node == y.node
  {
    y.(kids := y.kids[..i] + [LeftTree(y.kids[i], sep), RightTree(y.kids[i], sep, node2)] + y.kids[i + 1..])
  }

  /** The cut of child `i` of a node with room for one more record, as all the nodes concerned stand after it. */
  ghost predicate CutBelow(m: Store, m': Store, y: Tree, i: nat, sep: nat, node2: Node)
    requires i < |y.kids|
  {
    var u := y.kids[i];
    && y.node in m.Keys && u.node in m.Keys && node2 !in m.Keys && sep < m[u.node].num
    && sep < |m[u.node].key| && sep < |m[u.node].data|
    && y.node in m'.Keys && u.node in m'.Keys && node2 in m'.Keys
    && IsLeft(m[u.node], m'[u.node], sep) && IsRight(m[u.node], m'[node2], sep) && m'[node2].parent == y.node
       && m'[u.node].parent == m[u.node].parent
    && IsWidened(m[y.node], m'[y.node], i, m[u.node].key[sep], m[u.node].data[sep], node2)
    && forall n :: n in m.Keys && n != u.node && n != y.node ==>
         n in m'.Keys && m'[n] == if InHeads(n, if sep + 1 <= |u.kids| then u.kids[sep + 1..] else [])
           then m[n].(parent := node2) else m[n]
  }

  lemma CutMoves(m: Store, m': Store, y: Tree, i: nat, sep: nat, node2: Node, max: nat)
    requires Rep(m, y, max) && Ascending(InOrder(AsBT(m, y))) && i < |y.kids| && CutBelow(m, m', y, i, sep, node2)
    ensures var u := y.kids[i];
      && Rep(m, u, max) && Ascending(InOrder(AsBT(m, u)))
      && (u.kids != [] ==> MovedOnly(m, m', u, u.kids[sep + 1..], node2) && sep + 1 <= |u.kids|)
  {
    hide Rep, AsBT, InOrder, HasKey, Ascending, Rooted, IsLeft, IsRight, IsWidened;
    RepParts(m, y, max);
    KidIsOther(m, y, max, i);
    RepParts(m, y.kids[i], max);
    CutRoom(m, m', y, i, sep, node2, max);
  }

  lemma CutRoom(m: Store, m': Store, y: Tree, i: nat, sep: nat, node2: Node, max: nat)
    requires i < |y.kids| && CutBelow(m, m', y, i, sep, node2)
    ensures sep < m[y.kids[i].node].num
  {
  }

  /** The other children of the parent are untouched. */
  lemma CutSpares(m: Store, m': Store, y: Tree, i: nat, sep: nat, node2: Node, max: nat, k: nat)
    requires Rep(m, y, max) && Ascending(InOrder(AsBT(m, y))) && i < |y.kids| && CutBelow(m, m', y, i, sep, node2)
    requires k < |y.kids| && k != i
    ensures SameKid(m, m', y.kids[k], max)
  {
    hide Rep, AsBT, InOrder, HasKey, Ascending, Rooted, IsLeft, IsRight, IsWidened;
    var u, v := y.kids[i], y.kids[k];
    RepParts(m, y, max);
    KidIsOther(m, y, max, i);
    KidIsOther(m, y, max, k);
    FirstIsMine(m, u, max);
    FirstIsMine(m, v, max);
    forall n | n in m.Keys && Mine(m, n, InOrder(AsBT(m, v))) ensures n in m'.Keys && m'[n] == m[n] {
      KidsApart(AsBT(m, y), k, i, m[n].key[0]);
      assert n != y.node && n != u.node;
      if InHeads(n, u.kids) {
        var j :| 0 <= j < |u.kids| && u.kids[j].node == n;
        KidIsOther(m, u, max, j);
      }
      TailHeads(n, u.kids, sep + 1);
    }
    Frame(m, m', v, max);
  }

  lemma TailHeads(n: Node, kids: seq<Tree>, c: nat)
    ensures InHeads(n, if c <= |kids| then kids[c..] else []) ==> InHeads(n, kids)
  {
    if c <= |kids| && InHeads(n, kids[c..]) {
      var j :| 0 <= j < |kids[c..]| && kids[c..][j].node == n;
      assert kids[c + j].node == n;
    }
  }

  /** One overfull child becomes two, and the parent one record wider. */
  lemma CutKeeps(m: Store, m': Store, y: Tree, i: nat, sep: nat, node2: Node, max: nat)
    requires Rep(m, y, max) && Ascending(InOrder(AsBT(m, y))) && i < |y.kids| && CutBelow(m, m', y, i, sep, node2)
    requires 1 <= sep && sep + 1 < m[y.kids[i].node].num && m[y.node].num <= max
    ensures var y', t := WidenedTree(y, i, sep, node2), AsBT(m, y.kids[i]);
      && Rep(m', y', max) && sep < |t.recs| && |AsBT(m, y).kids| == |y.kids| && |AsBT(m, y).recs| + 1 == |y.kids|
      && AsBT(m', y') == Widened(AsBT(m, y), i, LeftHalf(t, sep), t.recs[sep], RightHalf(t, sep))
      && y.node in m.Keys && y.node in m'.Keys
      && m'[y.node].parent == m[y.node].parent && Elsewhere(m, m', InOrder(AsBT(m, y)))
  {
    hide Rep, AsBT, InOrder, HasKey, Ascending, Rooted;
    var u, y' := y.kids[i], WidenedTree(y, i, sep, node2);
    RepParts(m, y, max);
    CutMoves(m, m', y, i, sep, node2, max);
    RepParts(m, u, max);
    if u.kids != [] { KidsMoved(m, m', u, max, sep + 1, node2); }
    LeftIsRep(m, m', u, max, sep, node2);
    RightIsRep(m, m', u, max, sep, node2);
    forall k | 0 <= k < |y.kids| && k != i
      ensures SameKid(m, m', y.kids[k], max)
    {
      CutSpares(m, m', y, i, sep, node2, max, k);
    }
    CutElsewhere(m, m', y, i, sep, node2, max);
    KidParent(m, y, max, i);
    WidenedIsRep(m, m', y, i, sep, node2, max);
  }

  lemma CutElsewhere(m: Store, m': Store, y: Tree, i: nat, sep: nat, node2: Node, max: nat)
    requires Rep(m, y, max) && Ascending(InOrder(AsBT(m, y))) && i < |y.kids| && CutBelow(m, m', y, i, sep, node2)
    ensures Elsewhere(m, m', InOrder(AsBT(m, y)))
  {
    hide Rep, AsBT, InOrder, HasKey, Ascending, Rooted, IsLeft, IsRight, IsWidened;
    var u := y.kids[i];
    RepParts(m, y, max);
    KidIsOther(m, y, max, i);
    FirstIsMine(m, y, max);
    forall n | n in m.Keys && !Mine(m, n, InOrder(AsBT(m, y))) ensures n in m'.Keys && m'[n] == m[n] {
      TailHeads(n, u.kids, sep + 1);
      if InHeads(n, u.kids) {
        var j :| 0 <= j < |u.kids| && u.kids[j].node == n;
        KidIsOther(m, u, max, j);
        KidsApart(AsBT(m, y), i, 0, m[n].key[0]);
      }
    }
  }

  lemma WidenedIsRep(m: Store, m': Store, y: Tree, i: nat, sep: nat, node2: Node, max: nat)
    requires Rep(m, y, max) && i < |y.kids| && CutBelow(m, m', y, i, sep, node2) && m[y.node].num <= max
      && |y.kids| == m[y.node].num + 1
    requires forall k :: 0 <= k < |y.kids| && k != i ==> SameKid(m, m', y.kids[k], max)
    requires var u := y.kids[i];
      && Rep(m', LeftTree(u, sep), max) && Rep(m', RightTree(u, sep, node2), max)
      && m[u.node].parent == y.node && sep < |AsBT(m, u).recs| && Rep(m, u, max)
      && AsBT(m', LeftTree(u, sep)) == LeftHalf(AsBT(m, u), sep)
         && AsBT(m', RightTree(u, sep, node2)) == RightHalf(AsBT(m, u), sep)
    ensures var y', t := WidenedTree(y, i, sep, node2), AsBT(m, y.kids[i]);
      && Rep(m', y', max) && |AsBT(m, y).kids| == |y.kids| && |AsBT(m, y).recs| + 1 == |y.kids|
      && AsBT(m', y') == Widened(AsBT(m, y), i, LeftHalf(t, sep), t.recs[sep], RightHalf(t, sep))
  {
    hide Rep, AsBT, LeftTree, RightTree, LeftHalf, RightHalf, IsLeft, IsRight, IsWidened;
    var u, y' := y.kids[i], WidenedTree(y, i, sep, node2);
    var l, r := LeftTree(u, sep), RightTree(u, sep, node2);
    HalfNodes(u, sep, node2);
    RepParts(m, y, max);
    RepParts(m, u, max);
    forall k | 0 <= k < |y'.kids| ensures Rep(m', y'.kids[k], max) {
      assert k < i ==> SameKid(m, m', y.kids[k], max) && y'.kids[k] == y.kids[k];
      assert k > i + 1 ==> SameKid(m, m', y.kids[k - 1], max) && y'.kids[k] == y.kids[k - 1];
    }
    WidenedRooted(m, m', y, i, sep, node2, max);
    RepFrom(m', y', max);
    RepParts(m', y', max);
    WidenedValue(m, m', y, i, sep, node2, max);
  }

  lemma HalfNodes(u: Tree, sep: nat, node2: Node)
    ensures LeftTree(u, sep).node == u.node && RightTree(u, sep, node2).node == node2
  {
  }

  lemma WidenedRooted(m: Store, m': Store, y: Tree, i: nat, sep: nat, node2: Node, max: nat)
    requires Rooted(m, y, max) && i < |y.kids| && CutBelow(m, m', y, i, sep, node2) && m[y.node].num <= max
      && |y.kids| == m[y.node].num + 1
    requires forall k :: 0 <= k < |y.kids| && k != i ==> SameKid(m, m', y.kids[k], max)
    requires m[y.kids[i].node].parent == y.node
    ensures Rooted(m', WidenedTree(y, i, sep, node2), max)
  {
    hide SameKid, LeftTree, RightTree, IsLeft, IsRight, IsWidened;
    WidenedSize(m[y.node], m'[y.node], i, m[y.kids[i].node].key[sep], m[y.kids[i].node].data[sep], node2);
    var y' := WidenedTree(y, i, sep, node2);
    HalfNodes(y.kids[i], sep, node2);
    forall k | 0 <= k < |y'.kids| ensures Hung(m', m'[y'.node], y'.node, y'.kids, k) {
      var o := if k <= i then k else k - 1;
      assert Hung(m, m[y.node], y.node, y.kids, o);
      if o != i { KidIsSame(m, m', y.kids[o], max); }
      WidenedChild(m[y.node], m'[y.node], i, m[y.kids[i].node].key[sep], m[y.kids[i].node].data[sep], node2, k);
      if k < i {
        assert y'.kids[k] == y.kids[o];
      } else if k == i {
        assert y'.kids[k] == LeftTree(y.kids[i], sep);
      } else if k == i + 1 {
        assert y'.kids[k] == RightTree(y.kids[i], sep, node2);
      } else {
        assert y'.kids[k] == y.kids[o];
      }
    }
  }

  lemma WidenedSize(f: Fields, g: Fields, i: nat, key: int, data: int, child: Node)
    requires IsWidened(f, g, i, key, data, child)
    ensures |g.key| == |f.key| && |g.data| == |f.data| && |g.child| == |f.child| && g.num == f.num + 1
  {
  }

  lemma WidenedChild(f: Fields, g: Fields, i: nat, key: int, data: int, child: Node, k: nat)
    requires IsWidened(f, g, i, key, data, child) && k <= f.num + 1
    ensures k < |g.child| && (if k <= i then k else k - 1) < |f.child|
    ensures g.child[k] == if k == i + 1 then child else f.child[if k <= i then k else k - 1]
  {
  }

  lemma KidIsSame(m: Store, m': Store, t: Tree, max: nat)
    requires SameKid(m, m', t, max)
    ensures t.node in m.Keys && t.node in m'.Keys && m'[t.node] == m[t.node]
  {
  }

  lemma WidenedValue(m: Store, m': Store, y: Tree, i: nat, sep: nat, node2: Node, max: nat)
    requires Rep(m, y, max) && i < |y.kids| && Rep(m, y.kids[i], max) && CutBelow(m, m', y, i, sep, node2)
      && |y.kids| == m[y.node].num + 1
    requires Rep(m', WidenedTree(y, i, sep, node2), max)
    requires forall k :: 0 <= k < |y.kids| && k != i ==> SameKid(m, m', y.kids[k], max)
    requires var u := y.kids[i];
      && sep < |AsBT(m, u).recs|
      && AsBT(m', LeftTree(u, sep)) == LeftHalf(AsBT(m, u), sep)
         && AsBT(m', RightTree(u, sep, node2)) == RightHalf(AsBT(m, u), sep)
    ensures var y', t := WidenedTree(y, i, sep, node2), AsBT(m, y.kids[i]);
      && |AsBT(m, y).kids| == |y.kids| && |AsBT(m, y).recs| + 1 == |y.kids|
      && AsBT(m', y') == Widened(AsBT(m, y), i, LeftHalf(t, sep), t.recs[sep], RightHalf(t, sep))
  {
    hide Rep, AsBT, LeftTree, RightTree, LeftHalf, RightHalf, IsLeft, IsRight, IsWidened, Rooted, SameKid;
    var u, y' := y.kids[i], WidenedTree(y, i, sep, node2);
    RepParts(m, y, max);
    RepParts(m, u, max);
    RepParts(m', y', max);
    WidenedRecs(m[y.node], m'[y.node], i, m[u.node].key[sep], m[u.node].data[sep], node2);
    var t := AsBT(m, u);
    var w := Widened(AsBT(m, y), i, LeftHalf(t, sep), t.recs[sep], RightHalf(t, sep));
    assert t.recs[sep] == Data(m[u.node].key[sep], m[u.node].data[sep]);
    forall k | 0 <= k < |y'.kids| ensures AsBT(m', y').kids[k] == w.kids[k] {
      if k < i {
        assert y'.kids[k] == y.kids[k];
        KidValue(m, m', y.kids[k], max);
      } else if k > i + 1 {
        assert y'.kids[k] == y.kids[k - 1];
        KidValue(m, m', y.kids[k - 1], max);
      }
    }
    assert AsBT(m', y').kids == w.kids && AsBT(m', y').recs == w.recs;
  }

  lemma KidValue(m: Store, m': Store, t: Tree, max: nat)
    requires SameKid(m, m', t, max)
    ensures AsBT(m', t) == AsBT(m, t)
  {
  }

  // ---------------------------------------------------------------- a new root

  ghost predicate CutRoot(m: Store, m': Store, t: Tree, sep: nat, node2: Node, parent: Node, max: nat) {
    && t.node in m.Keys && node2 !in m.Keys && parent !in m.Keys && node2 != parent
    && sep < m[t.node].num && sep < |m[t.node].key| && sep < |m[t.node].data|
    && parent in m'.Keys && t.node in m'.Keys && node2 in m'.Keys
    && IsLeft(m[t.node], m'[t.node], sep) && IsRight(m[t.node], m'[node2], sep)
    && m'[node2].parent == parent && m'[t.node].parent == parent
    && Sized(max, m'[parent]) && m'[parent].num == 1 && m'[parent].parent == null
    && m'[parent].key[0] == m[t.node].key[sep] && m'[parent].data[0] == m[t.node].data[sep]
    && m'[parent].child[0] == t.node && m'[parent].child[1] == node2
    && forall n :: n in m.Keys && n != t.node ==>
         n in m'.Keys && m'[n] == if InHeads(n, if sep + 1 <= |t.kids| then t.kids[sep + 1..] else [])
           then m[n].(parent := node2) else m[n]
  }

  /** An overfull root becomes two nodes under a new root. */
  lemma RootKeeps(m: Store, m': Store, t: Tree, sep: nat, node2: Node, parent: Node, max: nat)
    requires Rep(m, t, max) && Ascending(InOrder(AsBT(m, t))) && CutRoot(m, m', t, sep, node2, parent, max)
    requires 1 <= sep && sep + 1 < m[t.node].num
    ensures var t', b := Tree(parent, [LeftTree(t, sep), RightTree(t, sep, node2)]), AsBT(m, t);
      && Rep(m', t', max) && sep < |b.recs|
      && AsBT(m', t') == BT([b.recs[sep]], [LeftHalf(b, sep), RightHalf(b, sep)])
  {
    hide Rep, AsBT, InOrder, HasKey, Ascending, Rooted, IsLeft, IsRight, LeftTree, RightTree, LeftHalf, RightHalf;
    RepParts(m, t, max);
    if t.kids != [] { KidsMoved(m, m', t, max, sep + 1, node2); }
    LeftIsRep(m, m', t, max, sep, node2);
    RightIsRep(m, m', t, max, sep, node2);
    HalfNodes(t, sep, node2);
    NewRoot(m, m', t, sep, node2, parent, max);
  }

  lemma NewRoot(m: Store, m': Store, t: Tree, sep: nat, node2: Node, parent: Node, max: nat)
    requires CutRoot(m, m', t, sep, node2, parent, max) && Rep(m, t, max)
    requires Rep(m', LeftTree(t, sep), max) && Rep(m', RightTree(t, sep, node2), max)
    requires LeftTree(t, sep).node == t.node && RightTree(t, sep, node2).node == node2 && sep < |AsBT(m, t).recs|
    requires AsBT(m', LeftTree(t, sep)) == LeftHalf(AsBT(m, t), sep)
      && AsBT(m', RightTree(t, sep, node2)) == RightHalf(AsBT(m, t), sep)
    ensures var t', b := Tree(parent, [LeftTree(t, sep), RightTree(t, sep, node2)]), AsBT(m, t);
      && Rep(m', t', max) && AsBT(m', t') == BT([b.recs[sep]], [LeftHalf(b, sep), RightHalf(b, sep)])
  {
    hide Rep, AsBT, IsLeft, IsRight, LeftTree, RightTree, LeftHalf, RightHalf;
    var t', b := Tree(parent, [LeftTree(t, sep), RightTree(t, sep, node2)]), AsBT(m, t);
    RepParts(m, t, max);
    forall k | 0 <= k < 2 ensures Hung(m', m'[parent], parent, t'.kids, k) && Rep(m', t'.kids[k], max) {}
    RepFrom(m', t', max);
    RepParts(m', t', max);
    assert AsBT(m', t').recs == [b.recs[sep]];
    assert AsBT(m', t').kids == [LeftHalf(b, sep), RightHalf(b, sep)];
  }
}
