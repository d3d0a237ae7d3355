/** The shape of a binary tree of heap nodes and of the path above a node in it, as ghost values that
    name the nodes they stand for.  A node carries a mark: a colour, or a balance factor.  The trees in
    `RbTree` and `AvlTree` are proved against these. */
module BinTree {
  import opened Records

  class Node<C> {
    var mark: C
    var parent: Node?<C>
    var lchild: Node?<C>
    var rchild: Node?<C>
    var data: Data

    constructor (mark: C, data: Data)
      ensures this.mark == mark && this.data == data
    {
      this.mark := mark;
      this.data := data;
      parent, lchild, rchild := null, null, null;
    }
  }

  /** A subtree: every field of every one of its nodes, except the parent links, which follow. */
  datatype Tree<C> =
    | Leaf
    | Fork(node: Node<C>, mark: C, left: Tree<C>, data: Data, right: Tree<C>)

  /** The way from a subtree up to the root: which child it is, and the other child at each step. */
  datatype Path<C> =
    | Top
    | InLeft(node: Node<C>, mark: C, data: Data, right: Tree<C>, up: Path<C>)
    | InRight(node: Node<C>, mark: C, left: Tree<C>, data: Data, up: Path<C>)

  ghost function Plug<C>(path: Path<C>, t: Tree<C>): Tree<C>
    decreases path
  {
    match path
    case Top => t
    case InLeft(n, c, d, r, up) => Plug(up, Fork(n, c, t, d, r))
    case InRight(n, c, l, d, up) => Plug(up, Fork(n, c, l, d, t))
  }

  // ---------------------------------------------------------------- contents

  ghost function InOrder<C>(t: Tree<C>): seq<Data> {
    match t
    case Leaf => []
    case Fork(_, _, l, d, r) => InOrder(l) + [d] + InOrder(r)
  }

  ghost function Before<C>(path: Path<C>): seq<Data> {
    match path
    case Top => []
    case InLeft(_, _, _, _, up) => Before(up)
    case InRight(_, _, l, d, up) => Before(up) + InOrder(l) + [d]
  }

  ghost function After<C>(path: Path<C>): seq<Data> {
    match path
    case Top => []
    case InLeft(_, _, d, r, up) => [d] + InOrder(r) + After(up)
    case InRight(_, _, _, _, up) => After(up)
  }

  ghost function All<C>(path: Path<C>, t: Tree<C>): seq<Data> {
    Before(path) + InOrder(t) + After(path)
  }

  lemma {:induction false} PlugKeepsOrder<C>(path: Path<C>, t: Tree<C>)
    ensures InOrder(Plug(path, t)) == All(path, t)
    decreases path
  {
    match path
    case Top =>
    case InLeft(n, c, d, r, up) =>
      PlugKeepsOrder(up, Fork(n, c, t, d, r));
      assert All(up, Fork(n, c, t, d, r)) == All(path, t);
    case InRight(n, c, l, d, up) =>
      PlugKeepsOrder(up, Fork(n, c, l, d, t));
      assert All(up, Fork(n, c, l, d, t)) == All(path, t);
  }

  // ---------------------------------------------------------------- colours

  lemma {:induction false} PlugFork<C>(path: Path<C>, t: Tree<C>)
    requires t.Fork?
    ensures Plug(path, t).Fork?
    decreases path
  {
    match path
    case Top =>
    case InLeft(n, c, d, r, up) => PlugFork(up, Fork(n, c, t, d, r));
    case InRight(n, c, l, d, up) => PlugFork(up, Fork(n, c, l, d, t));
  }

  // ---------------------------------------------------------------- rotations

  ghost function RotateRight<C>(t: Tree<C>): (r: Tree<C>)
    requires t.Fork? && t.left.Fork?
    ensures InOrder(r) == InOrder(t)
  {
    var l := t.left;
    Fork(l.node, l.mark, l.left, l.data, Fork(t.node, t.mark, l.right, t.data, t.right))
  }

  ghost function RotateLeft<C>(t: Tree<C>): (r: Tree<C>)
    requires t.Fork? && t.right.Fork?
    ensures InOrder(r) == InOrder(t)
  {
    var r := t.right;
    Fork(r.node, r.mark, Fork(t.node, t.mark, t.left, t.data, r.left), r.data, r.right)
  }

  lemma RotateRightNodes<C>(t: Tree<C>)
    requires t.Fork? && t.left.Fork?
    ensures TreeNodes(RotateRight(t)) == TreeNodes(t)
    ensures TreeApart(t) ==> TreeApart(RotateRight(t))
  {
    var l := t.left;
    var low := Fork(t.node, t.mark, l.right, t.data, t.right);
    assert TreeNodes(l) == {l.node} + TreeNodes(l.left) + TreeNodes(l.right);
    assert TreeNodes(low) == {t.node} + TreeNodes(l.right) + TreeNodes(t.right);
    if TreeApart(t) {
      assert TreeApart(l);
      assert TreeApart(low);
    }
  }

  lemma RotateLeftNodes<C>(t: Tree<C>)
    requires t.Fork? && t.right.Fork?
    ensures TreeNodes(RotateLeft(t)) == TreeNodes(t)
    ensures TreeApart(t) ==> TreeApart(RotateLeft(t))
  {
    var r := t.right;
    var low := Fork(t.node, t.mark, t.left, t.data, r.left);
    assert TreeNodes(r) == {r.node} + TreeNodes(r.left) + TreeNodes(r.right);
    assert TreeNodes(low) == {t.node} + TreeNodes(t.left) + TreeNodes(r.left);
    if TreeApart(t) {
      assert TreeApart(r);
      assert TreeApart(low);
    }
  }

  // ---------------------------------------------------------------- the heap behind a shape

  ghost function TreeNodes<C>(t: Tree<C>): set<Node<C>> {
    match t
    case Leaf => {}
    case Fork(n, _, l, _, r) => {n} + TreeNodes(l) + TreeNodes(r)
  }

  ghost function PathNodes<C>(path: Path<C>): set<Node<C>> {
    match path
    case Top => {}
    case InLeft(n, _, _, r, up) => {n} + TreeNodes(r) + PathNodes(up)
    case InRight(n, _, l, _, up) => {n} + TreeNodes(l) + PathNodes(up)
  }

  /** No node stands in two places. */
  ghost predicate TreeApart<C>(t: Tree<C>) {
    match t
    case Leaf => true
    case Fork(n, _, l, _, r) =>
      n !in TreeNodes(l) && n !in TreeNodes(r) && TreeNodes(l) !! TreeNodes(r) && TreeApart(l) && TreeApart(r)
  }

  ghost predicate PathApart<C>(path: Path<C>) {
    match path
    case Top => true
    case InLeft(n, _, _, r, up) =>
      n !in TreeNodes(r) && n !in PathNodes(up) && TreeNodes(r) !! PathNodes(up) && TreeApart(r) && PathApart(up)
    case InRight(n, _, l, _, up) =>
      n !in TreeNodes(l) && n !in PathNodes(up) && TreeNodes(l) !! PathNodes(up) && TreeApart(l) && PathApart(up)
  }

  ghost function RootOf<C>(t: Tree<C>, sentinel: Node?<C>): Node?<C> {
    if t.Leaf? then sentinel else t.node
  }

  ghost function ParentOf<C>(path: Path<C>, sentinel: Node?<C>): Node?<C> {
    if path.Top? then sentinel else path.node
  }

  lemma RootInside<C>(t: Tree<C>)
    ensures t.Fork? ==> t.node in TreeNodes(t)
  {
  }

  /** The fields of one node, and a picture of the fields of many. */
  datatype Fields<C> = Fields(mark: C, data: Data, parent: Node?<C>, lchild: Node?<C>, rchild: Node?<C>)
  type Memory<C> = map<Node<C>, Fields<C>>

  ghost function FieldsOf<C>(n: Node<C>): Fields<C>
    reads n
  {
    Fields(n.mark, n.data, n.parent, n.lchild, n.rchild)
  }

  ghost function Snapshot<C>(nodes: set<Node<C>>): (m: Memory<C>)
    reads nodes
    ensures m.Keys == nodes
  {
    map n | n in nodes :: FieldsOf(n)
  }

  /** `m` holds `t`, hanging below `parent`. */
  ghost predicate HoldsTree<C>(t: Tree<C>, parent: Node?<C>, m: Memory<C>, sentinel: Node?<C>) {
    match t
    case Leaf => true
    case Fork(n, c, l, d, r) =>
      && n in m && m[n] == Fields(c, d, parent, RootOf(l, sentinel), RootOf(r, sentinel))
      && HoldsTree(l, n, m, sentinel) && HoldsTree(r, n, m, sentinel)
  }

  /** `m` holds everything above and beside `child`, up to `root`. */
  ghost predicate HoldsPath<C>(path: Path<C>, child: Node?<C>, root: Node?<C>, m: Memory<C>, sentinel: Node?<C>) {
    match path
    case Top => root == child
    case InLeft(n, c, d, r, up) =>
      && n in m && m[n] == Fields(c, d, ParentOf(up, sentinel), child, RootOf(r, sentinel))
      && HoldsTree(r, n, m, sentinel) && HoldsPath(up, n, root, m, sentinel)
    case InRight(n, c, l, d, up) =>
      && n in m && m[n] == Fields(c, d, ParentOf(up, sentinel), RootOf(l, sentinel), child)
      && HoldsTree(l, n, m, sentinel) && HoldsPath(up, n, root, m, sentinel)
  }

  /** `m` is exactly the tree rooted at `root` that `t` hanging below `path` describes. */
  ghost predicate Holds<C>(path: Path<C>, t: Tree<C>, root: Node?<C>, m: Memory<C>, sentinel: Node?<C>) {
    && PathApart(path) && TreeApart(t) && PathNodes(path) !! TreeNodes(t)
    && m.Keys == PathNodes(path) + TreeNodes(t) && sentinel !in m
    && HoldsTree(t, ParentOf(path, sentinel), m, sentinel)
    && HoldsPath(path, RootOf(t, sentinel), root, m, sentinel)
  }

  /** `m1` is `m0` on all of `nodes`. */
  ghost predicate Agree<C>(m0: Memory<C>, m1: Memory<C>, nodes: set<Node<C>>) {
    forall n :: n in nodes && n in m0 ==> n in m1 && m0[n] == m1[n]
  }

  lemma {:induction false} TreeFrame<C>(t: Tree<C>, parent: Node?<C>, m0: Memory<C>, m1: Memory<C>, sentinel: Node?<C>)
    requires HoldsTree(t, parent, m0, sentinel) && Agree(m0, m1, TreeNodes(t))
    ensures HoldsTree(t, parent, m1, sentinel)
  {
    if t.Fork? {
      TreeFrame(t.left, t.node, m0, m1, sentinel);
      TreeFrame(t.right, t.node, m0, m1, sentinel);
    }
  }

  /** A subtree stays when only the parent link of its root is turned to a new parent. */
  lemma TreeMoved<C>(t: Tree<C>, oldParent: Node?<C>, parent: Node?<C>, m0: Memory<C>, m1: Memory<C>,
      sentinel: Node?<C>)
    requires TreeApart(t) && HoldsTree(t, oldParent, m0, sentinel)
    requires t.Fork? ==> t.node in m1 && m1[t.node] == m0[t.node].(parent := parent)
    requires Agree(m0, m1, TreeNodes(t) - {RootOf(t, sentinel)})
    ensures HoldsTree(t, parent, m1, sentinel)
  {
    if t.Fork? {
      TreeFrame(t.left, t.node, m0, m1, sentinel);
      TreeFrame(t.right, t.node, m0, m1, sentinel);
    }
  }

  lemma {:induction false} PathFrame<C>(path: Path<C>, child: Node?<C>, root: Node?<C>, m0: Memory<C>, m1: Memory<C>,
      sentinel: Node?<C>)
    requires HoldsPath(path, child, root, m0, sentinel) && Agree(m0, m1, PathNodes(path))
    ensures HoldsPath(path, child, root, m1, sentinel)
    decreases path
  {
    match path
    case Top =>
    case InLeft(n, c, d, r, up) =>
      TreeFrame(r, n, m0, m1, sentinel);
      PathFrame(up, n, root, m0, m1, sentinel);
    case InRight(n, c, l, d, up) =>
      TreeFrame(l, n, m0, m1, sentinel);
      PathFrame(up, n, root, m0, m1, sentinel);
  }

  /** What the parent of `child` looks like once `heir` has taken the place of `child`. */
  ghost function Relinked<C>(f: Fields<C>, child: Node?<C>, heir: Node?<C>): Fields<C> {
    if f.lchild == child then f.(lchild := heir) else f.(rchild := heir)
  }

  lemma PathRelinked<C>(path: Path<C>, child: Node?<C>, heir: Node?<C>, root0: Node?<C>, root1: Node?<C>,
                     m0: Memory<C>, m1: Memory<C>, sentinel: Node?<C>)
    requires HoldsPath(path, child, root0, m0, sentinel) && PathApart(path)
    requires child !in PathNodes(path) && child != sentinel
    requires if path.Top? then root1 == heir else root1 == root0
    requires !path.Top? ==> path.node in m1 && m1[path.node] == Relinked(m0[path.node], child, heir)
    requires Agree(m0, m1, PathNodes(path) - {ParentOf(path, sentinel)})
    ensures HoldsPath(path, heir, root1, m1, sentinel)
  {
    match path
    case Top =>
    case InLeft(n, c, d, r, up) =>
      TreeFrame(r, n, m0, m1, sentinel);
      PathFrame(up, n, root0, m0, m1, sentinel);
    case InRight(n, c, l, d, up) =>
      if l.Fork? { assert l.node in TreeNodes(l); }
      TreeFrame(l, n, m0, m1, sentinel);
      PathFrame(up, n, root0, m0, m1, sentinel);
  }

  // ---------------------------------------------------------------- moving the focus

  ghost function Height<C>(path: Path<C>): nat {
    if path.Top? then 0 else 1 + Height(path.up)
  }

  /** The two steps above the focus go different ways. */
  ghost function Zigzag<C>(path: Path<C>): nat {
    if !path.Top? && !path.up.Top? && path.InLeft? != path.up.InLeft? then 1 else 0
  }

  /** The tree one step up: `t` together with what hangs beside it. */
  ghost function Step<C>(path: Path<C>, t: Tree<C>): Tree<C>
    requires !path.Top?
  {
    match path
    case InLeft(n, c, d, r, _) => Fork(n, c, t, d, r)
    case InRight(n, c, l, d, _) => Fork(n, c, l, d, t)
  }

  ghost function LeftOf<C>(path: Path<C>, t: Tree<C>): Path<C>
    requires t.Fork?
  {
    InLeft(t.node, t.mark, t.data, t.right, path)
  }

  ghost function RightOf<C>(path: Path<C>, t: Tree<C>): Path<C>
    requires t.Fork?
  {
    InRight(t.node, t.mark, t.left, t.data, path)
  }

  lemma HoldsUp<C>(path: Path<C>, t: Tree<C>, root: Node?<C>, m: Memory<C>, sentinel: Node?<C>)
    requires !path.Top? && Holds(path, t, root, m, sentinel)
    ensures Holds(path.up, Step(path, t), root, m, sentinel)
  {
  }

  lemma HoldsLeft<C>(path: Path<C>, t: Tree<C>, root: Node?<C>, m: Memory<C>, sentinel: Node?<C>)
    requires t.Fork? && Holds(path, t, root, m, sentinel)
    ensures Holds(LeftOf(path, t), t.left, root, m, sentinel)
  {
  }

  lemma HoldsRight<C>(path: Path<C>, t: Tree<C>, root: Node?<C>, m: Memory<C>, sentinel: Node?<C>)
    requires t.Fork? && Holds(path, t, root, m, sentinel)
    ensures Holds(RightOf(path, t), t.right, root, m, sentinel)
  {
  }

  lemma {:induction false} HoldsWhole<C>(path: Path<C>, t: Tree<C>, root: Node?<C>, m: Memory<C>, sentinel: Node?<C>)
    requires Holds(path, t, root, m, sentinel)
    ensures Holds(Top, Plug(path, t), root, m, sentinel)
    decreases path
  {
    if !path.Top? {
      HoldsUp(path, t, root, m, sentinel);
      HoldsWhole(path.up, Step(path, t), root, m, sentinel);
    }
  }

  /** Only the whole tree has the root of the tree at its root. */
  lemma {:induction false} RootOnPath<C>(path: Path<C>, child: Node?<C>, root: Node?<C>, m: Memory<C>,
      sentinel: Node?<C>)
    requires HoldsPath(path, child, root, m, sentinel) && child !in PathNodes(path)
    ensures path.Top? <==> child == root
    ensures !path.Top? ==> root in PathNodes(path)
    decreases path
  {
    if !path.Top? && !path.up.Top? {
      assert path.node !in PathNodes(path.up) || path.node in PathNodes(path.up);
      RootIsOnPath(path.up, path.node, root, m, sentinel);
    }
  }

  lemma {:induction false} RootIsOnPath<C>(path: Path<C>, child: Node?<C>, root: Node?<C>, m: Memory<C>,
      sentinel: Node?<C>)
    requires !path.Top? && HoldsPath(path, child, root, m, sentinel)
    ensures root in PathNodes(path)
    decreases path
  {
    if !path.up.Top? { RootIsOnPath(path.up, path.node, root, m, sentinel); }
  }

  // ---------------------------------------------------------------- depth

  ghost function Levels<C>(t: Tree<C>): nat {
    match t
    case Leaf => 0
    case Fork(_, _, l, _, r) => 1 + if Levels(l) > Levels(r) then Levels(l) else Levels(r)
  }

  lemma {:induction false} PlugDepth<C>(path: Path<C>, t: Tree<C>)
    ensures Height(path) + Levels(t) <= Levels(Plug(path, t))
    decreases path
  {
    match path
    case Top =>
    case InLeft(n, c, d, r, up) => PlugDepth(up, Fork(n, c, t, d, r));
    case InRight(n, c, l, d, up) => PlugDepth(up, Fork(n, c, l, d, t));
  }

  /** The nodes from the root down to the one just above the focus. */
  ghost function Spine<C>(path: Path<C>): (s: seq<Node<C>>)
    ensures |s| == Height(path)
  {
    if path.Top? then [] else Spine(path.up) + [path.node]
  }

  // ---------------------------------------------------------------- the other writes

  /** A node recoloured in place. */
  lemma Painted<C>(path: Path<C>, t: Tree<C>, mark: C, root: Node?<C>, m0: Memory<C>, m1: Memory<C>, sentinel: Node?<C>)
    requires t.Fork? && Holds(path, t, root, m0, sentinel)
    requires t.node in m0 && m1 == m0[t.node := m0[t.node].(mark := mark)]
    ensures Holds(path, t.(mark := mark), root, m1, sentinel)
  {
    TreeFrame(t.left, t.node, m0, m1, sentinel);
    TreeFrame(t.right, t.node, m0, m1, sentinel);
    PathFrame(path, t.node, root, m0, m1, sentinel);
  }

  /** A new leaf node `n` hung where the search ended. */
  lemma Grown<C>(path: Path<C>, n: Node<C>, c: C, d: Data, root0: Node?<C>, root1: Node?<C>, m0: Memory<C>,
      m1: Memory<C>, sentinel: Node?<C>)
    requires Holds(path, Leaf, root0, m0, sentinel) && n !in m0 && n != sentinel
    requires m1.Keys == m0.Keys + {n}
    requires m1[n] == Fields(c, d, ParentOf(path, sentinel), sentinel, sentinel)
    requires if path.Top? then root1 == n else root1 == root0
    requires path.InLeft? ==> path.node in m0 && m1[path.node] == m0[path.node].(lchild := n)
    requires path.InRight? ==> path.node in m0 && m1[path.node] == m0[path.node].(rchild := n)
    requires Agree(m0, m1, m0.Keys - {ParentOf(path, sentinel)})
    ensures Holds(path, Fork(n, c, Leaf, d, Leaf), root1, m1, sentinel)
  {
    match path
    case Top =>
    case InLeft(p, _, _, r, up) =>
      TreeFrame(r, p, m0, m1, sentinel);
      PathFrame(up, p, root0, m0, m1, sentinel);
    case InRight(p, _, l, _, up) =>
      TreeFrame(l, p, m0, m1, sentinel);
      PathFrame(up, p, root0, m0, m1, sentinel);
  }

  /** A node with at most the one child `kid` unlinked: the child hangs in its place. */
  lemma Spliced<C>(path: Path<C>, t: Tree<C>, kid: Tree<C>, root0: Node?<C>, root1: Node?<C>, m0: Memory<C>,
      m1: Memory<C>, sentinel: Node?<C>)
    requires t.Fork? && Holds(path, t, root0, m0, sentinel)
    requires (t.left.Leaf? && kid == t.right) || (t.right.Leaf? && kid == t.left)
    requires m1.Keys == m0.Keys - {t.node}
    requires if path.Top? then root1 == RootOf(kid, sentinel) else root1 == root0
    requires !path.Top? ==> path.node in m1 && path.node in m0
    requires !path.Top? ==> m1[path.node] == Relinked(m0[path.node], t.node, RootOf(kid, sentinel))
    requires kid.Fork? ==> kid.node in m1 && kid.node in m0
    requires kid.Fork? ==> m1[kid.node] == m0[kid.node].(parent := ParentOf(path, sentinel))
    requires Agree(m0, m1, m0.Keys - {t.node, ParentOf(path, sentinel), RootOf(kid, sentinel)})
    ensures Holds(path, kid, root1, m1, sentinel)
  {
    RootInside(kid);
    assert TreeNodes(t) == {t.node} + TreeNodes(kid);
    assert TreeApart(kid) && HoldsTree(kid, t.node, m0, sentinel);
    PathRelinked(path, t.node, RootOf(kid, sentinel), root0, root1, m0, m1, sentinel);
    TreeMoved(kid, t.node, ParentOf(path, sentinel), m0, m1, sentinel);
  }

  // ---------------------------------------------------------------- overwriting an ancestor's record

  ghost predicate OnSpine<C>(path: Path<C>, n: Node<C>) {
    !path.Top? && (path.node == n || OnSpine(path.up, n))
  }

  ghost function Overwrite<C>(path: Path<C>, n: Node<C>, d: Data): Path<C>
    requires OnSpine(path, n)
    decreases path
  {
    if path.node == n then path.(data := d) else path.(up := Overwrite(path.up, n, d))
  }

  lemma {:induction false} OverwriteKeeps<C>(path: Path<C>, n: Node<C>, d: Data, sentinel: Node?<C>)
    requires OnSpine(path, n)
    ensures PathNodes(Overwrite(path, n, d)) == PathNodes(path)
    ensures PathApart(path) ==> PathApart(Overwrite(path, n, d))
    ensures ParentOf(Overwrite(path, n, d), sentinel) == ParentOf(path, sentinel)
    decreases path
  {
    if path.node != n {
      OverwriteKeeps(path.up, n, d, sentinel);
    }
  }

  lemma {:induction false} PathOverwritten<C>(path: Path<C>, child: Node?<C>, n: Node<C>, d: Data, root: Node?<C>,
                                           m0: Memory<C>, m1: Memory<C>, sentinel: Node?<C>)
    requires OnSpine(path, n) && PathApart(path) && HoldsPath(path, child, root, m0, sentinel)
    requires n in m0 && m1 == m0[n := m0[n].(data := d)]
    ensures n in PathNodes(path)
    ensures HoldsPath(Overwrite(path, n, d), child, root, m1, sentinel)
    decreases path
  {
    var side := if path.InLeft? then path.right else path.left;
    if path.node == n {
      TreeFrame(side, n, m0, m1, sentinel);
      PathFrame(path.up, n, root, m0, m1, sentinel);
    } else {
      PathOverwritten(path.up, path.node, n, d, root, m0, m1, sentinel);
      OverwriteKeeps(path.up, n, d, sentinel);
      TreeFrame(side, path.node, m0, m1, sentinel);
    }
  }

  /** The record of the spine node `n` overwritten in place. */
  lemma Overwritten<C>(path: Path<C>, t: Tree<C>, n: Node<C>, d: Data, root: Node?<C>, m0: Memory<C>, m1: Memory<C>,
      sentinel: Node?<C>)
    requires OnSpine(path, n) && Holds(path, t, root, m0, sentinel)
    requires n in m0 && m1 == m0[n := m0[n].(data := d)]
    ensures Holds(Overwrite(path, n, d), t, root, m1, sentinel)
  {
    PathOverwritten(path, RootOf(t, sentinel), n, d, root, m0, m1, sentinel);
    OverwriteKeeps(path, n, d, sentinel);
    TreeFrame(t, ParentOf(path, sentinel), m0, m1, sentinel);
  }

  /** `path` goes from below `base` only to the left. */
  ghost predicate LeftSpine<C>(path: Path<C>, base: Path<C>) {
    path == base || (path.InLeft? && LeftSpine(path.up, base))
  }

  lemma {:induction false} LeftSpineOverwrite<C>(path: Path<C>, base: Path<C>, d: Data)
    requires base.InRight? && LeftSpine(path, base) && PathApart(path)
    ensures OnSpine(path, base.node)
    ensures Before(path) == Before(base)
    ensures Before(Overwrite(path, base.node, d)) == Before(base.up) + InOrder(base.left) + [d]
    ensures After(Overwrite(path, base.node, d)) == After(path)
    decreases path
  {
    if path != base {
      LeftSpineOverwrite(path.up, base, d);
      SpineInside(path.up, base.node);
    }
  }

  lemma {:induction false} SpineInside<C>(path: Path<C>, n: Node<C>)
    requires OnSpine(path, n)
    ensures n in PathNodes(path)
    decreases path
  {
    if path.node != n { SpineInside(path.up, n); }
  }

  // ---------------------------------------------------------------- rotations in the heap

  /** The nodes a right rotation writes, and what they keep clear of. */
  lemma RightTouched<C>(path: Path<C>, t: Tree<C>, sentinel: Node?<C>)
    requires t.Fork? && t.left.Fork?
    requires PathApart(path) && TreeApart(t) && PathNodes(path) !! TreeNodes(t)
    requires sentinel !in PathNodes(path) && sentinel !in TreeNodes(t)
    ensures TreeNodes(t.left) <= TreeNodes(t) && TreeNodes(t.right) <= TreeNodes(t)
    ensures TreeNodes(t.left.left) <= TreeNodes(t.left) && TreeNodes(t.left.right) <= TreeNodes(t.left)
    ensures var n, l, b, p := t.node, t.left.node, RootOf(t.left.right, sentinel), ParentOf(path, sentinel);
      && n in TreeNodes(t) && l in TreeNodes(t) && (t.left.right.Fork? ==> b in TreeNodes(t.left.right))
      && n != l && b != n && b != l && p != n && p != l && (p == b ==> p == sentinel)
      && PathNodes(path) !! {n, l, b}
      && TreeNodes(t.left.left) !! {n, l, b, p} && TreeNodes(t.right) !! {n, l, b, p}
      && TreeNodes(t.left.right) - {b} !! {n, l, b, p}
      && TreeApart(t.left.right)
  {
    RootInside(t.left.right);
    assert TreeNodes(t.left) == {t.left.node} + TreeNodes(t.left.left) + TreeNodes(t.left.right);
    assert TreeApart(t.left);
  }

  /** What a right rotation about the root of `t` may rely on. */
  lemma RightReady<C>(path: Path<C>, t: Tree<C>, root: Node?<C>, m: Memory<C>, sentinel: Node?<C>)
    requires t.Fork? && t.left.Fork? && Holds(path, t, root, m, sentinel)
    ensures var n, l, b, p := t.node, t.left.node, RootOf(t.left.right, sentinel), ParentOf(path, sentinel);
      && n in m && l in m && (b in m || b == sentinel) && (p in m || p == sentinel)
      && m[n].parent == p && m[n].lchild == l && m[l].rchild == b
      && n != l && b != n && b != l && p != n && p != l && (p == b ==> p == sentinel)
      && (t.left.right.Fork? <==> b != sentinel) && (path.Top? <==> p == sentinel)
  {
    RightTouched(path, t, sentinel);
    assert HoldsTree(t.left, t.node, m, sentinel);
  }

  lemma RotatedRight<C>(path: Path<C>, t: Tree<C>, root0: Node?<C>, root1: Node?<C>, m0: Memory<C>, m1: Memory<C>,
      sentinel: Node?<C>)
    requires t.Fork? && t.left.Fork? && Holds(path, t, root0, m0, sentinel)
    requires m1.Keys == m0.Keys
    requires if path.Top? then root1 == t.left.node else root1 == root0
    requires !path.Top? ==> m1[path.node] == Relinked(m0[path.node], t.node, t.left.node)
    requires m1[t.left.node] == m0[t.left.node].(parent := ParentOf(path, sentinel), rchild := t.node)
    requires m1[t.node] == m0[t.node].(parent := t.left.node, lchild := RootOf(t.left.right, sentinel))
    requires t.left.right.Fork? ==>
      t.left.right.node in m0
      && m1[t.left.right.node] == m0[t.left.right.node].(parent := t.node)
    requires Agree(m0, m1, m0.Keys - {ParentOf(path, sentinel), t.node, t.left.node, RootOf(t.left.right, sentinel)})
    ensures Holds(path, RotateRight(t), root1, m1, sentinel)
  {
    var l := t.left;
    RightTouched(path, t, sentinel);
    assert HoldsTree(l, t.node, m0, sentinel);
    PathRelinked(path, t.node, l.node, root0, root1, m0, m1, sentinel);
    TreeFrame(l.left, l.node, m0, m1, sentinel);
    TreeMoved(l.right, l.node, t.node, m0, m1, sentinel);
    TreeFrame(t.right, t.node, m0, m1, sentinel);
    RotateRightNodes(t);
  }

  /** The nodes a left rotation writes, and what they keep clear of. */
  lemma LeftTouched<C>(path: Path<C>, t: Tree<C>, sentinel: Node?<C>)
    requires t.Fork? && t.right.Fork?
    requires PathApart(path) && TreeApart(t) && PathNodes(path) !! TreeNodes(t)
    requires sentinel !in PathNodes(path) && sentinel !in TreeNodes(t)
    ensures TreeNodes(t.right) <= TreeNodes(t) && TreeNodes(t.left) <= TreeNodes(t)
    ensures TreeNodes(t.right.right) <= TreeNodes(t.right) && TreeNodes(t.right.left) <= TreeNodes(t.right)
    ensures var n, l, b, p := t.node, t.right.node, RootOf(t.right.left, sentinel), ParentOf(path, sentinel);
      && n in TreeNodes(t) && l in TreeNodes(t) && (t.right.left.Fork? ==> b in TreeNodes(t.right.left))
      && n != l && b != n && b != l && p != n && p != l && (p == b ==> p == sentinel)
      && PathNodes(path) !! {n, l, b}
      && TreeNodes(t.right.right) !! {n, l, b, p} && TreeNodes(t.left) !! {n, l, b, p}
      && TreeNodes(t.right.left) - {b} !! {n, l, b, p}
      && TreeApart(t.right.left)
  {
    RootInside(t.right.left);
    assert TreeNodes(t.right) == {t.right.node} + TreeNodes(t.right.right) + TreeNodes(t.right.left);
    assert TreeApart(t.right);
  }

  /** What a left rotation about the root of `t` may rely on. */
  lemma LeftReady<C>(path: Path<C>, t: Tree<C>, root: Node?<C>, m: Memory<C>, sentinel: Node?<C>)
    requires t.Fork? && t.right.Fork? && Holds(path, t, root, m, sentinel)
    ensures var n, l, b, p := t.node, t.right.node, RootOf(t.right.left, sentinel), ParentOf(path, sentinel);
      && n in m && l in m && (b in m || b == sentinel) && (p in m || p == sentinel)
      && m[n].parent == p && m[n].rchild == l && m[l].lchild == b
      && n != l && b != n && b != l && p != n && p != l && (p == b ==> p == sentinel)
      && (t.right.left.Fork? <==> b != sentinel) && (path.Top? <==> p == sentinel)
  {
    LeftTouched(path, t, sentinel);
    assert HoldsTree(t.right, t.node, m, sentinel);
  }

  lemma RotatedLeft<C>(path: Path<C>, t: Tree<C>, root0: Node?<C>, root1: Node?<C>, m0: Memory<C>, m1: Memory<C>,
      sentinel: Node?<C>)
    requires t.Fork? && t.right.Fork? && Holds(path, t, root0, m0, sentinel)
    requires m1.Keys == m0.Keys
    requires if path.Top? then root1 == t.right.node else root1 == root0
    requires !path.Top? ==> m1[path.node] == Relinked(m0[path.node], t.node, t.right.node)
    requires m1[t.right.node] == m0[t.right.node].(parent := ParentOf(path, sentinel), lchild := t.node)
    requires m1[t.node] == m0[t.node].(parent := t.right.node, rchild := RootOf(t.right.left, sentinel))
    requires t.right.left.Fork? ==>
      t.right.left.node in m0
      && m1[t.right.left.node] == m0[t.right.left.node].(parent := t.node)
    requires Agree(m0, m1, m0.Keys - {ParentOf(path, sentinel), t.node, t.right.node, RootOf(t.right.left, sentinel)})
    ensures Holds(path, RotateLeft(t), root1, m1, sentinel)
  {
    var l := t.right;
    LeftTouched(path, t, sentinel);
    assert HoldsTree(l, t.node, m0, sentinel);
    PathRelinked(path, t.node, l.node, root0, root1, m0, m1, sentinel);
    TreeFrame(l.right, l.node, m0, m1, sentinel);
    TreeMoved(l.left, l.node, t.node, m0, m1, sentinel);
    TreeFrame(t.left, t.node, m0, m1, sentinel);
    RotateLeftNodes(t);
  }
}
