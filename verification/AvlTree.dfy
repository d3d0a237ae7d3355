/** The height-balanced tree of `avl_tree.c`: nodes that store their balance factor, worked on by
    recursion from the root down. */
module AvlTree {
  import opened Arith
  import opened Records
  import opened BinTree
  import opened AvlShape

  datatype Ret = AvlOk | AvlErr | AvlNodeExist

  class AvlTree {
    var num: nat        // a uint64_t in the source: counts modulo 2^64
    var root: Node?<int>

    ghost var shape: Tree<int>
    ghost var nodes: set<Node<int>>

    /** The heap holds exactly `t` hanging below `path`. */
    ghost predicate Is(path: Path<int>, t: Tree<int>)
      reads this`root, this`nodes, nodes
    {
      Holds(path, t, root, Snapshot(nodes), null)
    }

    ghost predicate Valid()
      reads this, nodes
    {
      Is(Top, shape) && Avl(shape) && Ascending(InOrder(shape)) && num == Wrap(|InOrder(shape)|)
    }

    ghost function Contents(): map<int, Data>
      requires Valid()
      reads this, nodes
    {
      AsMap(InOrder(shape))
    }

    constructor ()
      ensures Valid() && Contents() == map[] && num == 0 && nodes == {}
    {
      root, num := null, 0;
      shape, nodes := Leaf, {};
    }

    // -------------------------------------------------------------- reading the shape off the heap

    lemma Up(path: Path<int>, t: Tree<int>)
      requires !path.Top? && Is(path, t)
      ensures Is(path.up, Step(path, t))
    {
      HoldsUp(path, t, root, Snapshot(nodes), null);
    }

    lemma Down(path: Path<int>, t: Tree<int>)
      requires t.Fork? && Is(path, t)
      ensures Is(LeftOf(path, t), t.left) && Is(RightOf(path, t), t.right)
      ensures t.node in nodes && FieldsOf(t.node) ==
        Fields(t.mark, t.data, ParentOf(path, null), RootOf(t.left, null), RootOf(t.right, null))
    {
      HoldsLeft(path, t, root, Snapshot(nodes), null);
      HoldsRight(path, t, root, Snapshot(nodes), null);
    }

    // -------------------------------------------------------------- the primitive writes

    method SetBf(node: Node<int>, bf: int, ghost path: Path<int>, ghost t: Tree<int>)
      requires t.Fork? && t.node == node && Is(path, t)
      modifies node`mark
      ensures Is(path, t.(mark := bf))
    {
      ghost var m0 := Snapshot(nodes);
      RootInside(t);
      node.mark := bf;
      assert Snapshot(nodes) == m0[node := m0[node].(mark := bf)];
      Painted(path, t, bf, root, m0, Snapshot(nodes), null);
    }

    method SetLchild(node: Node<int>, child: Node?<int>)
      modifies node`lchild, (if child != null then {child} else {})`parent
      ensures node.lchild == child && (child != null ==> child.parent == node)
    {
      node.lchild := child;
      if child != null {
        child.parent := node;
      }
    }

    method SetRchild(node: Node<int>, child: Node?<int>)
      modifies node`rchild, (if child != null then {child} else {})`parent
      ensures node.rchild == child && (child != null ==> child.parent == node)
    {
      node.rchild := child;
      if child != null {
        child.parent := node;
      }
    }

    /** Puts `heir` in the place of `child` below `parent`. */
    method ReplaceChild(parent: Node?<int>, child: Node<int>, heir: Node?<int>)
      requires parent != null ==> child == parent.lchild || child == parent.rchild
      modifies this`root, (if parent != null then {parent} else {})`lchild
      modifies (if parent != null then {parent} else {})`rchild, (if heir != null then {heir} else {})`parent
      ensures if parent == null then root == heir else root == old(root)
      ensures parent != null && parent != heir ==> FieldsOf(parent) == Relinked(old(FieldsOf(parent)), child, heir)
      ensures heir != null ==> heir.parent == parent
    {
      if parent == null {
        root := heir;
        if heir != null {
          heir.parent := null;
        }
      } else if parent.lchild == child {
        SetLchild(parent, heir);
      } else if parent.rchild == child {
        SetRchild(parent, heir);
      }
    }

    /** The focus is a child of the node above it. */
    lemma LinkedBelow(path: Path<int>, t: Tree<int>)
      requires t.Fork? && Is(path, t)
      ensures !path.Top? ==> path.node in nodes && (t.node == path.node.lchild || t.node == path.node.rchild)
    {
    }

    // -------------------------------------------------------------- rotations to the left

    /** One rotation to the left about `node`, stated field by field. */
    method TurnLeft(node: Node<int>, mn: int, mr: int)
      requires node.rchild != null && node.rchild != node && node.rchild.lchild != node
        && node.rchild.lchild != node.rchild
      requires node.parent != node && node.parent != node.rchild
      requires node.parent != null ==>
        node.parent != node.rchild.lchild
        && (node == node.parent.lchild || node == node.parent.rchild)
      modifies this`root, node, node.rchild, (if node.rchild.lchild != null then {node.rchild.lchild} else {})
      modifies (if node.parent != null then {node.parent} else {})
      ensures var r, p, b := old(node.rchild), old(node.parent), old(node.rchild.lchild);
        && (if p == null then root == r
            else root == old(root) && FieldsOf(p) == Relinked(old(FieldsOf(node.parent)), node, r))
        && FieldsOf(node) == old(FieldsOf(node)).(parent := r, rchild := b, mark := mn)
        && FieldsOf(r) == old(FieldsOf(node.rchild)).(parent := p, lchild := node, mark := mr)
        && (b != null ==> FieldsOf(b) == old(FieldsOf(node.rchild.lchild)).(parent := node))
    {
      var rchild, parent := node.rchild, node.parent;
      rchild.mark := mr;
      node.mark := mn;
      SetRchild(node, rchild.lchild);
      SetLchild(rchild, node);
      ReplaceChild(parent, node, rchild);
    }

    method SpinLeft(node: Node<int>, mn: int, mr: int, ghost path: Path<int>, ghost t: Tree<int>)
      requires t.Fork? && t.node == node && t.right.Fork? && Is(path, t)
      modifies this`root, nodes
      ensures Is(path, SpunLeft(t, mn, mr))
    {
      hide Holds, HoldsTree, HoldsPath, PathNodes, TreeNodes, PathApart, TreeApart, InOrder, Before, After, SpunLeft;
      ghost var root0, m0 := root, Snapshot(nodes);
      LeftReady(path, t, root, m0, null);
      LinkedBelow(path, t);
      TurnLeft(node, mn, mr);
      SpunLeftHeld(path, t, mn, mr, root0, root, m0, Snapshot(nodes));
    }

    /** The factors the three nodes of a double rotation will have. */
    method SetFactorsLeft(node: Node<int>, rchild: Node<int>, rlchild: Node<int>)
      requires node != rchild && node != rlchild && rchild != rlchild && IsFactor(rlchild.mark)
      modifies node`mark, rchild`mark, rlchild`mark
      ensures node.mark == NearMark(old(rlchild.mark), AVL_RH) && rchild.mark == FarMark(old(rlchild.mark), AVL_RH)
      ensures rlchild.mark == AVL_EH
    {
      if rlchild.mark == AVL_LH {
        node.mark := AVL_EH;
        rchild.mark := AVL_RH;
        rlchild.mark := AVL_EH;
      } else if rlchild.mark == AVL_EH {
        node.mark := AVL_EH;
        rchild.mark := AVL_EH;
        rlchild.mark := AVL_EH;
      } else if rlchild.mark == AVL_RH {
        node.mark := AVL_LH;
        rchild.mark := AVL_EH;
        rlchild.mark := AVL_EH;
      }
    }

    /** The links between the three nodes and the two subtrees that change hands. */
    method LinkTwiceLeft(node: Node<int>, rchild: Node<int>, rlchild: Node<int>, x: Node?<int>, y: Node?<int>)
      requires x == rlchild.lchild && y == rlchild.rchild
      requires node != rchild && node != rlchild && rchild != rlchild && Apart(x, node, rchild, rlchild)
        && Apart(y, node, rchild, rlchild)
      requires x != null ==> x != y
      modifies node`rchild, node`parent, rchild`lchild, rchild`parent, rlchild`lchild, rlchild`rchild
      modifies (if x != null then {x} else {})`parent, (if y != null then {y} else {})`parent
      ensures node.rchild == x && node.parent == rlchild && rchild.lchild == y && rchild.parent == rlchild
      ensures rlchild.lchild == node && rlchild.rchild == rchild
      ensures (x != null ==> x.parent == node) && (y != null ==> y.parent == rchild)
    {
      SetLchild(rchild, rlchild.rchild);
      SetRchild(rlchild, rchild);
      SetRchild(node, rlchild.lchild);
      SetLchild(rlchild, node);
    }

    /** The double rotation to the left about `node`, stated field by field. */
    method TurnTwiceLeft(node: Node<int>)
      requires node.rchild != null && node.rchild.lchild != null
      requires var r, b, p := node.rchild, node.rchild.lchild, node.parent;
        var x, y := b.lchild, b.rchild;
        && node != r && node != b && r != b && Apart(x, node, r, b) && Apart(y, node, r, b) && Apart(p, node, r, b)
        && (x != null ==> x != y && x != p) && (y != null ==> y != p)
        && (p != null ==> node == p.lchild || node == p.rchild) && IsFactor(b.mark)
      modifies this`root, node, node.rchild, node.rchild.lchild
      modifies (if node.rchild.lchild.lchild != null then {node.rchild.lchild.lchild} else {})
      modifies (if node.rchild.lchild.rchild != null then {node.rchild.lchild.rchild} else {})
      modifies (if node.parent != null then {node.parent} else {})
      ensures var r, b, p := old(node.rchild), old(node.rchild.lchild), old(node.parent);
        var x, y, bf := old(node.rchild.lchild.lchild), old(node.rchild.lchild.rchild), old(node.rchild.lchild.mark);
        && (if p == null then root == b
            else root == old(root) && FieldsOf(p) == Relinked(old(FieldsOf(node.parent)), node, b))
        && FieldsOf(b) == old(FieldsOf(node.rchild.lchild)).(parent := p, lchild := node, rchild := r, mark := AVL_EH)
        && FieldsOf(node) == old(FieldsOf(node)).(parent := b, rchild := x, mark := NearMark(bf, AVL_RH))
        && FieldsOf(r) == old(FieldsOf(node.rchild)).(parent := b, lchild := y, mark := FarMark(bf, AVL_RH))
        && (x != null ==> FieldsOf(x) == old(FieldsOf(node.rchild.lchild.lchild)).(parent := node))
        && (y != null ==> FieldsOf(y) == old(FieldsOf(node.rchild.lchild.rchild)).(parent := r))
    {
      hide NearMark, FarMark;
      var rchild, parent := node.rchild, node.parent;
      var rlchild := rchild.lchild;
      SetFactorsLeft(node, rchild, rlchild);
      LinkTwiceLeft(node, rchild, rlchild, rlchild.lchild, rlchild.rchild);
      ReplaceChild(parent, node, rlchild);
    }

    /** The links around a double rotation, read off the heap. */
    lemma TwistLeftLinks(path: Path<int>, t: Tree<int>)
      requires t.Fork? && t.right.Fork? && t.right.left.Fork? && Is(path, t)
      ensures t.node in nodes && t.right.node in nodes && t.right.left.node in nodes
      ensures var n, r, b, p := t.node, t.right.node, t.right.left.node, ParentOf(path, null);
        var x, y := RootOf(t.right.left.left, null), RootOf(t.right.left.right, null);
        && n.parent == p && n.rchild == r && r.lchild == b && b.lchild == x && b.rchild == y
           && b.mark == t.right.left.mark
        && n != r && n != b && r != b && Apart(x, n, r, b) && Apart(y, n, r, b) && Apart(p, n, r, b)
        && (x != null ==> x != y && x != p && x in nodes) && (y != null ==> y != p && y in nodes)
        && (p != null ==> p in nodes && (n == p.lchild || n == p.rchild)) && (path.Top? <==> p == null)
    {
      TwistLeftReady(path, t, root, Snapshot(nodes));
      LinkedBelow(path, t);
    }

    method TwistLeft(node: Node<int>, ghost path: Path<int>, ghost t: Tree<int>)
      requires t.Fork? && t.node == node && t.right.Fork? && t.right.left.Fork? && Is(path, t)
      requires IsFactor(t.right.left.mark)
      modifies this`root, nodes
      ensures var bf := t.right.left.mark; Is(path, TwistedLeft(t, NearMark(bf, AVL_RH), FarMark(bf, AVL_RH)))
    {
      hide Holds, NearMark, FarMark;
      ghost var root0, m0, bf := root, Snapshot(nodes), t.right.left.mark;
      TwistLeftLinks(path, t);
      TurnTwiceLeft(node);
      TwistedLeftHeld(path, t, NearMark(bf, AVL_RH), FarMark(bf, AVL_RH), root0, root, m0, Snapshot(nodes));
    }

    // -------------------------------------------------------------- rotations to the right

    /** One rotation to the right about `node`, stated field by field. */
    method TurnRight(node: Node<int>, mn: int, ml: int)
      requires node.lchild != null && node.lchild != node && node.lchild.rchild != node
        && node.lchild.rchild != node.lchild
      requires node.parent != node && node.parent != node.lchild
      requires node.parent != null ==>
        node.parent != node.lchild.rchild
        && (node == node.parent.rchild || node == node.parent.lchild)
      modifies this`root, node, node.lchild, (if node.lchild.rchild != null then {node.lchild.rchild} else {})
      modifies (if node.parent != null then {node.parent} else {})
      ensures var l, p, b := old(node.lchild), old(node.parent), old(node.lchild.rchild);
        && (if p == null then root == l
            else root == old(root) && FieldsOf(p) == Relinked(old(FieldsOf(node.parent)), node, l))
        && FieldsOf(node) == old(FieldsOf(node)).(parent := l, lchild := b, mark := mn)
        && FieldsOf(l) == old(FieldsOf(node.lchild)).(parent := p, rchild := node, mark := ml)
        && (b != null ==> FieldsOf(b) == old(FieldsOf(node.lchild.rchild)).(parent := node))
    {
      var lchild, parent := node.lchild, node.parent;
      lchild.mark := ml;
      node.mark := mn;
      SetLchild(node, lchild.rchild);
      SetRchild(lchild, node);
      ReplaceChild(parent, node, lchild);
    }

    method SpinRight(node: Node<int>, mn: int, ml: int, ghost path: Path<int>, ghost t: Tree<int>)
      requires t.Fork? && t.node == node && t.left.Fork? && Is(path, t)
      modifies this`root, nodes
      ensures Is(path, SpunRight(t, mn, ml))
    {
      hide Holds, HoldsTree, HoldsPath, PathNodes, TreeNodes, PathApart, TreeApart, InOrder, Before, After, SpunRight;
      ghost var root0, m0 := root, Snapshot(nodes);
      RightReady(path, t, root, m0, null);
      LinkedBelow(path, t);
      TurnRight(node, mn, ml);
      SpunRightHeld(path, t, mn, ml, root0, root, m0, Snapshot(nodes));
    }

    /** The factors the three nodes of a double rotation will have. */
    method SetFactorsRight(node: Node<int>, lchild: Node<int>, lrchild: Node<int>)
      requires node != lchild && node != lrchild && lchild != lrchild && IsFactor(lrchild.mark)
      modifies node`mark, lchild`mark, lrchild`mark
      ensures node.mark == NearMark(old(lrchild.mark), AVL_LH) && lchild.mark == FarMark(old(lrchild.mark), AVL_LH)
      ensures lrchild.mark == AVL_EH
    {
      if lrchild.mark == AVL_RH {
        node.mark := AVL_EH;
        lchild.mark := AVL_LH;
        lrchild.mark := AVL_EH;
      } else if lrchild.mark == AVL_EH {
        node.mark := AVL_EH;
        lchild.mark := AVL_EH;
        lrchild.mark := AVL_EH;
      } else if lrchild.mark == AVL_LH {
        node.mark := AVL_RH;
        lchild.mark := AVL_EH;
        lrchild.mark := AVL_EH;
      }
    }

    /** The links between the three nodes and the two subtrees that change hands. */
    method LinkTwiceRight(node: Node<int>, lchild: Node<int>, lrchild: Node<int>, x: Node?<int>, y: Node?<int>)
      requires x == lrchild.rchild && y == lrchild.lchild
      requires node != lchild && node != lrchild && lchild != lrchild && Apart(x, node, lchild, lrchild)
        && Apart(y, node, lchild, lrchild)
      requires x != null ==> x != y
      modifies node`lchild, node`parent, lchild`rchild, lchild`parent, lrchild`rchild, lrchild`lchild
      modifies (if x != null then {x} else {})`parent, (if y != null then {y} else {})`parent
      ensures node.lchild == x && node.parent == lrchild && lchild.rchild == y && lchild.parent == lrchild
      ensures lrchild.rchild == node && lrchild.lchild == lchild
      ensures (x != null ==> x.parent == node) && (y != null ==> y.parent == lchild)
    {
      SetRchild(lchild, lrchild.lchild);
      SetLchild(lrchild, lchild);
      SetLchild(node, lrchild.rchild);
      SetRchild(lrchild, node);
    }

    /** The double rotation to the right about `node`, stated field by field. */
    method TurnTwiceRight(node: Node<int>)
      requires node.lchild != null && node.lchild.rchild != null
      requires var l, b, p := node.lchild, node.lchild.rchild, node.parent;
        var x, y := b.rchild, b.lchild;
        && node != l && node != b && l != b && Apart(x, node, l, b) && Apart(y, node, l, b) && Apart(p, node, l, b)
        && (x != null ==> x != y && x != p) && (y != null ==> y != p)
        && (p != null ==> node == p.rchild || node == p.lchild) && IsFactor(b.mark)
      modifies this`root, node, node.lchild, node.lchild.rchild
      modifies (if node.lchild.rchild.rchild != null then {node.lchild.rchild.rchild} else {})
      modifies (if node.lchild.rchild.lchild != null then {node.lchild.rchild.lchild} else {})
      modifies (if node.parent != null then {node.parent} else {})
      ensures var l, b, p := old(node.lchild), old(node.lchild.rchild), old(node.parent);
        var x, y, bf := old(node.lchild.rchild.rchild), old(node.lchild.rchild.lchild), old(node.lchild.rchild.mark);
        && (if p == null then root == b
            else root == old(root) && FieldsOf(p) == Relinked(old(FieldsOf(node.parent)), node, b))
        && FieldsOf(b) == old(FieldsOf(node.lchild.rchild)).(parent := p, rchild := node, lchild := l, mark := AVL_EH)
        && FieldsOf(node) == old(FieldsOf(node)).(parent := b, lchild := x, mark := NearMark(bf, AVL_LH))
        && FieldsOf(l) == old(FieldsOf(node.lchild)).(parent := b, rchild := y, mark := FarMark(bf, AVL_LH))
        && (x != null ==> FieldsOf(x) == old(FieldsOf(node.lchild.rchild.rchild)).(parent := node))
        && (y != null ==> FieldsOf(y) == old(FieldsOf(node.lchild.rchild.lchild)).(parent := l))
    {
      hide NearMark, FarMark;
      var lchild, parent := node.lchild, node.parent;
      var lrchild := lchild.rchild;
      SetFactorsRight(node, lchild, lrchild);
      LinkTwiceRight(node, lchild, lrchild, lrchild.rchild, lrchild.lchild);
      ReplaceChild(parent, node, lrchild);
    }

    /** The links around a double rotation, read off the heap. */
    lemma TwistRightLinks(path: Path<int>, t: Tree<int>)
      requires t.Fork? && t.left.Fork? && t.left.right.Fork? && Is(path, t)
      ensures t.node in nodes && t.left.node in nodes && t.left.right.node in nodes
      ensures var n, l, b, p := t.node, t.left.node, t.left.right.node, ParentOf(path, null);
        var x, y := RootOf(t.left.right.right, null), RootOf(t.left.right.left, null);
        && n.parent == p && n.lchild == l && l.rchild == b && b.rchild == x && b.lchild == y
           && b.mark == t.left.right.mark
        && n != l && n != b && l != b && Apart(x, n, l, b) && Apart(y, n, l, b) && Apart(p, n, l, b)
        && (x != null ==> x != y && x != p && x in nodes) && (y != null ==> y != p && y in nodes)
        && (p != null ==> p in nodes && (n == p.rchild || n == p.lchild)) && (path.Top? <==> p == null)
    {
      TwistRightReady(path, t, root, Snapshot(nodes));
      LinkedBelow(path, t);
    }

    method TwistRight(node: Node<int>, ghost path: Path<int>, ghost t: Tree<int>)
      requires t.Fork? && t.node == node && t.left.Fork? && t.left.right.Fork? && Is(path, t)
      requires IsFactor(t.left.right.mark)
      modifies this`root, nodes
      ensures var bf := t.left.right.mark; Is(path, TwistedRight(t, NearMark(bf, AVL_LH), FarMark(bf, AVL_LH)))
    {
      hide Holds, NearMark, FarMark;
      ghost var root0, m0, bf := root, Snapshot(nodes), t.left.right.mark;
      TwistRightLinks(path, t);
      TurnTwiceRight(node);
      TwistedRightHeld(path, t, NearMark(bf, AVL_LH), FarMark(bf, AVL_LH), root0, root, m0, Snapshot(nodes));
    }

    // -------------------------------------------------------------- insertion

    /** What an insertion below has done: the record is in its place unless its key was there, the
        factors are right, and `taller` says whether the height has grown. */
    ghost predicate Took(t: Tree<int>, d: Data, allocOk: bool, ret: Ret, taller: bool, t': Tree<int>) {
      && Avl(t') && Levels(t') == Levels(t) + (if taller then 1 else 0) && (ret == AvlOk ==> t'.Fork?)
      && (taller && t.Fork? ==> t'.mark != AVL_EH)
      && ret == (if |Put(InOrder(t), d)| == |InOrder(t)| then AvlNodeExist else if allocOk then AvlOk else AvlErr)
      && (if ret == AvlOk then InOrder(t') == Put(InOrder(t), d) else t' == t)
    }

    method InsertAt(node: Node<int>, data: Data, allocOk: bool, ghost path: Path<int>, ghost t: Tree<int>)
      returns (ret: Ret, taller: bool, ghost t': Tree<int>)
      requires Is(path, t) && t.Fork? && node == t.node && Avl(t) && Ascending(InOrder(t))
      modifies this`root, this`nodes, nodes
      ensures Is(path, t') && Took(t, data, allocOk, ret, taller, t') && fresh(nodes - old(nodes))
      decreases t, 2
    {
      hide Holds;
      Down(path, t);
      if data.key == node.data.key {
        Halves(t);
        PutThere(InOrder(t.left), t.data, InOrder(t.right), data);
        ret, taller, t' := AvlNodeExist, false, t;
      } else if data.key < node.data.key {
        ret, taller, t' := InsertLeft(node, data, allocOk, path, t);
      } else {
        ret, taller, t' := InsertRight(node, data, allocOk, path, t);
      }
    }

    lemma LeafTook(d: Data, t: Tree<int>)
      requires t.Fork? && t.left.Leaf? && t.right.Leaf? && t.data == d && t.mark == AVL_EH
      ensures InOrder(t) == Put(InOrder<int>(Leaf), d) && Avl(t) && Levels(t) == 1 == Levels<int>(Leaf) + 1
      ensures |InOrder(t)| == 1 && |InOrder<int>(Leaf)| == 0
    {
    }

    lemma LeafEmpty(t: Tree<int>, d: Data)
      ensures t.Leaf? ==> InOrder(t) == [] && Levels(t) == 0 && Put(InOrder(t), d) == [d]
    {
    }

    lemma AtTop(t: Tree<int>, d: Data)
      requires Is(Top, t)
      ensures root == RootOf(t, null)
      ensures t.Leaf? ==> InOrder(t) == [] && Put(InOrder(t), d) == [d] && nodes == {} && AsMap([]) == map[]
    {
    }

    lemma TookAll(t: Tree<int>, d: Data, allocOk: bool, ret: Ret, taller: bool, t': Tree<int>)
      requires Took(t, d, allocOk, ret, taller, t') && Ascending(InOrder(t)) && Avl(t)
      ensures ret == if d.key in AsMap(InOrder(t)) then AvlNodeExist else if allocOk then AvlOk else AvlErr
      ensures Ascending(InOrder(t')) && Avl(t') && (ret != AvlOk ==> t' == t)
      ensures ret == AvlOk ==> AsMap(InOrder(t')) == AsMap(InOrder(t))[d.key := d] && |InOrder(t')| == |InOrder(t)| + 1
    {
      PutIsAdd(InOrder(t), d);
    }

    /** The first node, which is the root. */
    method InsertFirst(data: Data)
      requires Valid() && root == null
      modifies this
      ensures Valid() && fresh(nodes) && Contents() == map[data.key := data]
    {
      root := new Node(AVL_EH, data);
      root.parent, root.rchild, root.lchild := null, null, null;
      num := 1;
      shape, nodes := Fork(root, AVL_EH, Leaf, data, Leaf), {root};
      FirstHeld(root, data, Snapshot(nodes));
    }

    method Insert(data: Data, allocOk: bool) returns (ret: Ret)
      requires Valid()
      modifies this, nodes
      ensures Valid() && fresh(nodes - old(nodes))
      ensures ret == if data.key in old(Contents()) then AvlNodeExist else if allocOk then AvlOk else AvlErr
      ensures Contents() == if ret == AvlOk then old(Contents())[data.key := data] else old(Contents())
      ensures ret != AvlOk ==> shape == old(shape)
    {
      hide Holds, Ascending, AsMap, Avl, Put, Levels, InOrder, Took, Is;
      AtTop(shape, data);
      if root == null {
        if !allocOk {
          return AvlErr;
        }
        InsertFirst(data);
        return AvlOk;
      }
      var taller;
      ghost var whole;
      ret, taller, whole := InsertAt(root, data, allocOk, Top, shape);
      TookAll(shape, data, allocOk, ret, taller, whole);
      if ret == AvlOk {
        CountUp(|InOrder(shape)|);
        num := Wrap(num + 1);
      }
      shape := whole;
    }

    // -------------------------------------------------------------- insertion on the left

    /** A new node hung as the left child of `node`, which has none. */
    method HangLeft(node: Node<int>, data: Data, ghost path: Path<int>, ghost t: Tree<int>)
        returns (ghost left: Tree<int>)
      requires Is(path, t) && t.Fork? && t.left.Leaf? && node == t.node
      modifies this`nodes, node`lchild
      ensures Is(path, t.(left := left)) && left.Fork? && left == Fork(left.node, AVL_EH, Leaf, data, Leaf)
      ensures fresh(nodes - old(nodes))
    {
      hide Holds;
      Down(path, t);
      ghost var m0 := Snapshot(nodes);
      var add := new Node(AVL_EH, data);
      add.lchild, add.rchild, add.parent := null, null, node;
      node.lchild := add;
      nodes := nodes + {add};
      left := Fork(add, AVL_EH, Leaf, data, Leaf);
      ghost var m1 := Snapshot(nodes);
      assert m1[add] == FieldsOf(add);
      Grown(LeftOf(path, t), add, AVL_EH, data, root, root, m0, m1, null);
      Up(LeftOf(path, t), left);
    }

    /** The left side two levels deeper: one rotation, or two. */
    method LeftBalance(node: Node<int>, ghost path: Path<int>, ghost t: Tree<int>)
        returns (ret: Ret, ghost t': Tree<int>)
      requires Is(path, t) && LeftHeavy(t) && node == t.node && t.left.Fork? && t.left.mark != AVL_EH
      modifies this`root, nodes
      ensures ret == AvlOk && Is(path, t') && InOrder(t') == InOrder(t) && Avl(t') && Levels(t') == Levels(t.left)
    {
      hide Holds, InOrder;
      Down(path, t);
      Down(LeftOf(path, t), t.left);
      if node.lchild.mark == AVL_LH {
        SpunRightFits(t);
        SpinRight(node, AVL_EH, AVL_EH, path, t);
        ret, t' := AvlOk, SpunRight(t, AVL_EH, AVL_EH);
      } else if node.lchild.mark == AVL_RH {
        TwistedRightFits(t);
        ghost var bf := t.left.right.mark;
        TwistRight(node, path, t);
        ret, t' := AvlOk, TwistedRight(t, NearMark(bf, AVL_LH), FarMark(bf, AVL_LH));
      } else {
        assert false;
      }
    }

    /** The left side of `node` has grown by one level. */
    method LeftGrew(node: Node<int>, ghost path: Path<int>, ghost t: Tree<int>)
        returns (taller: bool, ghost t': Tree<int>)
      requires Is(path, t) && t.Fork? && node == t.node && Avl(t.left) && Avl(t.right) && IsFactor(t.mark)
      requires Levels(t.left) == Levels(t.right) + t.mark + 1 && t.left.Fork?
      requires t.mark == AVL_LH ==> t.left.mark != AVL_EH
      modifies this`root, nodes
      ensures Is(path, t') && InOrder(t') == InOrder(t) && Avl(t') && t'.Fork? && (taller ==> t'.mark != AVL_EH)
      ensures Levels(t') == (if taller then 2 else 1) + Max(Levels(t.left) - 1, Levels(t.right))
    {
      hide Holds, InOrder, SpunRight, TwistedRight;
      Down(path, t);
      SameOrder(t);
      if node.mark == AVL_RH {
        SetBf(node, AVL_EH, path, t);
        taller, t' := false, t.(mark := AVL_EH);
      } else if node.mark == AVL_EH {
        SetBf(node, AVL_LH, path, t);
        taller, t' := true, t.(mark := AVL_LH);
      } else {
        var ret;
        ret, t' := LeftBalance(node, path, t);
        taller := false;
      }
    }

    /** The tree with its left side replaced by one that has taken in `d`: its records. */
    lemma LeftTook(t: Tree<int>, d: Data, left: Tree<int>)
      requires t.Fork? && Ascending(InOrder(t)) && d.key < t.data.key
      requires InOrder(left) == Put(InOrder(t.left), d)
      ensures InOrder(t.(left := left)) == Put(InOrder(t), d)
      ensures |Put(InOrder(t), d)| == |InOrder(t)| + |InOrder(left)| - |InOrder(t.left)|
    {
      hide Put, Ascending;
      PutInLeft(t, d);
      LeftReplaced(t, left, d);
    }

    /** And its shape: what is left to do when that side is taller. */
    lemma LeftRoom(t: Tree<int>, left: Tree<int>, taller: bool)
      requires t.Fork? && Avl(t) && Avl(left) && Levels(left) == Levels(t.left) + (if taller then 1 else 0)
      requires left.Fork? && (taller && t.left.Fork? ==> left.mark != AVL_EH)
      ensures Avl(t.right) && IsFactor(t.mark)
      ensures taller ==> var level := Levels(left); level == Levels(t.right) + t.mark + 1
      ensures taller ==>
        (t.mark == AVL_LH ==> left.mark != AVL_EH)
        && 1 + Max(Levels(left) - 1, Levels(t.right)) == Levels(t)
      ensures !taller ==> Avl(t.(left := left)) && Levels(t.(left := left)) == Levels(t)
    {
      hide InOrder;
    }

    lemma LeftSettles(t: Tree<int>, d: Data, allocOk: bool, ret: Ret, taller: bool, left: Tree<int>)
      requires t.Fork? && Avl(t) && Ascending(InOrder(t)) && d.key < t.data.key
        && Took(t.left, d, allocOk, ret, taller, left)
      ensures ret == AvlOk ==> allocOk && left.Fork? && Avl(left) && Avl(t.right) && IsFactor(t.mark)
      ensures ret == AvlOk && taller ==> var level := Levels(left); level == Levels(t.right) + t.mark + 1
      ensures ret == AvlOk && taller ==>
        (t.mark == AVL_LH ==> left.mark != AVL_EH) && 1 + Max(Levels(left) - 1, Levels(t.right)) == Levels(t)
      ensures ret == AvlOk && taller ==>
        InOrder(t.(left := left)) == Put(InOrder(t), d)
        && |Put(InOrder(t), d)| == |InOrder(t)| + 1
      ensures ret != AvlOk || !taller ==> Took(t, d, allocOk, ret, taller, t.(left := left))
    {
      PutInLeft(t, d);
      SizeLeft(t, d);
      if ret == AvlOk {
        LeftTook(t, d, left);
        LeftRoom(t, left, taller);
      }
      hide InOrder, Put, Ascending, Avl, Levels, IsFactor, Max;
    }

    lemma SizeLeft(t: Tree<int>, d: Data)
      requires t.Fork? && Ascending(InOrder(t)) && d.key < t.data.key
      ensures |Put(InOrder(t), d)| - |InOrder(t)| == |Put(InOrder(t.left), d)| - |InOrder(t.left)|
      ensures 0 <= |Put(InOrder(t), d)| - |InOrder(t)| <= 1
    {
      hide Put;
      PutInLeft(t, d);
      PutSize(InOrder(t), d);
    }

    lemma LeftSettled(t: Tree<int>, d: Data, allocOk: bool, left: Tree<int>, taller: bool, t': Tree<int>)
      requires t.Fork? && InOrder(t') == InOrder(t.(left := left)) == Put(InOrder(t), d)
      requires |Put(InOrder(t), d)| == |InOrder(t)| + 1 && allocOk
      requires Avl(t') && t'.Fork? && Levels(t') == Levels(t) + (if taller then 1 else 0)
        && (taller ==> t'.mark != AVL_EH)
      ensures Took(t, d, allocOk, AvlOk, taller, t')
    {
    }

    /** The record goes into the left side, which may be empty. */
    method IntoLeft(node: Node<int>, data: Data, allocOk: bool, ghost path: Path<int>, ghost t: Tree<int>)
      returns (ret: Ret, taller: bool, ghost left: Tree<int>)
      requires Is(path, t) && t.Fork? && node == t.node && Avl(t) && Ascending(InOrder(t)) && data.key < t.data.key
      modifies this`root, this`nodes, nodes
      ensures Is(path, t.(left := left)) && Took(t.left, data, allocOk, ret, taller, left) && fresh(nodes - old(nodes))
      decreases t, 0
    {
      Down(path, t);
      Halves(t);
      LeafEmpty(t.left, data);
      assert Avl(t.left);
      hide Holds, InOrder, Put, Ascending, Avl, Levels, Is;
      if node.lchild == null {
        if !allocOk {
          return AvlErr, false, t.left;
        }
        left := HangLeft(node, data, path, t);
        LeafTook(data, left);
        ret, taller := AvlOk, true;
      } else {
        ret, taller, left := InsertAt(node.lchild, data, allocOk, LeftOf(path, t), t.left);
        Up(LeftOf(path, t), left);
      }
    }

    method InsertLeft(node: Node<int>, data: Data, allocOk: bool, ghost path: Path<int>, ghost t: Tree<int>)
      returns (ret: Ret, taller: bool, ghost t': Tree<int>)
      requires Is(path, t) && t.Fork? && node == t.node && Avl(t) && Ascending(InOrder(t)) && data.key < t.data.key
      modifies this`root, this`nodes, nodes
      ensures Is(path, t') && Took(t, data, allocOk, ret, taller, t') && fresh(nodes - old(nodes))
      decreases t, 1
    {
      hide Holds, InOrder, Put, Ascending, Avl, Levels, IsFactor, Max, Is, Took;
      ghost var left;
      ret, taller, left := IntoLeft(node, data, allocOk, path, t);
      t' := t.(left := left);
      LeftSettles(t, data, allocOk, ret, taller, left);
      if ret == AvlOk && taller {
        taller, t' := LeftGrew(node, path, t');
        LeftSettled(t, data, allocOk, left, taller, t');
      }
    }

    // -------------------------------------------------------------- insertion on the right

    /** A new node hung as the right child of `node`, which has none. */
    method HangRight(node: Node<int>, data: Data, ghost path: Path<int>, ghost t: Tree<int>)
        returns (ghost right: Tree<int>)
      requires Is(path, t) && t.Fork? && t.right.Leaf? && node == t.node
      modifies this`nodes, node`rchild
      ensures Is(path, t.(right := right)) && right.Fork? && right == Fork(right.node, AVL_EH, Leaf, data, Leaf)
      ensures fresh(nodes - old(nodes))
    {
      hide Holds;
      Down(path, t);
      ghost var m0 := Snapshot(nodes);
      var add := new Node(AVL_EH, data);
      add.rchild, add.lchild, add.parent := null, null, node;
      node.rchild := add;
      nodes := nodes + {add};
      right := Fork(add, AVL_EH, Leaf, data, Leaf);
      ghost var m1 := Snapshot(nodes);
      assert m1[add] == FieldsOf(add);
      Grown(RightOf(path, t), add, AVL_EH, data, root, root, m0, m1, null);
      Up(RightOf(path, t), right);
    }

    /** The right side two levels deeper: one rotation, or two. */
    method RightBalance(node: Node<int>, ghost path: Path<int>, ghost t: Tree<int>)
        returns (ret: Ret, ghost t': Tree<int>)
      requires Is(path, t) && RightHeavy(t) && node == t.node && t.right.Fork? && t.right.mark != AVL_EH
      modifies this`root, nodes
      ensures ret == AvlOk && Is(path, t') && InOrder(t') == InOrder(t) && Avl(t') && Levels(t') == Levels(t.right)
    {
      hide Holds, InOrder;
      Down(path, t);
      Down(RightOf(path, t), t.right);
      if node.rchild.mark == AVL_RH {
        SpunLeftFits(t);
        SpinLeft(node, AVL_EH, AVL_EH, path, t);
        ret, t' := AvlOk, SpunLeft(t, AVL_EH, AVL_EH);
      } else if node.rchild.mark == AVL_LH {
        TwistedLeftFits(t);
        ghost var bf := t.right.left.mark;
        TwistLeft(node, path, t);
        ret, t' := AvlOk, TwistedLeft(t, NearMark(bf, AVL_RH), FarMark(bf, AVL_RH));
      } else {
        assert false;
      }
    }

    /** The right side of `node` has grown by one level. */
    method RightGrew(node: Node<int>, ghost path: Path<int>, ghost t: Tree<int>)
        returns (taller: bool, ghost t': Tree<int>)
      requires Is(path, t) && t.Fork? && node == t.node && Avl(t.right) && Avl(t.left) && IsFactor(t.mark)
      requires Levels(t.right) == Levels(t.left) - t.mark + 1 && t.right.Fork?
      requires t.mark == AVL_RH ==> t.right.mark != AVL_EH
      modifies this`root, nodes
      ensures Is(path, t') && InOrder(t') == InOrder(t) && Avl(t') && t'.Fork? && (taller ==> t'.mark != AVL_EH)
      ensures Levels(t') == (if taller then 2 else 1) + Max(Levels(t.right) - 1, Levels(t.left))
    {
      hide Holds, InOrder, SpunLeft, TwistedLeft;
      Down(path, t);
      SameOrder(t);
      if node.mark == AVL_LH {
        SetBf(node, AVL_EH, path, t);
        taller, t' := false, t.(mark := AVL_EH);
      } else if node.mark == AVL_EH {
        SetBf(node, AVL_RH, path, t);
        taller, t' := true, t.(mark := AVL_RH);
      } else {
        var ret;
        ret, t' := RightBalance(node, path, t);
        taller := false;
      }
    }

    /** The tree with its right side replaced by one that has taken in `d`: its records. */
    lemma RightTook(t: Tree<int>, d: Data, right: Tree<int>)
      requires t.Fork? && Ascending(InOrder(t)) && t.data.key < d.key
      requires InOrder(right) == Put(InOrder(t.right), d)
      ensures InOrder(t.(right := right)) == Put(InOrder(t), d)
      ensures |Put(InOrder(t), d)| == |InOrder(t)| + |InOrder(right)| - |InOrder(t.right)|
    {
      hide Put, Ascending;
      PutInRight(t, d);
      RightReplaced(t, right, d);
    }

    /** And its shape: what is right to do when that side is taller. */
    lemma RightRoom(t: Tree<int>, right: Tree<int>, taller: bool)
      requires t.Fork? && Avl(t) && Avl(right) && Levels(right) == Levels(t.right) + (if taller then 1 else 0)
      requires right.Fork? && (taller && t.right.Fork? ==> right.mark != AVL_EH)
      ensures Avl(t.left) && IsFactor(t.mark)
      ensures taller ==> var level := Levels(right); level == Levels(t.left) - t.mark + 1
      ensures taller ==>
        (t.mark == AVL_RH ==> right.mark != AVL_EH)
        && 1 + Max(Levels(right) - 1, Levels(t.left)) == Levels(t)
      ensures !taller ==> Avl(t.(right := right)) && Levels(t.(right := right)) == Levels(t)
    {
      hide InOrder;
    }

    lemma RightSettles(t: Tree<int>, d: Data, allocOk: bool, ret: Ret, taller: bool, right: Tree<int>)
      requires t.Fork? && Avl(t) && Ascending(InOrder(t)) && t.data.key < d.key
        && Took(t.right, d, allocOk, ret, taller, right)
      ensures ret == AvlOk ==> allocOk && right.Fork? && Avl(right) && Avl(t.left) && IsFactor(t.mark)
      ensures ret == AvlOk && taller ==> var level := Levels(right); level == Levels(t.left) - t.mark + 1
      ensures ret == AvlOk && taller ==>
        (t.mark == AVL_RH ==> right.mark != AVL_EH) && 1 + Max(Levels(right) - 1, Levels(t.left)) == Levels(t)
      ensures ret == AvlOk && taller ==>
        InOrder(t.(right := right)) == Put(InOrder(t), d)
        && |Put(InOrder(t), d)| == |InOrder(t)| + 1
      ensures ret != AvlOk || !taller ==> Took(t, d, allocOk, ret, taller, t.(right := right))
    {
      PutInRight(t, d);
      SizeRight(t, d);
      if ret == AvlOk {
        RightTook(t, d, right);
        RightRoom(t, right, taller);
      }
      hide InOrder, Put, Ascending, Avl, Levels, IsFactor, Max;
    }

    lemma SizeRight(t: Tree<int>, d: Data)
      requires t.Fork? && Ascending(InOrder(t)) && t.data.key < d.key
      ensures |Put(InOrder(t), d)| - |InOrder(t)| == |Put(InOrder(t.right), d)| - |InOrder(t.right)|
      ensures 0 <= |Put(InOrder(t), d)| - |InOrder(t)| <= 1
    {
      hide Put;
      PutInRight(t, d);
      PutSize(InOrder(t), d);
    }

    lemma RightSettled(t: Tree<int>, d: Data, allocOk: bool, right: Tree<int>, taller: bool, t': Tree<int>)
      requires t.Fork? && InOrder(t') == InOrder(t.(right := right)) == Put(InOrder(t), d)
      requires |Put(InOrder(t), d)| == |InOrder(t)| + 1 && allocOk
      requires Avl(t') && t'.Fork? && Levels(t') == Levels(t) + (if taller then 1 else 0)
        && (taller ==> t'.mark != AVL_EH)
      ensures Took(t, d, allocOk, AvlOk, taller, t')
    {
    }

    /** The record goes into the right side, which may be empty. */
    method IntoRight(node: Node<int>, data: Data, allocOk: bool, ghost path: Path<int>, ghost t: Tree<int>)
      returns (ret: Ret, taller: bool, ghost right: Tree<int>)
      requires Is(path, t) && t.Fork? && node == t.node && Avl(t) && Ascending(InOrder(t)) && t.data.key < data.key
      modifies this`root, this`nodes, nodes
      ensures Is(path, t.(right := right)) && Took(t.right, data, allocOk, ret, taller, right)
        && fresh(nodes - old(nodes))
      decreases t, 0
    {
      Down(path, t);
      Halves(t);
      LeafEmpty(t.right, data);
      assert Avl(t.right);
      hide Holds, InOrder, Put, Ascending, Avl, Levels, Is;
      if node.rchild == null {
        if !allocOk {
          return AvlErr, false, t.right;
        }
        right := HangRight(node, data, path, t);
        LeafTook(data, right);
        ret, taller := AvlOk, true;
      } else {
        ret, taller, right := InsertAt(node.rchild, data, allocOk, RightOf(path, t), t.right);
        Up(RightOf(path, t), right);
      }
    }

    method InsertRight(node: Node<int>, data: Data, allocOk: bool, ghost path: Path<int>, ghost t: Tree<int>)
      returns (ret: Ret, taller: bool, ghost t': Tree<int>)
      requires Is(path, t) && t.Fork? && node == t.node && Avl(t) && Ascending(InOrder(t)) && t.data.key < data.key
      modifies this`root, this`nodes, nodes
      ensures Is(path, t') && Took(t, data, allocOk, ret, taller, t') && fresh(nodes - old(nodes))
      decreases t, 1
    {
      hide Holds, InOrder, Put, Ascending, Avl, Levels, IsFactor, Max, Is, Took;
      ghost var right;
      ret, taller, right := IntoRight(node, data, allocOk, path, t);
      t' := t.(right := right);
      RightSettles(t, data, allocOk, ret, taller, right);
      if ret == AvlOk && taller {
        taller, t' := RightGrew(node, path, t');
        RightSettled(t, data, allocOk, right, taller, t');
      }
    }

    // -------------------------------------------------------------- deletion

    /** What a deletion below has done: the record of that key is gone, if there was one, the factors
        are right, and `lower` says whether the height has shrunk. */
    ghost predicate Gave(t: Tree<int>, key: int, lower: bool, data: Option<Data>, t': Tree<int>) {
      && Avl(t') && Levels(t') + (if lower then 1 else 0) == Levels(t)
      && InOrder(t') == Without(InOrder(t), key)
      && (if data == None then t' == t && |InOrder(t')| == |InOrder(t)|
          else data.value in InOrder(t) && data.value.key == key && |InOrder(t')| == |InOrder(t)| - 1)
    }

    /** A node with at most one child goes; the child hangs in its place. */
    method Unlink(node: Node<int>, heir: Node?<int>, ghost path: Path<int>, ghost t: Tree<int>, ghost kid: Tree<int>)
      requires Is(path, t) && t.Fork? && node == t.node && heir == RootOf(kid, null)
      requires (t.left.Leaf? && kid == t.right) || (t.right.Leaf? && kid == t.left)
      modifies this`root, this`nodes, nodes
      ensures Is(path, kid) && nodes <= old(nodes)
    {
      hide Holds;
      ghost var root0, m0 := root, Snapshot(nodes);
      UnlinkReady(path, t, kid);
      ReplaceChild(node.parent, node, heir);
      nodes := nodes - {node};
      Spliced(path, t, kid, root0, root, m0, Snapshot(nodes), null);
    }

    lemma UnlinkReady(path: Path<int>, t: Tree<int>, kid: Tree<int>)
      requires Is(path, t) && t.Fork? && (kid == t.left || kid == t.right)
      ensures t.node in nodes && t.node.parent == ParentOf(path, null) && ParentOf(path, null) != t.node
      ensures !path.Top? ==> path.node in nodes && (t.node == path.node.lchild || t.node == path.node.rchild)
      ensures kid.Fork? ==> kid.node in nodes && kid.node != t.node && kid.node != ParentOf(path, null)
    {
      RootInside(kid);
    }

    method DeleteAt(node: Node<int>, key: int, ghost path: Path<int>, ghost t: Tree<int>)
      returns (lower: bool, data: Option<Data>, ghost t': Tree<int>)
      requires Is(path, t) && t.Fork? && node == t.node && Avl(t) && Ascending(InOrder(t))
      modifies this`root, this`nodes, this`num, nodes
      ensures Is(path, t') && Gave(t, key, lower, data, t') && nodes <= old(nodes)
      ensures num == if data == None then old(num) else Wrap(old(num) - 1)
      decreases t, 1
    {
      hide Holds, InOrder, Without, Ascending, Avl, Levels, Is, Gave;
      Down(path, t);
      if key < node.data.key {
        lower, data, t' := DeleteLeft(node, key, path, t);
      } else if key > node.data.key {
        lower, data, t' := DeleteRight(node, key, path, t);
      } else {
        num := Wrap(num - 1);
        data := Some(node.data);
        if node.rchild == null {
          lower, t' := true, t.left;
          Unlink(node, node.lchild, path, t, t.left);
          GoneAlone(t);
        } else if node.lchild == null {
          lower, t' := true, t.right;
          Unlink(node, node.rchild, path, t, t.right);
          GoneAlone(t);
        } else {
          lower, t' := DeleteInner(node, path, t);
        }
      }
    }

    lemma GoneAlone(t: Tree<int>)
      requires t.Fork? && Avl(t) && Ascending(InOrder(t))
      ensures t.right.Leaf? ==> Gave(t, t.data.key, true, Some(t.data), t.left)
      ensures t.left.Leaf? ==> Gave(t, t.data.key, true, Some(t.data), t.right)
    {
      GoneOrder(t);
      hide InOrder, Without, Ascending;
    }

    lemma GoneOrder(t: Tree<int>)
      requires t.Fork? && Ascending(InOrder(t))
      ensures t.data in InOrder(t) && |InOrder(t)| == |InOrder(t.left)| + 1 + |InOrder(t.right)|
      ensures t.right.Leaf? ==> InOrder(t.left) == Without(InOrder(t), t.data.key) && InOrder(t.right) == []
      ensures t.left.Leaf? ==> InOrder(t.right) == Without(InOrder(t), t.data.key) && InOrder(t.left) == []
    {
      hide Ascending, Without, Below, Above;
      var a, b := InOrder(t.left), InOrder(t.right);
      Halves(t);
      WithoutRight(a, t.data, b, t.data.key);
      var s := InOrder(t);
      assert s == a + [t.data] + b;
      hide InOrder;
      assert s[|a|] == t.data;
      assert a + [] == a && [] + b == b;
    }

    /** The node has both children: it takes over the record of the last node of its left side. */
    method DeleteInner(node: Node<int>, ghost path: Path<int>, ghost t: Tree<int>)
        returns (lower: bool, ghost t': Tree<int>)
      requires Is(path, t) && t.Fork? && node == t.node && Avl(t) && Ascending(InOrder(t)) && t.left.Fork?
        && t.right.Fork?
      modifies this`root, this`nodes, nodes
      ensures Is(path, t') && Gave(t, t.data.key, lower, Some(t.data), t') && nodes <= old(nodes)
      decreases t, 0
    {
      hide Holds, InOrder, Without, Ascending, Avl, Levels, Is, Gave, IsFactor, Max;
      Down(path, t);
      Sides(t);
      ghost var base, left, d := LeftOf(path, t), Leaf, t.data;
      lower, left, d := ReplaceAndDelete(node, node.lchild, base, t.left, base);
      Up(Overwrite(base, node, d), left);
      t' := Fork(node, t.mark, left, d, t.right);
      LastTaken(t, left, d, lower);
      if lower {
        lower, t' := DeleteLeftBalance(node, path, t');
        InnerGone(t, left, d, lower, t');
      }
    }

    lemma Sides(t: Tree<int>)
      requires t.Fork? && Avl(t) && Ascending(InOrder(t))
      ensures Avl(t.left) && Avl(t.right) && IsFactor(t.mark) && Ascending(InOrder(t.left))
        && Ascending(InOrder(t.right))
    {
      Halves(t);
    }

    /** The whole after the last record of the left side moved up to the root. */
    lemma LastTaken(t: Tree<int>, left: Tree<int>, d: Data, lower: bool)
      requires t.Fork? && Avl(t) && Ascending(InOrder(t)) && InOrder(t.left) == InOrder(left) + [d]
      requires Avl(left) && Levels(left) + (if lower then 1 else 0) == Levels(t.left)
      ensures var t1 := Fork(t.node, t.mark, left, d, t.right);
        && InOrder(t1) == Without(InOrder(t), t.data.key)
        && (lower ==>
           Levels(left) + 1 == Levels(t.right) + t.mark
           && 1 + Max(Levels(left) + 1, Levels(t.right)) == Levels(t))
        && (!lower ==> Gave(t, t.data.key, false, Some(t.data), t1))
    {
      LastOrder(t, left, d);
      hide Ascending, Without, InOrder;
    }

    lemma LastOrder(t: Tree<int>, left: Tree<int>, d: Data)
      requires t.Fork? && Ascending(InOrder(t)) && InOrder(t.left) == InOrder(left) + [d]
      ensures var t1 := Fork(t.node, t.mark, left, d, t.right);
        InOrder(t1) == Without(InOrder(t), t.data.key) && |InOrder(t1)| == |InOrder(t)| - 1 && t.data in InOrder(t)
    {
      GoneOrder(t);
      Halves(t);
      WithoutRight(InOrder(t.left), t.data, InOrder(t.right), t.data.key);
      assert InOrder(t) == InOrder(t.left) + [t.data] + InOrder(t.right);
      assert InOrder(Fork(t.node, t.mark, left, d, t.right)) == InOrder(left) + [d] + InOrder(t.right);
      hide *;
    }

    lemma InnerGone(t: Tree<int>, left: Tree<int>, d: Data, lower: bool, t': Tree<int>)
      requires t.Fork? && Ascending(InOrder(t))
      requires InOrder(t') == Without(InOrder(t), t.data.key) && Avl(t')
        && Levels(t') + (if lower then 1 else 0) == Levels(t)
      ensures Gave(t, t.data.key, lower, Some(t.data), t')
    {
      var a, b := InOrder(t.left), InOrder(t.right);
      Halves(t);
      WithoutRight(a, t.data, b, t.data.key);
      assert (a + [t.data] + b)[|a|] == t.data;
    }

    /** The last node of the left side of `node` gives its record to `node` and goes. */
    method ReplaceAndDelete(node: Node<int>, prev: Node<int>, ghost path: Path<int>, ghost t: Tree<int>,
        ghost base: Path<int>)
      returns (lower: bool, ghost t': Tree<int>, ghost d: Data)
      requires Is(path, t) && t.Fork? && prev == t.node && Avl(t) && base.InLeft? && base.node == node
        && RightSpine(path, base)
      modifies this`root, this`nodes, nodes
      ensures OnSpine(path, node) && Is(Overwrite(path, node, d), t') && nodes <= old(nodes)
      ensures InOrder(t) == InOrder(t') + [d] && Avl(t') && Levels(t') + (if lower then 1 else 0) == Levels(t)
      decreases t
    {
      hide Holds, InOrder, Avl, Levels, Is, IsFactor, Max, OnSpine, Overwrite, RightSpine;
      Down(path, t);
      SpineHere(path, t, base);
      LastSides(t);
      if prev.rchild == null {
        lower, t', d := true, t.left, prev.data;
        TakeLast(node, prev, path, t, base);
      } else {
        ghost var right;
        SpineGrows(path, t, base);
        lower, right, d := ReplaceAndDelete(node, prev.rchild, RightOf(path, t), t.right, base);
        OverwriteBelow(path, t, node, d);
        ghost var path' := Overwrite(path, node, d);
        Up(RightOf(path', t), right);
        t' := t.(right := right);
        RightShrunk(t, right, lower, d);
        if lower {
          lower, t' := DeleteRightBalance(prev, path', t');
        }
      }
    }

    lemma LastSides(t: Tree<int>)
      requires t.Fork? && Avl(t)
      ensures Avl(t.left) && Avl(t.right) && IsFactor(t.mark)
      ensures t.right.Leaf? ==> InOrder(t) == InOrder(t.left) + [t.data] && Levels(t.left) + 1 == Levels(t)
    {
    }

    lemma RightShrunk(t: Tree<int>, right: Tree<int>, lower: bool, d: Data)
      requires t.Fork? && Avl(t) && InOrder(t.right) == InOrder(right) + [d]
      requires Avl(right) && Levels(right) + (if lower then 1 else 0) == Levels(t.right)
      ensures var t1 := t.(right := right);
        && InOrder(t) == InOrder(t1) + [d]
        && (lower ==>
           Levels(right) + 1 == Levels(t.left) - t.mark
           && 1 + Max(Levels(right) + 1, Levels(t.left)) == Levels(t))
        && (!lower ==> Avl(t1) && Levels(t1) == Levels(t))
    {
    }

    lemma SpineHere(path: Path<int>, t: Tree<int>, base: Path<int>)
      requires Is(path, t) && t.Fork? && base.InLeft? && RightSpine(path, base)
      ensures OnSpine(path, base.node) && base.node in nodes && t.node != base.node
      ensures !path.Top? && path.node in nodes && t.node.parent == path.node
      ensures if path == base then base.node.lchild == t.node && path.node == base.node
              else
                path.InRight? && path.node.rchild == t.node && base.node.lchild != t.node
                && path.node.lchild != t.node
    {
      SpineIn(path, base, t.node, root, Snapshot(nodes));
      if path != base { RootInside(path.left); }
    }

    lemma SpineGrows(path: Path<int>, t: Tree<int>, base: Path<int>)
      requires t.Fork? && base.InLeft? && RightSpine(path, base)
      ensures RightSpine(RightOf(path, t), base)
    {
    }

    lemma OverwriteBelow(path: Path<int>, t: Tree<int>, n: Node<int>, d: Data)
      requires t.Fork? && t.node != n && OnSpine(path, n)
      ensures OnSpine(RightOf(path, t), n) && Overwrite(RightOf(path, t), n, d) == RightOf(Overwrite(path, n, d), t)
    {
    }

    /** `prev`, which has no right child, gives its record to `node`; its left child hangs in its place. */
    method TakeLast(node: Node<int>, prev: Node<int>, ghost path: Path<int>, ghost t: Tree<int>, ghost base: Path<int>)
      requires Is(path, t) && t.Fork? && prev == t.node && t.right.Leaf?
      requires base.InLeft? && base.node == node && RightSpine(path, base)
      modifies this`root, this`nodes, nodes
      ensures OnSpine(path, node) && Is(Overwrite(path, node, old(prev.data)), t.left) && nodes <= old(nodes)
    {
      hide Holds, OnSpine, Overwrite, RightSpine;
      SpineHere(path, t, base);
      Down(path, t);
      ghost var d := prev.data;
      TakeData(node, prev.data, path, t);
      ghost var path' := Overwrite(path, node, d);
      OverwriteTop(path, node, d);
      UnlinkReady(path', t, t.left);
      Down(path', t);
      ghost var m0 := Snapshot(nodes);
      if prev == node.lchild {
        SetLchild(node, prev.lchild);
      } else {
        SetRchild(prev.parent, prev.lchild);
      }
      nodes := nodes - {prev};
      Spliced(path', t, t.left, root, root, m0, Snapshot(nodes), null);
    }

    method TakeData(node: Node<int>, data: Data, ghost path: Path<int>, ghost t: Tree<int>)
      requires Is(path, t) && OnSpine(path, node) && node in nodes
      modifies node`data
      ensures Is(Overwrite(path, node, data), t)
    {
      hide Holds, HoldsTree, HoldsPath, PathNodes, TreeNodes, PathApart, TreeApart, InOrder, Before, After, OnSpine,
        Overwrite;
      ghost var m0 := Snapshot(nodes);
      node.data := data;
      assert Snapshot(nodes) == m0[node := m0[node].(data := data)];
      Overwritten(path, t, node, data, root, m0, Snapshot(nodes), null);
    }

    lemma OverwriteTop(path: Path<int>, n: Node<int>, d: Data)
      requires OnSpine(path, n)
      ensures var p := Overwrite(path, n, d); !p.Top? && p.node == path.node && (p.InLeft? <==> path.InLeft?)
    {
    }

    method Delete(key: int) returns (ret: Ret, data: Option<Data>)
      requires Valid()
      modifies this, nodes
      ensures Valid() && nodes <= old(nodes)
      ensures ret == AvlOk && data == Lookup(old(Contents()), key)
      ensures Contents() == old(Contents()) - {key}
      ensures data == None ==> shape == old(shape)
    {
      hide Holds, Ascending, AsMap, Avl, Without, Levels, InOrder, Gave, Is;
      ret := AvlOk;
      AtTop(shape, Data(key, 0));
      if root == null {
        data := None;
        return;
      }
      var lower;
      ghost var whole;
      lower, data, whole := DeleteAt(root, key, Top, shape);
      GaveAll(shape, key, lower, data, whole);
      if data != None {
        CountDown(|InOrder(shape)|);
      }
      shape := whole;
    }

    lemma GaveAll(t: Tree<int>, key: int, lower: bool, data: Option<Data>, t': Tree<int>)
      requires Gave(t, key, lower, data, t') && Ascending(InOrder(t))
      ensures Ascending(InOrder(t')) && Avl(t') && (data == None ==> t' == t)
      ensures data == Lookup(AsMap(InOrder(t)), key) && AsMap(InOrder(t')) == AsMap(InOrder(t)) - {key}
      ensures data != None ==> |InOrder(t')| == |InOrder(t)| - 1
    {
      WithoutIsRemove(InOrder(t), key);
      if data == None { HasKey(InOrder(t), key); }
      hide InOrder, Without, Avl, Levels;
    }

    // -------------------------------------------------------------- search

    method Query(key: int) returns (data: Option<Data>)
      requires Valid()
      ensures data == Lookup(Contents(), key)
    {
      hide Holds, InOrder, Ascending, AsMap, Avl, Levels;
      var node := root;
      ghost var path, t := Top, shape;
      AtTop(shape, Data(key, 0));
      while node != null
        invariant Is(path, t) && node == RootOf(t, null) && Ascending(InOrder(t))
        invariant Lookup(Contents(), key) == Lookup(AsMap(InOrder(t)), key)
        decreases t
      {
        Down(path, t);
        SearchSplits(t, key);
        if key == node.data.key {
          return Some(node.data);
        } else if key < node.data.key {
          node := node.lchild;
          path, t := LeftOf(path, t), t.left;
        } else {
          node := node.rchild;
          path, t := RightOf(path, t), t.right;
        }
      }
      LeafEmpty(t, Data(key, 0));
      LeafHasNone(t, key);
      data := None;
    }

    lemma LeafHasNone(t: Tree<int>, key: int)
      requires t.Leaf?
      ensures Ascending(InOrder(t)) && Lookup(AsMap(InOrder(t)), key) == None
    {
    }

    /** Only one side, or the root, can hold `key`. */
    lemma SearchSplits(t: Tree<int>, key: int)
      requires t.Fork? && Ascending(InOrder(t))
      ensures Ascending(InOrder(t.left)) && Ascending(InOrder(t.right))
      ensures Lookup(AsMap(InOrder(t)), key) ==
        if key == t.data.key then Some(t.data)
        else if key < t.data.key then Lookup(AsMap(InOrder(t.left)), key) else Lookup(AsMap(InOrder(t.right)), key)
    {
      Halves(t);
      FoundAt(InOrder(t.left), t.data, InOrder(t.right));
      assert InOrder(t) == InOrder(t.left) + [t.data] + InOrder(t.right);
      hide InOrder, AsMap, Lookup, Ascending, Above, Below;
      if key < t.data.key {
        LookupLeft(InOrder(t.left), t.data, InOrder(t.right), key);
      } else if key > t.data.key {
        LookupRight(InOrder(t.left), t.data, InOrder(t.right), key);
      }
    }

    // -------------------------------------------------------------- deletion on the left

    /** The left side of `node` has lost one level. */
    method DeleteLeftBalance(node: Node<int>, ghost path: Path<int>, ghost t: Tree<int>)
        returns (lower: bool, ghost t': Tree<int>)
      requires Is(path, t) && t.Fork? && node == t.node && Avl(t.left) && Avl(t.right) && IsFactor(t.mark)
      requires Levels(t.left) + 1 == Levels(t.right) + t.mark
      modifies this`root, nodes
      ensures Is(path, t') && InOrder(t') == InOrder(t) && Avl(t')
      ensures Levels(t') + (if lower then 1 else 0) == 1 + Max(Levels(t.left) + 1, Levels(t.right))
    {
      hide Holds, InOrder, SpunLeft, TwistedLeft, Is;
      Down(path, t);
      SameOrder(t);
      if node.mark == AVL_LH {
        SetBf(node, AVL_EH, path, t);
        lower, t' := true, t.(mark := AVL_EH);
      } else if node.mark == AVL_EH {
        SetBf(node, AVL_RH, path, t);
        lower, t' := false, t.(mark := AVL_RH);
      } else {
        Down(RightOf(path, t), t.right);
        var rchild := node.rchild;
        if rchild.mark == AVL_EH {
          SpunLeftFits(t);
          SpinLeft(node, AVL_RH, AVL_LH, path, t);
          lower, t' := false, SpunLeft(t, AVL_RH, AVL_LH);
        } else if rchild.mark == AVL_RH {
          SpunLeftFits(t);
          SpinLeft(node, AVL_EH, AVL_EH, path, t);
          lower, t' := true, SpunLeft(t, AVL_EH, AVL_EH);
        } else {
          TwistedLeftFits(t);
          ghost var bf := t.right.left.mark;
          TwistLeft(node, path, t);
          lower, t' := true, TwistedLeft(t, NearMark(bf, AVL_RH), FarMark(bf, AVL_RH));
        }
      }
    }

    method DeleteLeft(node: Node<int>, key: int, ghost path: Path<int>, ghost t: Tree<int>)
      returns (lower: bool, data: Option<Data>, ghost t': Tree<int>)
      requires Is(path, t) && t.Fork? && node == t.node && Avl(t) && Ascending(InOrder(t)) && key < t.data.key
      modifies this`root, this`nodes, this`num, nodes
      ensures Is(path, t') && Gave(t, key, lower, data, t') && nodes <= old(nodes)
      ensures num == if data == None then old(num) else Wrap(old(num) - 1)
      decreases t, 0
    {
      hide Holds, InOrder, Without, Ascending, Avl, Levels, Is, Gave, IsFactor, Max;
      Down(path, t);
      Sides(t);
      if node.lchild == null {
        MissesLeft(t, key);
        return false, None, t;
      }
      ghost var left;
      lower, data, left := DeleteAt(node.lchild, key, LeftOf(path, t), t.left);
      Up(LeftOf(path, t), left);
      t' := t.(left := left);
      LeftGave(t, key, lower, data, left);
      if lower {
        lower, t' := DeleteLeftBalance(node, path, t');
        GoneLeft(t, key, lower, data, left, t');
      }
    }

    lemma MissesLeft(t: Tree<int>, key: int)
      requires t.Fork? && Avl(t) && Ascending(InOrder(t)) && key < t.data.key && t.left.Leaf?
      ensures Gave(t, key, false, None, t)
    {
      WithoutSides(t, key);
    }

    /** The tree with its left side replaced by one that has given up the record of `key`. */
    lemma LeftGave(t: Tree<int>, key: int, lower: bool, data: Option<Data>, left: Tree<int>)
      requires t.Fork? && Avl(t) && Ascending(InOrder(t)) && key < t.data.key && Gave(t.left, key, lower, data, left)
      ensures InOrder(t.(left := left)) == Without(InOrder(t), key) && Avl(left)
      ensures lower ==> data != None && 1 + Max(Levels(left) + 1, Levels(t.right)) == Levels(t)
      ensures lower ==> var level := Levels(left); level + 1 == Levels(t.right) + t.mark
      ensures !lower ==> Gave(t, key, false, data, t.(left := left))
    {
      WithoutSides(t, key);
      LeftReplaced(t, left, t.data);
      hide InOrder, Without, Ascending;
    }

    lemma GoneLeft(t: Tree<int>, key: int, lower: bool, data: Option<Data>, left: Tree<int>, t': Tree<int>)
      requires t.Fork? && Ascending(InOrder(t)) && key < t.data.key && data != None
      requires Gave(t.left, key, true, data, left)
      requires InOrder(t') == InOrder(t.(left := left)) == Without(InOrder(t), key)
      requires Avl(t') && Levels(t') + (if lower then 1 else 0) == Levels(t)
      ensures Gave(t, key, lower, data, t')
    {
      WithoutSides(t, key);
      LeftReplaced(t, left, t.data);
      hide Without, Ascending;
    }

    // -------------------------------------------------------------- deletion on the right

    /** The right side of `node` has lost one level. */
    method DeleteRightBalance(node: Node<int>, ghost path: Path<int>, ghost t: Tree<int>)
        returns (lower: bool, ghost t': Tree<int>)
      requires Is(path, t) && t.Fork? && node == t.node && Avl(t.right) && Avl(t.left) && IsFactor(t.mark)
      requires Levels(t.right) + 1 == Levels(t.left) - t.mark
      modifies this`root, nodes
      ensures Is(path, t') && InOrder(t') == InOrder(t) && Avl(t')
      ensures Levels(t') + (if lower then 1 else 0) == 1 + Max(Levels(t.right) + 1, Levels(t.left))
    {
      hide Holds, InOrder, SpunRight, TwistedRight, Is;
      Down(path, t);
      SameOrder(t);
      if node.mark == AVL_RH {
        SetBf(node, AVL_EH, path, t);
        lower, t' := true, t.(mark := AVL_EH);
      } else if node.mark == AVL_EH {
        SetBf(node, AVL_LH, path, t);
        lower, t' := false, t.(mark := AVL_LH);
      } else {
        Down(LeftOf(path, t), t.left);
        var lchild := node.lchild;
        if lchild.mark == AVL_EH {
          SpunRightFits(t);
          SpinRight(node, AVL_LH, AVL_RH, path, t);
          lower, t' := false, SpunRight(t, AVL_LH, AVL_RH);
        } else if lchild.mark == AVL_LH {
          SpunRightFits(t);
          SpinRight(node, AVL_EH, AVL_EH, path, t);
          lower, t' := true, SpunRight(t, AVL_EH, AVL_EH);
        } else {
          TwistedRightFits(t);
          ghost var bf := t.left.right.mark;
          TwistRight(node, path, t);
          lower, t' := true, TwistedRight(t, NearMark(bf, AVL_LH), FarMark(bf, AVL_LH));
        }
      }
    }

    method DeleteRight(node: Node<int>, key: int, ghost path: Path<int>, ghost t: Tree<int>)
      returns (lower: bool, data: Option<Data>, ghost t': Tree<int>)
      requires Is(path, t) && t.Fork? && node == t.node && Avl(t) && Ascending(InOrder(t)) && t.data.key < key
      modifies this`root, this`nodes, this`num, nodes
      ensures Is(path, t') && Gave(t, key, lower, data, t') && nodes <= old(nodes)
      ensures num == if data == None then old(num) else Wrap(old(num) - 1)
      decreases t, 0
    {
      hide Holds, InOrder, Without, Ascending, Avl, Levels, Is, Gave, IsFactor, Max;
      Down(path, t);
      Sides(t);
      if node.rchild == null {
        MissesRight(t, key);
        return false, None, t;
      }
      ghost var right;
      lower, data, right := DeleteAt(node.rchild, key, RightOf(path, t), t.right);
      Up(RightOf(path, t), right);
      t' := t.(right := right);
      RightGave(t, key, lower, data, right);
      if lower {
        lower, t' := DeleteRightBalance(node, path, t');
        GoneRight(t, key, lower, data, right, t');
      }
    }

    lemma MissesRight(t: Tree<int>, key: int)
      requires t.Fork? && Avl(t) && Ascending(InOrder(t)) && t.data.key < key && t.right.Leaf?
      ensures Gave(t, key, false, None, t)
    {
      WithoutSides(t, key);
    }

    /** The tree with its right side replaced by one that has given up the record of `key`. */
    lemma RightGave(t: Tree<int>, key: int, lower: bool, data: Option<Data>, right: Tree<int>)
      requires t.Fork? && Avl(t) && Ascending(InOrder(t)) && t.data.key < key && Gave(t.right, key, lower, data, right)
      ensures InOrder(t.(right := right)) == Without(InOrder(t), key) && Avl(right)
      ensures lower ==> data != None && 1 + Max(Levels(right) + 1, Levels(t.left)) == Levels(t)
      ensures lower ==> var level := Levels(right); level + 1 == Levels(t.left) - t.mark
      ensures !lower ==> Gave(t, key, false, data, t.(right := right))
    {
      WithoutSides(t, key);
      RightReplaced(t, right, t.data);
      hide InOrder, Without, Ascending;
    }

    lemma GoneRight(t: Tree<int>, key: int, lower: bool, data: Option<Data>, right: Tree<int>, t': Tree<int>)
      requires t.Fork? && Ascending(InOrder(t)) && t.data.key < key && data != None
      requires Gave(t.right, key, true, data, right)
      requires InOrder(t') == InOrder(t.(right := right)) == Without(InOrder(t), key)
      requires Avl(t') && Levels(t') + (if lower then 1 else 0) == Levels(t)
      ensures Gave(t, key, lower, data, t')
    {
      WithoutSides(t, key);
      RightReplaced(t, right, t.data);
      hide Without, Ascending;
    }
  }
}
