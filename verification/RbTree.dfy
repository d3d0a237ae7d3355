/** The red-black tree of `rb_tree.c`: nodes linked through parent and child pointers, one black
    sentinel standing for every missing child and for the parent of the root. */
module RbTree {
  import opened Arith
  import opened Records
  import opened BinTree
  import opened RbShape

  datatype Side = LChild | RChild

  datatype Ret = RbtOk | RbtErr | RbtNodeExist

  const RBT_MAX_DEPTH := 512

  class RbTree {
    var num: nat        // a uint64_t in the source: counts modulo 2^64
    var root: Node<Color>
    const sentinel: Node<Color>

    ghost var shape: Tree<Color>
    ghost var nodes: set<Node<Color>>

    /** The heap holds exactly `t` hanging below `path`. */
    ghost predicate Is(path: Path<Color>, t: Tree<Color>)
      reads this`root, this`nodes, nodes, sentinel`mark
    {
      sentinel.mark == Black && Holds(path, t, root, Snapshot(nodes), sentinel)
    }

    ghost predicate Valid()
      reads this, nodes, sentinel
    {
      && Is(Top, shape) && RedBlack(shape) && Ascending(InOrder(shape))
      && num == Wrap(|InOrder(shape)|)
    }

    ghost function Contents(): map<int, Data>
      requires Valid()
      reads this, nodes, sentinel
    {
      AsMap(InOrder(shape))
    }

    constructor ()
      ensures Valid() && Contents() == map[] && num == 0
      ensures nodes == {} && fresh(sentinel)
    {
      var s := new Node(Black, Data(0, 0));
      sentinel, root := s, s;
      num := 0;
      shape, nodes := Leaf, {};
      new;
      assert Balanced(shape, 0);
    }

    // -------------------------------------------------------------- reading the shape off the heap

    lemma Up(path: Path<Color>, t: Tree<Color>)
      requires !path.Top? && Is(path, t)
      ensures Is(path.up, Step(path, t))
      ensures All(path.up, Step(path, t)) == All(path, t)
    {
      hide Holds, InOrder, Before, After;
      HoldsUp(path, t, root, Snapshot(nodes), sentinel);
      UpKeepsAll(path, t);
    }

    lemma UpKeepsAll(path: Path<Color>, t: Tree<Color>)
      requires !path.Top?
      ensures All(path.up, Step(path, t)) == All(path, t)
    {
      if path.InLeft? {
        Regroup(Before(path.up), InOrder(t), [path.data], InOrder(path.right), After(path.up));
      } else {
        Regroup(Before(path.up), InOrder(path.left), [path.data], InOrder(t), After(path.up));
      }
    }

    lemma Down(path: Path<Color>, t: Tree<Color>)
      requires t.Fork? && Is(path, t)
      ensures Is(LeftOf(path, t), t.left) && Is(RightOf(path, t), t.right)
      ensures All(LeftOf(path, t), t.left) == All(path, t) == All(RightOf(path, t), t.right)
      ensures t.node in nodes && FieldsOf(t.node) ==
        Fields(t.mark, t.data, ParentOf(path, sentinel), RootOf(t.left, sentinel), RootOf(t.right, sentinel))
    {
      HoldsLeft(path, t, root, Snapshot(nodes), sentinel);
      HoldsRight(path, t, root, Snapshot(nodes), sentinel);
      DownKeepsAll(path, t);
    }

    lemma DownKeepsAll(path: Path<Color>, t: Tree<Color>)
      requires t.Fork?
      ensures All(LeftOf(path, t), t.left) == All(path, t) == All(RightOf(path, t), t.right)
    {
      Regroup(Before(path), InOrder(t.left), [t.data], InOrder(t.right), After(path));
    }

    /** The node above the focus, and which of its children the focus is. */
    lemma Overhead(path: Path<Color>, t: Tree<Color>)
      requires !path.Top? && Is(path, t)
      ensures path.node in nodes && path.node != sentinel && path.node.mark == path.mark
      ensures path.node.data == path.data && path.node.parent == ParentOf(path.up, sentinel)
      ensures path.InLeft? ==>
        path.node.lchild == RootOf(t, sentinel)
        && path.node.rchild == RootOf(path.right, sentinel)
      ensures path.InRight? ==>
        path.node.rchild == RootOf(t, sentinel)
        && path.node.lchild == RootOf(path.left, sentinel)
      ensures t.Fork? || (if path.InLeft? then path.right else path.left).Fork? ==>
        (RootOf(t, sentinel) == path.node.lchild <==> path.InLeft?)
    {
      RootInside(t);
      RootInside(if path.InLeft? then path.right else path.left);
    }

    lemma AtRoot(path: Path<Color>, t: Tree<Color>)
      requires Is(path, t)
      ensures path.Top? <==> RootOf(t, sentinel) == root
      ensures t.Fork? ==> t.node in nodes && t.node.mark == t.mark && t.node.parent == ParentOf(path, sentinel)
      ensures (t.Leaf? <==> RootOf(t, sentinel) == sentinel) && sentinel !in nodes
    {
      RootInside(t);
      RootOnPath(path, RootOf(t, sentinel), root, Snapshot(nodes), sentinel);
    }

    // -------------------------------------------------------------- the primitive writes

    method SetColor(node: Node<Color>, color: Color, ghost path: Path<Color>, ghost t: Tree<Color>)
      requires t.Fork? && t.node == node && Is(path, t)
      modifies node`mark
      ensures Is(path, t.(mark := color)) && All(path, t.(mark := color)) == All(path, t)
    {
      ghost var m0 := Snapshot(nodes);
      RootInside(t);
      node.mark := color;
      assert Snapshot(nodes) == m0[node := m0[node].(mark := color)];
      Painted(path, t, color, root, m0, Snapshot(nodes), sentinel);
    }

    /** Puts `heir` in the place of `child` below `parent`. */
    method ReplaceChild(parent: Node<Color>, child: Node<Color>, heir: Node<Color>)
      requires child != sentinel
      modifies this`root, (if parent != sentinel then {parent} else {})`lchild
      modifies (if parent != sentinel then {parent} else {})`rchild
      ensures if parent == sentinel then root == heir
              else root == old(root) && FieldsOf(parent) == Relinked(old(FieldsOf(parent)), child, heir)
    {
      if parent == sentinel {
        root := heir;
      } else if child == parent.lchild {
        parent.lchild := heir;
      } else {
        parent.rchild := heir;
      }
    }

    method SetLchild(node: Node<Color>, left: Node<Color>)
      modifies node`lchild, (if left != sentinel then {left} else {})`parent
      ensures node.lchild == left
      ensures left != sentinel ==> left.parent == node
    {
      node.lchild := left;
      if sentinel != left {
        left.parent := node;
      }
    }

    method SetRchild(node: Node<Color>, right: Node<Color>)
      modifies node`rchild, (if right != sentinel then {right} else {})`parent
      ensures node.rchild == right
      ensures right != sentinel ==> right.parent == node
    {
      node.rchild := right;
      if sentinel != right {
        right.parent := node;
      }
    }

    /** Rotates right about `node`, stated field by field. */
    method TurnRight(node: Node<Color>)
      requires node.parent != null && node.lchild != null && node.lchild.rchild != null
      requires node != node.lchild && node != node.lchild.rchild && node.lchild != node.lchild.rchild
      requires node.parent !in {node, node.lchild}
      requires node.parent == sentinel || node.parent != node.lchild.rchild
      requires sentinel !in {node, node.lchild}
      modifies this`root, node, node.lchild, (if node.lchild.rchild != sentinel then {node.lchild.rchild} else {})
      modifies (if node.parent != sentinel then {node.parent} else {})
      ensures var l, p, b := old(node.lchild), old(node.parent), old(node.lchild.rchild);
        && (if p == sentinel then root == l
            else root == old(root) && FieldsOf(p) == Relinked(old(FieldsOf(node.parent)), node, l))
        && FieldsOf(node) == old(FieldsOf(node)).(parent := l, lchild := b)
        && FieldsOf(l) == old(FieldsOf(node.lchild)).(parent := p, rchild := node)
        && (b != sentinel ==> FieldsOf(b) == old(FieldsOf(node.lchild.rchild)).(parent := node))
    {
      var parent, lchild := node.parent, node.lchild;
      if parent == sentinel {
        root := lchild;
        lchild.parent := sentinel;
      } else if node == parent.lchild {
        SetLchild(parent, lchild);
      } else {
        SetRchild(parent, lchild);
      }
      SetLchild(node, lchild.rchild);
      SetRchild(lchild, node);
    }

    method RightRotate(node: Node<Color>, ghost path: Path<Color>, ghost t: Tree<Color>)
      requires t.Fork? && t.node == node && t.left.Fork? && Is(path, t)
      modifies this`root, nodes
      ensures Is(path, RotateRight(t)) && All(path, RotateRight(t)) == All(path, t)
    {
      hide Holds, HoldsTree, HoldsPath, PathNodes, TreeNodes, PathApart, TreeApart, InOrder, Before, After, RotateRight;
      ghost var root0, m0 := root, Snapshot(nodes);
      RightReady(path, t, root, m0, sentinel);
      AtRoot(path, t);
      TurnRight(node);
      RotatedRight(path, t, root0, root, m0, Snapshot(nodes), sentinel);
    }

    /** Rotates left about `node`, stated field by field. */
    method TurnLeft(node: Node<Color>)
      requires node.parent != null && node.rchild != null && node.rchild.lchild != null
      requires node != node.rchild && node != node.rchild.lchild && node.rchild != node.rchild.lchild
      requires node.parent !in {node, node.rchild}
      requires node.parent == sentinel || node.parent != node.rchild.lchild
      requires sentinel !in {node, node.rchild}
      modifies this`root, node, node.rchild, (if node.rchild.lchild != sentinel then {node.rchild.lchild} else {})
      modifies (if node.parent != sentinel then {node.parent} else {})
      ensures var l, p, b := old(node.rchild), old(node.parent), old(node.rchild.lchild);
        && (if p == sentinel then root == l
            else root == old(root) && FieldsOf(p) == Relinked(old(FieldsOf(node.parent)), node, l))
        && FieldsOf(node) == old(FieldsOf(node)).(parent := l, rchild := b)
        && FieldsOf(l) == old(FieldsOf(node.rchild)).(parent := p, lchild := node)
        && (b != sentinel ==> FieldsOf(b) == old(FieldsOf(node.rchild.lchild)).(parent := node))
    {
      var parent, rchild := node.parent, node.rchild;
      if parent == sentinel {
        root := rchild;
        rchild.parent := sentinel;
      } else if node == parent.lchild {
        SetLchild(parent, rchild);
      } else {
        SetRchild(parent, rchild);
      }
      SetRchild(node, rchild.lchild);
      SetLchild(rchild, node);
    }

    method LeftRotate(node: Node<Color>, ghost path: Path<Color>, ghost t: Tree<Color>)
      requires t.Fork? && t.node == node && t.right.Fork? && Is(path, t)
      modifies this`root, nodes
      ensures Is(path, RotateLeft(t)) && All(path, RotateLeft(t)) == All(path, t)
    {
      hide Holds, HoldsTree, HoldsPath, PathNodes, TreeNodes, PathApart, TreeApart, InOrder, Before, After, RotateLeft;
      ghost var root0, m0 := root, Snapshot(nodes);
      LeftReady(path, t, root, m0, sentinel);
      AtRoot(path, t);
      TurnLeft(node);
      RotatedLeft(path, t, root0, root, m0, Snapshot(nodes), sentinel);
    }


    // -------------------------------------------------------------- search

    /** The search for `key` has come to `t`: everything off the path to it is on the right side of `key`. */
    ghost predicate Searching(path: Path<Color>, t: Tree<Color>, h: nat, key: int)
      reads this, nodes, sentinel
    {
      && Is(path, t) && Balanced(t, h) && Fits(path, h) && (IsBlack(t) || AllowsRed(path))
      && All(path, t) == InOrder(shape) && Ascending(InOrder(shape))
      && Below(Before(path), key) && Above(After(path), key)
    }

    lemma StartSearch(key: int) returns (h: nat)
      requires Valid()
      ensures Searching(Top, shape, h, key)
      ensures root == RootOf(shape, sentinel)
    {
      h :| Balanced(shape, h);
      assert All(Top, shape) == InOrder(shape);
      AtRoot(Top, shape);
    }

    /** The record at the focus splits the contents in two. */
    lemma Split(path: Path<Color>, t: Tree<Color>)
      requires t.Fork? && Ascending(All(path, t))
      ensures var a, b := Before(path) + InOrder(t.left), InOrder(t.right) + After(path);
        && All(path, t) == a + [t.data] + b && Below(a, t.data.key) && Above(b, t.data.key)
    {
      var a, b := Before(path) + InOrder(t.left), InOrder(t.right) + After(path);
      assert All(path, t) == a + [t.data] + b;
      SplitAscending(a, t.data, b);
    }

    lemma GoLeft(path: Path<Color>, t: Tree<Color>, h: nat, key: int) returns (h': nat)
      requires Searching(path, t, h, key) && t.Fork? && key < t.data.key
      ensures Searching(LeftOf(path, t), t.left, h', key)
    {
      hide Holds, Ascending;
      h' := if t.mark == Red then h else h - 1;
      Down(path, t);
      Split(path, t);
      hide All, Balanced, Fits;
      ghost var b := InOrder(t.right) + After(path);
      assert After(LeftOf(path, t)) == [t.data] + b;
      assert Above([t.data] + b, key);
    }

    lemma GoRight(path: Path<Color>, t: Tree<Color>, h: nat, key: int) returns (h': nat)
      requires Searching(path, t, h, key) && t.Fork? && t.data.key < key
      ensures Searching(RightOf(path, t), t.right, h', key)
    {
      hide Holds, Ascending;
      h' := if t.mark == Red then h else h - 1;
      Down(path, t);
      Split(path, t);
      hide All, Balanced, Fits;
      ghost var a := Before(path) + InOrder(t.left);
      assert Before(RightOf(path, t)) == a + [t.data];
      assert Below(a + [t.data], key);
    }

    lemma Hit(path: Path<Color>, t: Tree<Color>, h: nat, key: int)
      requires Searching(path, t, h, key) && t.Fork? && t.data.key == key
      ensures Lookup(AsMap(InOrder(shape)), key) == Some(t.data)
    {
      Split(path, t);
      FoundAt(Before(path) + InOrder(t.left), t.data, InOrder(t.right) + After(path));
    }

    lemma Miss(path: Path<Color>, h: nat, key: int)
      requires Searching(path, Leaf, h, key)
      ensures Lookup(AsMap(InOrder(shape)), key) == None
    {
      assert All(path, Leaf) == Before(path) + After(path);
      NotFound(Before(path), After(path), key);
    }

    method Query(key: int) returns (data: Option<Data>)
      requires Valid()
      ensures data == Lookup(Contents(), key)
    {
      hide Holds;
      var node := root;
      ghost var path, t := Top, shape;
      ghost var h := StartSearch(key);
      while node != sentinel
        invariant Searching(path, t, h, key) && node == RootOf(t, sentinel)
        decreases t
      {
        AtRoot(path, t);
        Down(path, t);
        if key == node.data.key {
          Hit(path, t, h, key);
          return Some(node.data);
        } else if key < node.data.key {
          h := GoLeft(path, t, h, key);
          node := node.lchild;
          path, t := LeftOf(path, t), t.left;
        } else {
          h := GoRight(path, t, h, key);
          node := node.rchild;
          path, t := RightOf(path, t), t.right;
        }
      }
      AtRoot(path, t);
      Miss(path, h, key);
      data := None;
    }
    // -------------------------------------------------------------- insert

    /** A balanced subtree `t` of black height `h` sits where any balanced one of that height fits;
        if its root is red, the node above may be red too, which is all that can be wrong. */
    ghost predicate Inserting(path: Path<Color>, t: Tree<Color>, h: nat, all: seq<Data>)
      reads this`root, this`nodes, nodes, sentinel
    {
      && Is(path, t) && Balanced(t, h) && Fits(path, h) && All(path, t) == all
      && t.Fork? && (t.mark == Red ==> !path.Top?)
    }

    /** The colour of the node beside the parent, read off the heap. */
    lemma Uncle(path: Path<Color>, t: Tree<Color>)
      requires !path.Top? && Is(path, t)
      ensures var u := if path.InLeft? then path.right else path.left;
        && (RootOf(u, sentinel).mark == Black <==> IsBlack(u)) && (u.Fork? <==> RootOf(u, sentinel) != sentinel)
    {
      Up(path, t);
      Down(path.up, Step(path, t));
      if path.InLeft? {
        AtRoot(RightOf(path.up, Step(path, t)), path.right);
      } else {
        AtRoot(LeftOf(path.up, Step(path, t)), path.left);
      }
    }

    /** Once the subtree is black the whole is sound, and stays so seen from the node above. */
    lemma StepOut(path: Path<Color>, t: Tree<Color>, h: nat, all: seq<Data>)
        returns (path': Path<Color>, t': Tree<Color>, h': nat)
      requires Inserting(path, t, h, all) && IsBlack(t)
      ensures Inserting(path', t', h', all)
      ensures path.Top? ==> path' == path && t' == t
      ensures !path.Top? ==> path' == path.up && t'.node == path.node && t'.node.mark == t'.mark
    {
      path', t', h' := path, t, h;
      if !path.Top? {
        Up(path, t);
        path', t', h' := path.up, Step(path, t), if path.mark == Red then h else h + 1;
        AtRoot(path', t');
      }
    }

    /** Parent and uncle red, the parent a left child: both turn black, the trouble moves up two levels. */
    method LeftUncleRed(parent: Node<Color>, uncle: Node<Color>, grandpa: Node<Color>,
                        ghost path: Path<Color>, ghost t: Tree<Color>, ghost h: nat, ghost all: seq<Data>)
      returns (ghost path': Path<Color>, ghost t': Tree<Color>, ghost h': nat)
      requires Inserting(path, t, h, all) && t.mark == Red && path.mark == Red
      requires path.up.InLeft? && path.up.right.Fork? && path.up.right.mark == Red
      requires parent == path.node && grandpa == path.up.node && uncle == path.up.right.node
      modifies this`root, nodes
      ensures Inserting(path', t', h', all) && t'.node == grandpa && path' == path.up.up
    {
      hide Holds, Balanced, Fits, InOrder, Before, After;
      LeftUncleFits(path, t, h, Red);
      LeftUncleFits(path, t, h, Black);
      Up(path, t);
      ghost var t1 := Step(path, t);
      AtRoot(path.up, t1);
      SetColor(parent, Black, path.up, t1);
      Up(path.up, t1.(mark := Black));
      ghost var t2 := Step(path.up, t1.(mark := Black));
      path' := path.up.up;
      Down(path', t2);
      AtRoot(RightOf(path', t2), t2.right);
      SetColor(uncle, Black, RightOf(path', t2), t2.right);
      Up(RightOf(path', t2), t2.right.(mark := Black));
      t' := t2.(right := t2.right.(mark := Black));
      AtRoot(path', t');
      h' := h + 1;
      if grandpa != root {
        SetColor(grandpa, Red, path', t');
        t' := t'.(mark := Red);
      } else {
        h' := h + 2;
        TopFits(h');
      }
    }

    /** Uncle black, node and parent both left children: one rotation ends the repair. */
    method LeftOuterTurn(parent: Node<Color>, grandpa: Node<Color>,
                         ghost path: Path<Color>, ghost t: Tree<Color>, ghost h: nat, ghost all: seq<Data>)
      returns (ghost path': Path<Color>, ghost t': Tree<Color>, ghost h': nat)
      requires Inserting(path, t, h, all) && t.mark == Red && path.InLeft? && path.mark == Red
      requires path.up.InLeft? && IsBlack(path.up.right)
      requires parent == path.node && grandpa == path.up.node
      modifies this`root, nodes
      ensures Inserting(path', t', h', all) && IsBlack(t') && path' == path.up.up
    {
      hide Holds, Balanced, Fits, InOrder, Before, After;
      LeftOuterFits(path, t, h);
      Up(path, t);
      ghost var t1 := Step(path, t);
      AtRoot(path.up, t1);
      Up(path.up, t1);
      ghost var t2 := Step(path.up, t1);
      path' := path.up.up;
      AtRoot(path', t2);
      SetColor(grandpa, Red, path', t2);
      t2 := t2.(mark := Red);
      Down(path', t2);
      SetColor(parent, Black, LeftOf(path', t2), t1);
      Up(LeftOf(path', t2), t1.(mark := Black));
      t2 := t2.(left := t1.(mark := Black));
      RightRotate(grandpa, path', t2);
      t', h' := RotateRight(t2), h + 1;
    }

    /** Uncle black, node a right child of a left child: a rotation turns it into the outer case. */
    method LeftInnerTurn(parent: Node<Color>,
                         ghost path: Path<Color>, ghost t: Tree<Color>, ghost h: nat, ghost all: seq<Data>)
      returns (ghost path': Path<Color>, ghost t': Tree<Color>)
      requires Inserting(path, t, h, all) && t.mark == Red && path.InRight? && path.mark == Red
      requires path.up.InLeft? && parent == path.node
      modifies this`root, nodes
      ensures Inserting(path', t', h, all) && t'.mark == Red && t'.node == parent
      ensures path'.InLeft? && path'.mark == Red && path'.up == path.up
    {
      hide Holds, Balanced, Fits, InOrder, Before, After;
      LeftInnerFits(path, t, h);
      Up(path, t);
      ghost var t1 := Step(path, t);
      LeftRotate(parent, path.up, t1);
      ghost var t2 := RotateLeft(t1);
      Down(path.up, t2);
      path', t' := LeftOf(path.up, t2), t2.left;
    }

    /** Parent and uncle red, the parent a right child: both turn black, the trouble moves up two levels. */
    method RightUncleRed(parent: Node<Color>, uncle: Node<Color>, grandpa: Node<Color>,
                        ghost path: Path<Color>, ghost t: Tree<Color>, ghost h: nat, ghost all: seq<Data>)
      returns (ghost path': Path<Color>, ghost t': Tree<Color>, ghost h': nat)
      requires Inserting(path, t, h, all) && t.mark == Red && path.mark == Red
      requires path.up.InRight? && path.up.left.Fork? && path.up.left.mark == Red
      requires parent == path.node && grandpa == path.up.node && uncle == path.up.left.node
      modifies this`root, nodes
      ensures Inserting(path', t', h', all) && t'.node == grandpa && path' == path.up.up
    {
      hide Holds, Balanced, Fits, InOrder, Before, After;
      RightUncleFits(path, t, h, Red);
      RightUncleFits(path, t, h, Black);
      Up(path, t);
      ghost var t1 := Step(path, t);
      AtRoot(path.up, t1);
      SetColor(parent, Black, path.up, t1);
      Up(path.up, t1.(mark := Black));
      ghost var t2 := Step(path.up, t1.(mark := Black));
      path' := path.up.up;
      Down(path', t2);
      AtRoot(LeftOf(path', t2), t2.left);
      SetColor(uncle, Black, LeftOf(path', t2), t2.left);
      Up(LeftOf(path', t2), t2.left.(mark := Black));
      t' := t2.(left := t2.left.(mark := Black));
      AtRoot(path', t');
      h' := h + 1;
      if grandpa != root {
        SetColor(grandpa, Red, path', t');
        t' := t'.(mark := Red);
      } else {
        h' := h + 2;
        TopFits(h');
      }
    }

    /** Uncle black, node and parent both right children: one rotation ends the repair. */
    method RightOuterTurn(parent: Node<Color>, grandpa: Node<Color>,
                         ghost path: Path<Color>, ghost t: Tree<Color>, ghost h: nat, ghost all: seq<Data>)
      returns (ghost path': Path<Color>, ghost t': Tree<Color>, ghost h': nat)
      requires Inserting(path, t, h, all) && t.mark == Red && path.InRight? && path.mark == Red
      requires path.up.InRight? && IsBlack(path.up.left)
      requires parent == path.node && grandpa == path.up.node
      modifies this`root, nodes
      ensures Inserting(path', t', h', all) && IsBlack(t') && path' == path.up.up
    {
      hide Holds, Balanced, Fits, InOrder, Before, After;
      RightOuterFits(path, t, h);
      Up(path, t);
      ghost var t1 := Step(path, t);
      AtRoot(path.up, t1);
      Up(path.up, t1);
      ghost var t2 := Step(path.up, t1);
      path' := path.up.up;
      AtRoot(path', t2);
      SetColor(grandpa, Red, path', t2);
      t2 := t2.(mark := Red);
      Down(path', t2);
      SetColor(parent, Black, RightOf(path', t2), t1);
      Up(RightOf(path', t2), t1.(mark := Black));
      t2 := t2.(right := t1.(mark := Black));
      LeftRotate(grandpa, path', t2);
      t', h' := RotateLeft(t2), h + 1;
    }

    /** Uncle black, node a left child of a right child: a rotation turns it into the outer case. */
    method RightInnerTurn(parent: Node<Color>,
                         ghost path: Path<Color>, ghost t: Tree<Color>, ghost h: nat, ghost all: seq<Data>)
      returns (ghost path': Path<Color>, ghost t': Tree<Color>)
      requires Inserting(path, t, h, all) && t.mark == Red && path.InLeft? && path.mark == Red
      requires path.up.InRight? && parent == path.node
      modifies this`root, nodes
      ensures Inserting(path', t', h, all) && t'.mark == Red && t'.node == parent
      ensures path'.InRight? && path'.mark == Red && path'.up == path.up
    {
      hide Holds, Balanced, Fits, InOrder, Before, After;
      RightInnerFits(path, t, h);
      Up(path, t);
      ghost var t1 := Step(path, t);
      RightRotate(parent, path.up, t1);
      ghost var t2 := RotateRight(t1);
      Down(path.up, t2);
      path', t' := RightOf(path.up, t2), t2.right;
    }

    /** Under a red parent there is a grandparent; what the links and colours around say. */
    lemma Kin(path: Path<Color>, t: Tree<Color>, h: nat, all: seq<Data>)
      requires Inserting(path, t, h, all) && !path.Top? && path.mark == Red
      ensures !path.up.Top? && path.node.parent == path.up.node && path.up.node in nodes
      ensures path.up.node.parent == ParentOf(path.up.up, sentinel)
      ensures path.InLeft? <==> t.node == path.node.lchild
      ensures path.up.InLeft? <==> path.node == path.up.node.lchild
      ensures var u := if path.up.InLeft? then path.up.right else path.up.left;
        && RootOf(u, sentinel) == (if path.up.InLeft? then path.up.node.rchild else path.up.node.lchild)
        && (RootOf(u, sentinel).mark == Black <==> IsBlack(u)) && (u.Fork? <==> RootOf(u, sentinel) != sentinel)
    {
      hide Holds;
      Overhead(path, t);
      Up(path, t);
      Overhead(path.up, Step(path, t));
      Uncle(path.up, Step(path, t));
    }

    /** Restores the colours after the red node `add` was hung below `path0`. */
    method InsertFixup(add: Node<Color>, ghost path0: Path<Color>, ghost t0: Tree<Color>, ghost h0: nat)
      returns (ret: Ret, ghost whole: Tree<Color>)
      requires Inserting(path0, t0, h0, All(path0, t0)) && t0.node == add
      modifies this`root, nodes
      ensures ret == RbtOk && Is(Top, whole) && RedBlack(whole) && InOrder(whole) == All(path0, t0)
    {
      hide Holds, Balanced, Fits, InOrder, Before, After;
      var node := add;
      ghost var path, t, h, all := path0, t0, h0, All(path0, t0);
      AtRoot(path, t);
      while node.mark == Red
        invariant Inserting(path, t, h, all)
        invariant node == sentinel || (node == t.node && node.mark == t.mark)
        invariant node == sentinel ==> IsBlack(t)
        invariant sentinel.mark == Black
        decreases Height(path), Zigzag(path)
      {
        Overhead(path, t);
        AtRoot(path, t);
        var parent := node.parent;
        if parent.mark == Black {
          break;
        }
        Kin(path, t, h, all);
        var grandpa := parent.parent;
        assert Height(path) == 2 + Height(path.up.up);
        if parent == grandpa.lchild {
          var uncle := grandpa.rchild;
          if uncle.mark == Red {
            path, t, h := LeftUncleRed(parent, uncle, grandpa, path, t, h, all);
            node := grandpa;
            AtRoot(path, t);
          } else if node == parent.lchild {
            var gparent := grandpa.parent;
            path, t, h := LeftOuterTurn(parent, grandpa, path, t, h, all);
            node := gparent;
            path, t, h := StepOut(path, t, h, all);
          } else {
            path, t := LeftInnerTurn(parent, path, t, h, all);
            node := parent;
            AtRoot(path, t);
          }
        } else {
          var uncle := grandpa.lchild;
          if uncle.mark == Red {
            path, t, h := RightUncleRed(parent, uncle, grandpa, path, t, h, all);
            node := grandpa;
            AtRoot(path, t);
          } else if node == parent.lchild {
            path, t := RightInnerTurn(parent, path, t, h, all);
            node := parent;
            AtRoot(path, t);
          } else {
            var gparent := grandpa.parent;
            path, t, h := RightOuterTurn(parent, grandpa, path, t, h, all);
            node := gparent;
            path, t, h := StepOut(path, t, h, all);
          }
        }
      }
      AtRoot(path, t);
      ret, whole := RbtOk, Plug(path, t);
      Finished(path, t, h, all);
    }

    /** The whole tree, once no red node is left below a red one. */
    lemma Finished(path: Path<Color>, t: Tree<Color>, h: nat, all: seq<Data>)
      requires Inserting(path, t, h, all) && (IsBlack(t) || AllowsRed(path))
      ensures Is(Top, Plug(path, t)) && RedBlack(Plug(path, t)) && InOrder(Plug(path, t)) == all
    {
      HoldsWhole(path, t, root, Snapshot(nodes), sentinel);
      PlugKeepsBalance(path, t, h);
      PlugKeepsOrder(path, t);
    }

    lemma PlaceReady(path: Path<Color>)
      requires Is(path, Leaf)
      ensures sentinel !in nodes && (path.Top? <==> ParentOf(path, sentinel) == sentinel)
      ensures !path.Top? ==> path.node in nodes && ParentOf(path, sentinel) == path.node
    {
      hide Holds;
      AtRoot(path, Leaf);
      if !path.Top? {
        Overhead(path, Leaf);
      }
    }

    /** Makes a node and hangs it in the empty place below `path`. */
    method CreatNode(color: Color, data: Data, side: Side, parent: Node?<Color>, ghost path: Path<Color>)
        returns (node: Node<Color>)
      requires Is(path, Leaf)
      requires if parent == null then path.Top?
               else !path.Top? && parent == path.node && (side == LChild <==> path.InLeft?)
      modifies this`root, this`nodes, nodes
      ensures fresh(node) && nodes == old(nodes) + {node}
      ensures Is(path, Fork(node, color, Leaf, data, Leaf))
      ensures parent != null ==> root == old(root)
      ensures parent == null ==> root == node
    {
      hide Holds, HoldsTree, HoldsPath, PathNodes, TreeNodes, PathApart, TreeApart, InOrder, Before, After;
      ghost var root0, m0 := root, Snapshot(nodes);
      PlaceReady(path);
      node := new Node(color, data);
      node.lchild, node.rchild := sentinel, sentinel;
      if parent == null {
        node.parent := sentinel;
        root := node;
      } else if side == LChild {
        SetLchild(parent, node);
      } else {
        SetRchild(parent, node);
      }
      nodes := nodes + {node};
      ghost var m1 := Snapshot(nodes);
      assert m1[node] == FieldsOf(node);
      assert Agree(m0, m1, m0.Keys - {ParentOf(path, sentinel)});
      Grown(path, node, color, data, root0, root, m0, m1, sentinel);
    }

    /** The whole tree after a node was hung in the place the search for its key ended. */
    lemma Inserted(path: Path<Color>, node: Node<Color>, c: Color, d: Data)
      requires Ascending(All(path, Leaf)) && Below(Before(path), d.key) && Above(After(path), d.key)
      ensures Ascending(All(path, Fork(node, c, Leaf, d, Leaf)))
      ensures AsMap(All(path, Fork(node, c, Leaf, d, Leaf))) == AsMap(All(path, Leaf))[d.key := d]
      ensures |All(path, Fork(node, c, Leaf, d, Leaf))| == |All(path, Leaf)| + 1
    {
      assert InOrder(Fork(node, c, Leaf, d, Leaf)) == [d];
      assert All(path, Leaf) == Before(path) + After(path);
      Added(Before(path), d, After(path));
    }

    lemma PlaceFound(path: Path<Color>, h: nat, key: int)
      requires Searching(path, Leaf, h, key)
      ensures Is(path, Leaf) && Balanced(Leaf, h) && Fits(path, h) && All(path, Leaf) == InOrder(shape)
      ensures Ascending(All(path, Leaf)) && Below(Before(path), key) && Above(After(path), key)
    {
    }

    lemma RedLeaf(node: Node<Color>, d: Data, h: nat)
      requires Balanced(Leaf, h)
      ensures Balanced(Fork(node, Red, Leaf, d, Leaf), h)
    {
    }

    /** Hangs a red node where the search ended and repairs the colours. */
    method InsertBelow(data: Data, side: Side, parent: Node<Color>, ghost path: Path<Color>, ghost h: nat)
      returns (ret: Ret)
      requires Searching(path, Leaf, h, data.key) && num == Wrap(|InOrder(shape)|)
      requires !path.Top? && parent == path.node && (side == LChild <==> path.InLeft?)
      modifies this, nodes
      ensures ret == RbtOk && Valid() && fresh(nodes - old(nodes))
      ensures Contents() == AsMap(InOrder(old(shape)))[data.key := data]
    {
      hide Holds, Ascending, AsMap, Below, Above, Before, After, RedBlack, Wrap, Balanced, Fits, Searching, Is, All,
        InOrder;
      PlaceFound(path, h, data.key);
      var add := CreatNode(Red, data, side, parent, path);
      CountUp(|InOrder(shape)|);
      num := Wrap(num + 1);
      ghost var t := Fork(add, Red, Leaf, data, Leaf);
      RedLeaf(add, data, h);
      Inserted(path, add, Red, data);
      ret, shape := InsertFixup(add, path, t, h);
    }

    /** The first record of an empty tree becomes a black root. */
    method InsertFirst(data: Data) returns (ret: Ret)
      requires Valid() && shape.Leaf?
      modifies this, nodes
      ensures ret == RbtOk && Valid() && fresh(nodes - old(nodes))
      ensures Contents() == old(Contents())[data.key := data]
    {
      hide Holds;
      var add := CreatNode(Black, data, LChild, null, Top);
      num := Wrap(num + 1);
      shape := Fork(add, Black, Leaf, data, Leaf);
      assert Balanced(shape, 1);
      assert InOrder(shape) == [data];
      return RbtOk;
    }

    method Insert(data: Data, allocOk: bool) returns (ret: Ret)
      requires Valid()
      modifies this, nodes
      ensures Valid() && fresh(nodes - old(nodes))
      ensures ret == if data.key in old(Contents()) then RbtNodeExist else if allocOk then RbtOk else RbtErr
      ensures Contents() == if ret == RbtOk then old(Contents())[data.key := data] else old(Contents())
      ensures ret != RbtOk ==> shape == old(shape)
    {
      hide Holds, Ascending, Below, Above, Balanced, Fits, Before, After, InOrder, RedBlack, AsMap;
      var node := root;
      ghost var path, t := Top, shape;
      ghost var h := StartSearch(data.key);
      AtRoot(path, t);
      if root == sentinel {
        Miss(path, h, data.key);
        if !allocOk {
          return RbtErr;
        }
        ret := InsertFirst(data);
        return;
      }
      var side := LChild;
      while true
        modifies {}
        invariant Searching(path, t, h, data.key) && t.Fork? && node == t.node
        decreases t
      {
        AtRoot(path, t);
        Down(path, t);
        if data.key == node.data.key {
          Hit(path, t, h, data.key);
          return RbtNodeExist;
        } else if data.key < node.data.key {
          h := GoLeft(path, t, h, data.key);
          path, t := LeftOf(path, t), t.left;
          AtRoot(path, t);
          if node.lchild == sentinel {
            side := LChild;
            break;
          }
          node := node.lchild;
        } else {
          h := GoRight(path, t, h, data.key);
          path, t := RightOf(path, t), t.right;
          AtRoot(path, t);
          if node.rchild == sentinel {
            side := RChild;
            break;
          }
          node := node.rchild;
        }
      }
      Miss(path, h, data.key);
      if !allocOk {
        return RbtErr;
      }
      ret := InsertBelow(data, side, node, path, h);
    }

    // -------------------------------------------------------------- delete

    /** `t` would be balanced, one black node short, were its root black. */
    ghost predicate Deleting(path: Path<Color>, t: Tree<Color>, h: nat, all: seq<Data>)
      reads this`root, this`nodes, nodes, sentinel
    {
      && Is(path, t) && NearlyBalanced(t, h) && Fits(path, h + 1) && All(path, t) == all
      && (t.Leaf? ==> sentinel.parent == ParentOf(path, sentinel))
    }

    /** Colours and children of the node beside the focus, read off the heap. */
    lemma Brother(path: Path<Color>, t: Tree<Color>)
      requires !path.Top? && Is(path, t)
      ensures var b := if path.InLeft? then path.right else path.left;
        && (RootOf(b, sentinel).mark == Black <==> IsBlack(b)) && (b.Fork? ==> b.node in nodes)
        && (b.Fork? ==>
             && b.node.lchild == RootOf(b.left, sentinel) && b.node.rchild == RootOf(b.right, sentinel)
             && (RootOf(b.left, sentinel).mark == Black <==> IsBlack(b.left))
             && (RootOf(b.right, sentinel).mark == Black <==> IsBlack(b.right))
             && (b.left.Fork? ==> b.left.node in nodes) && (b.right.Fork? ==> b.right.node in nodes))
    {
      var b := if path.InLeft? then path.right else path.left;
      Up(path, t);
      var above := Step(path, t);
      Down(path.up, above);
      var beside := if path.InLeft? then RightOf(path.up, above) else LeftOf(path.up, above);
      AtRoot(beside, b);
      if b.Fork? {
        Down(beside, b);
        AtRoot(LeftOf(beside, b), b.left);
        AtRoot(RightOf(beside, b), b.right);
      }
    }

    lemma Apart(path: Path<Color>, t: Tree<Color>)
      requires Is(path, t) && t.Fork?
      ensures ParentOf(path, sentinel) != t.node
      ensures t.left.Fork? ==> t.left.node != t.node && t.left.node != ParentOf(path, sentinel)
      ensures t.right.Fork? ==> t.right.node != t.node && t.right.node != ParentOf(path, sentinel)
    {
      RootInside(t.left);
      RootInside(t.right);
    }

    lemma UnlinkReady(path: Path<Color>, t: Tree<Color>, kid: Tree<Color>)
      requires Is(path, t) && t.Fork? && (kid == t.left || kid == t.right)
      ensures sentinel !in nodes && t.node in nodes && t.node.parent == ParentOf(path, sentinel)
      ensures path.Top? <==> t.node.parent == sentinel
      ensures !path.Top? ==> path.node in nodes && t.node.parent == path.node
      ensures kid.Fork? ==> kid.node in nodes && kid.node != t.node && kid.node != ParentOf(path, sentinel)
      ensures ParentOf(path, sentinel) != t.node && RootOf(kid, sentinel) != t.node
      ensures kid.Leaf? <==> RootOf(kid, sentinel) == sentinel
    {
      hide Holds;
      AtRoot(path, t);
      Down(path, t);
      AtRoot(LeftOf(path, t), t.left);
      AtRoot(RightOf(path, t), t.right);
      Apart(path, t);
      if !path.Top? {
        Overhead(path, t);
      }
    }

    /** Unlinks a node with at most one child; `refer`, that child or the sentinel, takes its place. */
    method Unlink(dnode: Node<Color>, refer: Node<Color>, ghost path: Path<Color>, ghost t: Tree<Color>,
        ghost kid: Tree<Color>)
      requires Is(path, t) && t.Fork? && dnode == t.node && refer == RootOf(kid, sentinel)
      requires (t.left.Leaf? && kid == t.right) || (t.right.Leaf? && kid == t.left)
      modifies this`root, this`nodes, nodes, sentinel`parent
      ensures Is(path, kid) && refer.parent == ParentOf(path, sentinel)
      ensures nodes == old(nodes) - {dnode} && dnode.mark == old(dnode.mark) && dnode.data == old(dnode.data)
    {
      hide Holds, HoldsTree, HoldsPath, PathNodes, TreeNodes, PathApart, TreeApart, InOrder, Before, After;
      ghost var root0, m0 := root, Snapshot(nodes);
      UnlinkReady(path, t, kid);
      var parent := dnode.parent;
      refer.parent := parent;
      ReplaceChild(parent, dnode, refer);
      nodes := nodes - {dnode};
      ghost var m1 := Snapshot(nodes);
      assert Agree(m0, m1, m0.Keys - {dnode, parent, refer});
      hide Agree;
      Spliced(path, t, kid, root0, root, m0, m1, sentinel);
    }

    /** Below a path one black node short of its due there is a brother, and a red one has black children. */
    lemma BrotherExists(path: Path<Color>, t: Tree<Color>, h: nat)
      requires Is(path, t) && !path.Top? && Fits(path, h + 1)
      ensures (if path.InLeft? then path.right else path.left).Fork?
    {
    }

    lemma TopFits(h: nat)
      ensures Fits(Top, h)
    {
    }

    lemma AnyHeight(t: Tree<Color>) returns (h: nat)
      requires RedBlack(t)
      ensures NearlyBalanced(t, h) && Fits(Top, h + 1) && All(Top, t) == InOrder(t) && IsBlack(t)
    {
      h :| Balanced(t, h);
    }

    /** The last step of the repair: the focus turns black. */
    method Blacken(node: Node<Color>, ghost path: Path<Color>, ghost t: Tree<Color>, ghost h: nat, ghost all: seq<Data>)
      returns (ret: Ret, ghost whole: Tree<Color>)
      requires Deleting(path, t, h, all) && node == RootOf(t, sentinel)
      requires node.mark == Red || root == node
      modifies this`root, nodes, sentinel`mark
      ensures ret == RbtOk && Is(Top, whole) && RedBlack(whole) && InOrder(whole) == all
    {
      hide Holds;
      AtRoot(path, t);
      ghost var m0 := Snapshot(nodes);
      node.mark := Black;
      ret := RbtOk;
      if t.Leaf? {
        assert Snapshot(nodes) == m0;
        whole := t;
      } else {
        assert Snapshot(nodes) == m0[node := m0[node].(mark := Black)];
        Painted(path, t, Black, root, m0, Snapshot(nodes), sentinel);
        ghost var t1, h1 := t.(mark := Black), if t.mark == Red then h + 1 else h;
        HoldsWhole(path, t1, root, Snapshot(nodes), sentinel);
        PlugKeepsBalance(path, t1, h1);
        PlugKeepsOrder(path, t1);
        whole := Plug(path, t1);
      }
    }

    /** A red brother on the right: a rotation gives the focus a black one. */
    method LeftBrotherRed(parent: Node<Color>, brother: Node<Color>,
                          ghost path: Path<Color>, ghost t: Tree<Color>, ghost h: nat, ghost all: seq<Data>)
      returns (ghost path': Path<Color>)
      requires Deleting(path, t, h, all) && path.InLeft? && path.right.Fork? && path.right.mark == Red
      requires parent == path.node && brother == path.right.node
      modifies this`root, nodes
      ensures Deleting(path', t, h, all) && path'.InLeft? && path'.node == parent && path'.mark == Red
      ensures IsBlack(path'.right)
    {
      hide Holds, Balanced, Fits, InOrder, Before, After, NearlyBalanced;
      LeftBrotherRedFits(path, t, h);
      var b := path.right;
      Up(path, t);
      ghost var t1 := Step(path, t);
      AtRoot(path.up, t1);
      SetColor(parent, Red, path.up, t1);
      t1 := t1.(mark := Red);
      Down(path.up, t1);
      AtRoot(RightOf(path.up, t1), b);
      SetColor(brother, Black, RightOf(path.up, t1), b);
      Up(RightOf(path.up, t1), b.(mark := Black));
      t1 := t1.(right := b.(mark := Black));
      LeftRotate(parent, path.up, t1);
      ghost var t2 := RotateLeft(t1);
      Down(path.up, t2);
      path' := LeftOf(path.up, t2);
      Down(path', t2.left);
      path' := LeftOf(path', t2.left);
    }

    /** A black brother with black children turns red; the shortage moves up. */
    method LeftBrotherPaint(parent: Node<Color>, brother: Node<Color>,
                            ghost path: Path<Color>, ghost t: Tree<Color>, ghost h: nat, ghost all: seq<Data>)
      returns (ghost t': Tree<Color>, ghost h': nat)
      requires Deleting(path, t, h, all) && IsBlack(t) && path.InLeft?
      requires path.right.Fork? && path.right.mark == Black && IsBlack(path.right.left) && IsBlack(path.right.right)
      requires parent == path.node && brother == path.right.node
      modifies nodes
      ensures Deleting(path.up, t', h', all) && t'.Fork? && t'.node == parent && t'.mark == path.mark
    {
      hide Holds, Balanced, Fits, InOrder, Before, After, NearlyBalanced;
      LeftBrotherPaintFits(path, t, h);
      var b := path.right;
      Up(path, t);
      ghost var t1 := Step(path, t);
      Down(path.up, t1);
      AtRoot(RightOf(path.up, t1), b);
      SetColor(brother, Red, RightOf(path.up, t1), b);
      Up(RightOf(path.up, t1), b.(mark := Red));
      t', h' := t1.(right := b.(mark := Red)), if path.mark == Red then h else h + 1;
    }

    /** A black brother whose red child is the inner one: a rotation about it brings the red outside. */
    method LeftNephewTurn(parent: Node<Color>, brother: Node<Color>, nephew: Node<Color>,
                          ghost path: Path<Color>, ghost t: Tree<Color>, ghost h: nat, ghost all: seq<Data>)
      returns (ghost path': Path<Color>)
      requires Deleting(path, t, h, all) && path.InLeft?
      requires path.right.Fork? && path.right.mark == Black
      requires path.right.left.Fork? && path.right.left.mark == Red && IsBlack(path.right.right)
      requires parent == path.node && brother == path.right.node && nephew == path.right.left.node
      modifies this`root, nodes
      ensures Deleting(path', t, h, all) && path'.InLeft? && path'.node == parent && path'.mark == path.mark
      ensures path'.up == path.up && path'.right.Fork? && path'.right.mark == Black && path'.right.node == nephew
      ensures path'.right.right.Fork? && path'.right.right.mark == Red
    {
      hide Holds, Balanced, Fits, InOrder, Before, After, NearlyBalanced;
      LeftNephewFits(path, h);
      var b := path.right;
      Up(path, t);
      ghost var t1 := Step(path, t);
      Down(path.up, t1);
      ghost var beside := RightOf(path.up, t1);
      Down(beside, b);
      AtRoot(LeftOf(beside, b), b.left);
      SetColor(nephew, Black, LeftOf(beside, b), b.left);
      Up(LeftOf(beside, b), b.left.(mark := Black));
      b := b.(left := b.left.(mark := Black));
      AtRoot(beside, b);
      SetColor(brother, Red, beside, b);
      b := b.(mark := Red);
      RightRotate(brother, beside, b);
      b := RotateRight(b);
      Up(beside, b);
      t1 := t1.(right := b);
      Down(path.up, t1);
      path' := LeftOf(path.up, t1);
    }

    /** A black brother whose outer child is red: one rotation makes up the shortage. */
    method LeftLastTurn(parent: Node<Color>, brother: Node<Color>, nephew: Node<Color>,
                        ghost path: Path<Color>, ghost t: Tree<Color>, ghost h: nat, ghost all: seq<Data>)
      returns (ghost whole: Tree<Color>)
      requires Deleting(path, t, h, all) && IsBlack(t) && path.InLeft?
      requires path.right.Fork? && path.right.mark == Black && path.right.right.Fork? && path.right.right.mark == Red
      requires parent == path.node && brother == path.right.node && nephew == path.right.right.node
      modifies this`root, nodes
      ensures Is(Top, whole) && RedBlack(whole) && InOrder(whole) == all && whole.Fork?
    {
      hide Holds, Balanced, Fits, InOrder, Before, After, NearlyBalanced;
      LeftLastFits(path, t, h);
      var b := path.right;
      var h' := if path.mark == Red then h + 1 else h + 2;
      Up(path, t);
      ghost var t1 := Step(path, t);
      Down(path.up, t1);
      ghost var beside := RightOf(path.up, t1);
      AtRoot(beside, b);
      AtRoot(path.up, t1);
      SetColor(brother, parent.mark, beside, b);
      b := b.(mark := path.mark);
      Down(beside, b);
      AtRoot(RightOf(beside, b), b.right);
      SetColor(nephew, Black, RightOf(beside, b), b.right);
      Up(RightOf(beside, b), b.right.(mark := Black));
      b := b.(right := b.right.(mark := Black));
      Up(beside, b);
      t1 := t1.(right := b);
      AtRoot(path.up, t1);
      SetColor(parent, Black, path.up, t1);
      t1 := t1.(mark := Black);
      LeftRotate(parent, path.up, t1);
      ghost var t2 := RotateLeft(t1);
      whole := Plug(path.up, t2);
      HoldsWhole(path.up, t2, root, Snapshot(nodes), sentinel);
      PlugKeepsBalance(path.up, t2, h');
      PlugKeepsOrder(path.up, t2);
      PlugFork(path.up, t2);
    }

    /** A red brother on the left: a rotation gives the focus a black one. */
    method RightBrotherRed(parent: Node<Color>, brother: Node<Color>,
                          ghost path: Path<Color>, ghost t: Tree<Color>, ghost h: nat, ghost all: seq<Data>)
      returns (ghost path': Path<Color>)
      requires Deleting(path, t, h, all) && path.InRight? && path.left.Fork? && path.left.mark == Red
      requires parent == path.node && brother == path.left.node
      modifies this`root, nodes
      ensures Deleting(path', t, h, all) && path'.InRight? && path'.node == parent && path'.mark == Red
      ensures IsBlack(path'.left)
    {
      hide Holds, Balanced, Fits, InOrder, Before, After, NearlyBalanced;
      RightBrotherRedFits(path, t, h);
      var b := path.left;
      Up(path, t);
      ghost var t1 := Step(path, t);
      AtRoot(path.up, t1);
      SetColor(parent, Red, path.up, t1);
      t1 := t1.(mark := Red);
      Down(path.up, t1);
      AtRoot(LeftOf(path.up, t1), b);
      SetColor(brother, Black, LeftOf(path.up, t1), b);
      Up(LeftOf(path.up, t1), b.(mark := Black));
      t1 := t1.(left := b.(mark := Black));
      RightRotate(parent, path.up, t1);
      ghost var t2 := RotateRight(t1);
      Down(path.up, t2);
      path' := RightOf(path.up, t2);
      Down(path', t2.right);
      path' := RightOf(path', t2.right);
    }

    /** A black brother with black children turns red; the shortage moves up. */
    method RightBrotherPaint(parent: Node<Color>, brother: Node<Color>,
                            ghost path: Path<Color>, ghost t: Tree<Color>, ghost h: nat, ghost all: seq<Data>)
      returns (ghost t': Tree<Color>, ghost h': nat)
      requires Deleting(path, t, h, all) && IsBlack(t) && path.InRight?
      requires path.left.Fork? && path.left.mark == Black && IsBlack(path.left.right) && IsBlack(path.left.left)
      requires parent == path.node && brother == path.left.node
      modifies nodes
      ensures Deleting(path.up, t', h', all) && t'.Fork? && t'.node == parent && t'.mark == path.mark
    {
      hide Holds, Balanced, Fits, InOrder, Before, After, NearlyBalanced;
      RightBrotherPaintFits(path, t, h);
      var b := path.left;
      Up(path, t);
      ghost var t1 := Step(path, t);
      Down(path.up, t1);
      AtRoot(LeftOf(path.up, t1), b);
      SetColor(brother, Red, LeftOf(path.up, t1), b);
      Up(LeftOf(path.up, t1), b.(mark := Red));
      t', h' := t1.(left := b.(mark := Red)), if path.mark == Red then h else h + 1;
    }

    /** A black brother whose red child is the inner one: a rotation about it brings the red outside. */
    method RightNephewTurn(parent: Node<Color>, brother: Node<Color>, nephew: Node<Color>,
                          ghost path: Path<Color>, ghost t: Tree<Color>, ghost h: nat, ghost all: seq<Data>)
      returns (ghost path': Path<Color>)
      requires Deleting(path, t, h, all) && path.InRight?
      requires path.left.Fork? && path.left.mark == Black
      requires path.left.right.Fork? && path.left.right.mark == Red && IsBlack(path.left.left)
      requires parent == path.node && brother == path.left.node && nephew == path.left.right.node
      modifies this`root, nodes
      ensures Deleting(path', t, h, all) && path'.InRight? && path'.node == parent && path'.mark == path.mark
      ensures path'.up == path.up && path'.left.Fork? && path'.left.mark == Black && path'.left.node == nephew
      ensures path'.left.left.Fork? && path'.left.left.mark == Red
    {
      hide Holds, Balanced, Fits, InOrder, Before, After, NearlyBalanced;
      RightNephewFits(path, h);
      var b := path.left;
      Up(path, t);
      ghost var t1 := Step(path, t);
      Down(path.up, t1);
      ghost var beside := LeftOf(path.up, t1);
      Down(beside, b);
      AtRoot(RightOf(beside, b), b.right);
      SetColor(nephew, Black, RightOf(beside, b), b.right);
      Up(RightOf(beside, b), b.right.(mark := Black));
      b := b.(right := b.right.(mark := Black));
      AtRoot(beside, b);
      SetColor(brother, Red, beside, b);
      b := b.(mark := Red);
      LeftRotate(brother, beside, b);
      b := RotateLeft(b);
      Up(beside, b);
      t1 := t1.(left := b);
      Down(path.up, t1);
      path' := RightOf(path.up, t1);
    }

    /** A black brother whose outer child is red: one rotation makes up the shortage. */
    method RightLastTurn(parent: Node<Color>, brother: Node<Color>, nephew: Node<Color>,
                        ghost path: Path<Color>, ghost t: Tree<Color>, ghost h: nat, ghost all: seq<Data>)
      returns (ghost whole: Tree<Color>)
      requires Deleting(path, t, h, all) && IsBlack(t) && path.InRight?
      requires path.left.Fork? && path.left.mark == Black && path.left.left.Fork? && path.left.left.mark == Red
      requires parent == path.node && brother == path.left.node && nephew == path.left.left.node
      modifies this`root, nodes
      ensures Is(Top, whole) && RedBlack(whole) && InOrder(whole) == all && whole.Fork?
    {
      hide Holds, Balanced, Fits, InOrder, Before, After, NearlyBalanced;
      RightLastFits(path, t, h);
      var b := path.left;
      var h' := if path.mark == Red then h + 1 else h + 2;
      Up(path, t);
      ghost var t1 := Step(path, t);
      Down(path.up, t1);
      ghost var beside := LeftOf(path.up, t1);
      AtRoot(beside, b);
      AtRoot(path.up, t1);
      SetColor(brother, parent.mark, beside, b);
      b := b.(mark := path.mark);
      Down(beside, b);
      AtRoot(LeftOf(beside, b), b.left);
      SetColor(nephew, Black, LeftOf(beside, b), b.left);
      Up(LeftOf(beside, b), b.left.(mark := Black));
      b := b.(left := b.left.(mark := Black));
      Up(beside, b);
      t1 := t1.(left := b);
      AtRoot(path.up, t1);
      SetColor(parent, Black, path.up, t1);
      t1 := t1.(mark := Black);
      RightRotate(parent, path.up, t1);
      ghost var t2 := RotateRight(t1);
      whole := Plug(path.up, t2);
      HoldsWhole(path.up, t2, root, Snapshot(nodes), sentinel);
      PlugKeepsBalance(path.up, t2, h');
      PlugKeepsOrder(path.up, t2);
      PlugFork(path.up, t2);
    }

    /** One round of the repair with the focus a left child: the next focus, higher up unless it is red. */
    method RepairLeft(parent: Node<Color>, ghost path: Path<Color>, ghost t: Tree<Color>, ghost h: nat,
        ghost all: seq<Data>)
      returns (node: Node<Color>, ghost path': Path<Color>, ghost t': Tree<Color>, ghost h': nat)
      requires Deleting(path, t, h, all) && IsBlack(t) && path.InLeft? && parent == path.node
      modifies this`root, nodes
      ensures Deleting(path', t', h', all) && node == RootOf(t', sentinel)
      ensures IsBlack(t') ==> Height(path') < Height(path)
    {
      hide Holds, Balanced, Fits, InOrder, Before, After, NearlyBalanced;
      path', t', h' := path, t, h;
      BrotherExists(path, t, h);
      Overhead(path, t);
      Brother(path, t);
      var brother := parent.rchild;
      if brother.mark == Red {
        path' := LeftBrotherRed(parent, brother, path, t, h, all);
        BrotherExists(path', t, h);
        Overhead(path', t);
        Brother(path', t);
        brother := parent.rchild;
      }
      if brother.lchild.mark == Black && brother.rchild.mark == Black {
        t', h' := LeftBrotherPaint(parent, brother, path', t, h, all);
        path' := path'.up;
        node := parent;
      } else {
        if brother.rchild.mark == Black {
          path' := LeftNephewTurn(parent, brother, brother.lchild, path', t, h, all);
          Overhead(path', t);
          Brother(path', t);
          brother := parent.rchild;
        }
        t' := LeftLastTurn(parent, brother, brother.rchild, path', t, h, all);
        path' := Top;
        h' := AnyHeight(t');
        node := root;
        AtRoot(path', t');
      }
    }

    /** One round of the repair with the focus a right child: the next focus, higher up unless it is red. */
    method RepairRight(parent: Node<Color>, ghost path: Path<Color>, ghost t: Tree<Color>, ghost h: nat,
        ghost all: seq<Data>)
      returns (node: Node<Color>, ghost path': Path<Color>, ghost t': Tree<Color>, ghost h': nat)
      requires Deleting(path, t, h, all) && IsBlack(t) && path.InRight? && parent == path.node
      modifies this`root, nodes
      ensures Deleting(path', t', h', all) && node == RootOf(t', sentinel)
      ensures IsBlack(t') ==> Height(path') < Height(path)
    {
      hide Holds, Balanced, Fits, InOrder, Before, After, NearlyBalanced;
      path', t', h' := path, t, h;
      BrotherExists(path, t, h);
      Overhead(path, t);
      Brother(path, t);
      var brother := parent.lchild;
      if brother.mark == Red {
        path' := RightBrotherRed(parent, brother, path, t, h, all);
        BrotherExists(path', t, h);
        Overhead(path', t);
        Brother(path', t);
        brother := parent.lchild;
      }
      if brother.rchild.mark == Black && brother.lchild.mark == Black {
        t', h' := RightBrotherPaint(parent, brother, path', t, h, all);
        path' := path'.up;
        node := parent;
      } else {
        if brother.lchild.mark == Black {
          path' := RightNephewTurn(parent, brother, brother.rchild, path', t, h, all);
          Overhead(path', t);
          Brother(path', t);
          brother := parent.lchild;
        }
        t' := RightLastTurn(parent, brother, brother.lchild, path', t, h, all);
        path' := Top;
        h' := AnyHeight(t');
        node := root;
        AtRoot(path', t');
      }
    }

    /** Makes up for the black node lost above `start`. */
    method DeleteFixup(start: Node<Color>, ghost path0: Path<Color>, ghost t0: Tree<Color>, ghost h0: nat)
      returns (ret: Ret, ghost whole: Tree<Color>)
      requires Deleting(path0, t0, h0, All(path0, t0)) && start == RootOf(t0, sentinel)
      modifies this`root, nodes, sentinel`mark
      ensures ret == RbtOk && Is(Top, whole) && RedBlack(whole) && InOrder(whole) == All(path0, t0)
    {
      hide Holds, Balanced, Fits, InOrder, Before, After, NearlyBalanced;
      var node := start;
      ghost var path, t, h, all := path0, t0, h0, All(path0, t0);
      AtRoot(path, t);
      while node.mark == Black && root != node
        invariant Deleting(path, t, h, all) && node == RootOf(t, sentinel)
        decreases if IsBlack(t) then Height(path) else 0
      {
        AtRoot(path, t);
        BrotherExists(path, t, h);
        Overhead(path, t);
        var parent := node.parent;
        if node == parent.lchild {
          node, path, t, h := RepairLeft(parent, path, t, h, all);
        } else {
          node, path, t, h := RepairRight(parent, path, t, h, all);
        }
      }
      ret, whole := Blacken(node, path, t, h, all);
    }

    /** A sound place: nothing is wrong at the focus. */
    ghost predicate Sound(path: Path<Color>, t: Tree<Color>, h: nat)
      reads this`root, this`nodes, nodes, sentinel`mark
    {
      Is(path, t) && Balanced(t, h) && Fits(path, h) && (IsBlack(t) || AllowsRed(path))
    }

    /** Overwrites the record of the node whose right subtree `path` descends into leftwards. */
    method SetData(dnode: Node<Color>, data: Data, ghost path: Path<Color>, ghost t: Tree<Color>,
        ghost base: Path<Color>)
      requires Is(path, t) && base.InRight? && base.node == dnode && LeftSpine(path, base)
      modifies dnode`data
      ensures OnSpine(path, dnode) && Is(Overwrite(path, dnode, data), t)
    {
      hide Holds, HoldsTree, HoldsPath, LeftSpine, OnSpine, Overwrite, PathNodes, TreeNodes, PathApart, TreeApart,
        InOrder, Before, After;
      ghost var m0 := Snapshot(nodes);
      ApartPath(path, t, dnode);
      LeftSpineOverwrite(path, base, data);
      dnode.data := data;
      assert Snapshot(nodes) == m0[dnode := m0[dnode].(data := data)];
      Overwritten(path, t, dnode, data, root, m0, Snapshot(nodes), sentinel);
    }

    /** Finds the successor of the record at `t`: the leftmost node of the right subtree. */
    method Successor(dnode: Node<Color>, ghost path: Path<Color>, ghost t: Tree<Color>, ghost h: nat)
      returns (next: Node<Color>, ghost path': Path<Color>, ghost t': Tree<Color>, ghost h': nat)
      requires Sound(path, t, h) && t.Fork? && t.right.Fork? && dnode == t.node
      ensures Sound(path', t', h') && All(path', t') == All(path, t)
      ensures t'.Fork? && t'.left.Leaf? && next == t'.node && LeftSpine(path', RightOf(path, t))
    {
      hide Holds;
      Down(path, t);
      next := dnode.rchild;
      path', t', h' := RightOf(path, t), t.right, if t.mark == Red then h else h - 1;
      while true
        invariant Sound(path', t', h') && All(path', t') == All(path, t)
        invariant t'.Fork? && next == t'.node && LeftSpine(path', RightOf(path, t))
        decreases t'
      {
        Down(path', t');
        AtRoot(LeftOf(path', t'), t'.left);
        if next.lchild == sentinel {
          break;
        }
        next := next.lchild;
        path', t', h' := LeftOf(path', t'), t'.left, if t'.mark == Red then h' else h' - 1;
      }
    }

    /** After a node of colour `lost` was unlinked above `refer`: a red one left no trace. */
    method Patch(lost: Color, refer: Node<Color>, ghost path: Path<Color>, ghost kid: Tree<Color>, ghost h: nat)
      returns (ret: Ret, ghost whole: Tree<Color>)
      requires refer == RootOf(kid, sentinel)
      requires lost == Red ==> Sound(path, kid, h)
      requires lost == Black ==> h > 0 && Deleting(path, kid, h - 1, All(path, kid))
      modifies this`root, nodes, sentinel`mark
      ensures ret == RbtOk && Is(Top, whole) && RedBlack(whole) && InOrder(whole) == All(path, kid)
    {
      hide Holds, Balanced, Fits, InOrder, Before, After;
      if lost == Red {
        ret, whole := RbtOk, Plug(path, kid);
        HoldsWhole(path, kid, root, Snapshot(nodes), sentinel);
        PlugKeepsBalance(path, kid, h);
        PlugKeepsOrder(path, kid);
        return;
      }
      ret, whole := DeleteFixup(refer, path, kid, h - 1);
    }

    lemma SuccessorOrder(path: Path<Color>, t: Tree<Color>, path': Path<Color>, t': Tree<Color>)
      requires t.Fork? && t'.Fork? && t'.left.Leaf? && LeftSpine(path', RightOf(path, t)) && PathApart(path')
      requires All(path', t') == All(path, t)
      ensures OnSpine(path', t.node)
      ensures All(Overwrite(path', t.node, t'.data), t'.right)
        == Before(path) + InOrder(t.left) + (InOrder(t.right) + After(path))
    {
      var p, x, y := Before(path) + InOrder(t.left), [t.data], [t'.data];
      var rest, rest' := InOrder(t.right) + After(path), InOrder(t'.right) + After(path');
      Regroup(Before(path), InOrder(t.left), x, InOrder(t.right), After(path));
      Regroup(Before(path'), InOrder(t'.left), y, InOrder(t'.right), After(path'));
      LeftSpineOverwrite(path', RightOf(path, t), t'.data);
      var spine := Overwrite(path', t.node, t'.data);
      assert Before(spine) == p + y && After(spine) == After(path') && Before(path') == p + x;
      hide InOrder, Before, After, Overwrite, LeftSpine, OnSpine, PathApart;
      Regroup2(p + x, y, rest', InOrder(t'.right), After(path'), p);
      Cancel(p, x, rest, y, rest');
    }

    /** `dnode` has two children: its successor's record replaces its own, and the successor goes. */
    method DeleteSuccessor(dnode: Node<Color>, next: Node<Color>, ghost path: Path<Color>, ghost t: Tree<Color>,
                           ghost path': Path<Color>, ghost t': Tree<Color>, ghost h': nat)
      returns (ret: Ret, ghost whole: Tree<Color>)
      requires t.Fork? && dnode == t.node && Sound(path', t', h') && All(path', t') == All(path, t)
      requires t'.Fork? && t'.left.Leaf? && next == t'.node && LeftSpine(path', RightOf(path, t))
      modifies this`root, this`nodes, nodes, sentinel
      ensures ret == RbtOk && Is(Top, whole) && RedBlack(whole) && nodes == old(nodes) - {next} && next in old(nodes)
      ensures InOrder(whole) == Before(path) + InOrder(t.left) + (InOrder(t.right) + After(path))
    {
      hide Holds, InOrder, Before, After, Balanced, Fits, NearlyBalanced, Overwrite, LeftSpine, OnSpine;
      ApartPath(path', t', dnode);
      SuccessorOrder(path, t, path', t');
      ApartPath(path', t', dnode);
      AfterUnlink(path', t', t'.right, h');
      AtRoot(path', t');
      Down(path', t');
      var refer := next.rchild;
      Unlink(next, refer, path', t', t'.right);
      ghost var spine := Overwrite(path', dnode, next.data);
      SetData(dnode, next.data, path', t'.right, RightOf(path, t));
      OverwriteKeeps(path', dnode, next.data, sentinel);
      OverwriteFits(path', dnode, next.data, h');
      ret, whole := Patch(next.mark, refer, spine, t'.right, h');
    }

    lemma ApartPath(path: Path<Color>, t: Tree<Color>, n: Node<Color>)
      requires Is(path, t)
      ensures PathApart(path)
      ensures OnSpine(path, n) ==> n in nodes && n != RootOf(t, sentinel) && n != sentinel
    {
      RootInside(t);
      if OnSpine(path, n) {
        SpineInside(path, n);
      }
    }

    /** What is left below `path` once the node at `t` has given way to its child. */
    lemma AfterUnlink(path: Path<Color>, t: Tree<Color>, kid: Tree<Color>, h: nat)
      requires Sound(path, t, h) && t.Fork?
      requires (t.left.Leaf? && kid == t.right) || (t.right.Leaf? && kid == t.left)
      ensures t.mark == Red ==> Balanced(kid, h) && IsBlack(kid) && Fits(path, h)
      ensures t.mark == Black ==> h > 0 && NearlyBalanced(kid, h - 1) && Fits(path, h)
    {
      if t.mark == Black {
        assert Balanced(kid, h - 1);
      }
    }

    /** Takes the record of `dnode` out of the tree. */
    method DeleteNode(dnode: Node<Color>, ghost path: Path<Color>, ghost t: Tree<Color>, ghost h: nat)
      returns (ret: Ret, ghost whole: Tree<Color>)
      requires Sound(path, t, h) && t.Fork? && dnode == t.node
      modifies this`root, this`nodes, nodes, sentinel
      ensures ret == RbtOk && Is(Top, whole) && RedBlack(whole) && nodes <= old(nodes)
      ensures InOrder(whole) == Before(path) + InOrder(t.left) + (InOrder(t.right) + After(path))
    {
      hide Holds;
      Down(path, t);
      AtRoot(path, t);
      AtRoot(LeftOf(path, t), t.left);
      AtRoot(RightOf(path, t), t.right);
      hide Balanced, Fits, NearlyBalanced;
      if dnode.lchild == sentinel {
        AfterUnlink(path, t, t.right, h);
        var refer := dnode.rchild;
        assert All(path, t.right) == Before(path) + InOrder(t.left) + (InOrder(t.right) + After(path));
        Unlink(dnode, refer, path, t, t.right);
        ret, whole := Patch(dnode.mark, refer, path, t.right, h);
      } else if dnode.rchild == sentinel {
        AfterUnlink(path, t, t.left, h);
        var refer := dnode.lchild;
        assert All(path, t.left) == Before(path) + InOrder(t.left) + (InOrder(t.right) + After(path));
        Unlink(dnode, refer, path, t, t.left);
        ret, whole := Patch(dnode.mark, refer, path, t.left, h);
      } else {
        var next; ghost var path', t', h';
        next, path', t', h' := Successor(dnode, path, t, h);
        ret, whole := DeleteSuccessor(dnode, next, path, t, path', t', h');
      }
    }

    method Delete(key: int) returns (ret: Ret, data: Option<Data>)
      requires Valid()
      modifies this, nodes, sentinel
      ensures Valid() && nodes <= old(nodes)
      ensures ret == RbtOk && data == Lookup(old(Contents()), key)
      ensures Contents() == old(Contents()) - {key}
      ensures data == None ==> shape == old(shape)
    {
      hide Holds, Ascending, Below, Above, Balanced, Fits, Before, After, InOrder, RedBlack;
      var node := root;
      ghost var path, t := Top, shape;
      ghost var h := StartSearch(key);
      while node != sentinel
        modifies {}
        invariant Searching(path, t, h, key) && node == RootOf(t, sentinel)
        decreases t
      {
        AtRoot(path, t);
        Down(path, t);
        if key == node.data.key {
          break;
        } else if key < node.data.key {
          h := GoLeft(path, t, h, key);
          node := node.lchild;
          path, t := LeftOf(path, t), t.left;
        } else {
          h := GoRight(path, t, h, key);
          node := node.rchild;
          path, t := RightOf(path, t), t.right;
        }
      }
      AtRoot(path, t);
      if node == sentinel {
        Miss(path, h, key);
        return RbtOk, None;
      }
      Down(path, t);
      Hit(path, t, h, key);
      data := Some(node.data);
      ret := DeleteFound(node, path, t, h, key);
    }

    /** The record the search for `key` ended at is dropped from the count and from the tree. */
    method DeleteFound(node: Node<Color>, ghost path: Path<Color>, ghost t: Tree<Color>, ghost h: nat, ghost key: int)
      returns (ret: Ret)
      requires Valid() && Searching(path, t, h, key) && t.Fork? && t.data.key == key && node == t.node
      modifies this, nodes, sentinel
      ensures ret == RbtOk && Valid() && nodes <= old(nodes)
      ensures Contents() == old(Contents()) - {key}
    {
      hide Holds, Ascending, Below, Above, AsMap, Balanced, Fits, RedBlack, Before, After, InOrder, Wrap;
      Split(path, t);
      Removed(Before(path) + InOrder(t.left), t.data, InOrder(t.right) + After(path));
      CountDown(|InOrder(shape)|);
      num := Wrap(num - 1);
      ret, shape := DeleteNode(node, path, t, h);
    }

    // -------------------------------------------------------------- traversal

    /** `stack_push` of `stack.h`: a full stack drops the node. */
    static function Push(stack: seq<Node<Color>>, node: Node<Color>): seq<Node<Color>> {
      if |stack| < RBT_MAX_DEPTH then stack + [node] else stack
    }

    /** The walk has come to `t`; `stack` holds the nodes above it. */
    ghost predicate Walking(path: Path<Color>, t: Tree<Color>, h: nat, stack: seq<Node<Color>>)
      reads this, nodes, sentinel
    {
      && Sound(path, t, h) && t.Fork? && stack == Spine(path)
      && Plug(path, t) == shape && Levels(shape) <= 128
    }

    lemma StartWalk() returns (h: nat)
      requires Valid() && shape.Fork? && |InOrder(shape)| < TWO_TO_THE_64
      ensures Walking(Top, shape, h, []) && root == shape.node && Before<Color>(Top) == []
    {
      h :| Balanced(shape, h);
      DepthBound(shape);
      AtRoot(Top, shape);
    }

    lemma WalkDown(path: Path<Color>, t: Tree<Color>, h: nat, stack: seq<Node<Color>>) returns (h': nat)
      requires Walking(path, t, h, stack)
      ensures t.left.Fork? ==> Walking(LeftOf(path, t), t.left, h', stack + [t.node])
      ensures t.right.Fork? ==> Walking(RightOf(path, t), t.right, h', stack + [t.node])
      ensures Before(LeftOf(path, t)) == Before(path)
      ensures t.left.Leaf? ==> Before(RightOf(path, t)) == Before(path) + [t.data]
      ensures t.left.Leaf? && t.right.Leaf? ==> InOrder(t) == [t.data]
      ensures t.left.Leaf? ==> Before(path) + [t.data] <= InOrder(shape)
      ensures Push(stack, t.node) == stack + [t.node]
      ensures t.node != sentinel && t.node.data == t.data && t.node.lchild == RootOf(t.left, sentinel)
        && t.node.rchild == RootOf(t.right, sentinel)
      ensures (t.left.Fork? <==> RootOf(t.left, sentinel) != sentinel)
        && (t.right.Fork? <==> RootOf(t.right, sentinel) != sentinel)
    {
      hide Holds;
      h' := if t.mark == Red then h else h - 1;
      Down(path, t);
      AtRoot(path, t);
      AtRoot(LeftOf(path, t), t.left);
      AtRoot(RightOf(path, t), t.right);
      PlugDepth(path, t);
      PlugKeepsOrder(path, t);
      if t.left.Leaf? {
        WalkDownOrder(path, t);
      }
    }

    lemma WalkDownOrder(path: Path<Color>, t: Tree<Color>)
      requires t.Fork? && t.left.Leaf?
      ensures Before(RightOf(path, t)) == Before(path) + [t.data]
      ensures t.right.Leaf? ==> InOrder(t) == [t.data]
      ensures Before(path) + [t.data] <= All(path, t)
    {
      Regroup(Before(path), [], [t.data], InOrder(t.right), After(path));
      assert Before(path) + [] + [t.data] == Before(path) + [t.data];
    }

    /** The step from a finished subtree to the node above it. */
    lemma WalkUp(path: Path<Color>, t: Tree<Color>, h: nat, stack: seq<Node<Color>>) returns (h': nat)
      requires Walking(path, t, h, stack) && !path.Top?
      ensures Walking(path.up, Step(path, t), h', stack[..|stack| - 1])
      ensures path.InRight? ==> Before(path.up) + InOrder(Step(path, t)) == Before(path) + InOrder(t)
      ensures path.InLeft? && path.right.Leaf? ==>
        Before(path.up) + InOrder(Step(path, t)) == Before(path) + InOrder(t) + [path.data]
    {
      hide Holds;
      Up(path, t);
      h' := if path.mark == Red then h else h + 1;
      WalkUpOrder(path, t);
    }

    lemma WalkUpOrder(path: Path<Color>, t: Tree<Color>)
      requires !path.Top?
      ensures path.InRight? ==> Before(path.up) + InOrder(Step(path, t)) == Before(path) + InOrder(t)
      ensures path.InLeft? && path.right.Leaf? ==>
        Before(path.up) + InOrder(Step(path, t)) == Before(path) + InOrder(t) + [path.data]
      ensures path.InLeft? ==> Before(path) + InOrder(t) + [path.data] <= All(path, t)
    {
    }

    /** The node above, as the walk sees it on the stack, and the record it would visit next. */
    lemma WalkLook(path: Path<Color>, t: Tree<Color>, h: nat, stack: seq<Node<Color>>)
      requires Walking(path, t, h, stack)
      ensures path.Top? <==> stack == []
      ensures path.Top? ==> Before(path) + InOrder(t) == InOrder(shape)
      ensures !path.Top? ==> stack[|stack| - 1] == path.node && path.node.data == path.data
      ensures !path.Top? ==>
        (path.node.lchild == t.node <==> path.InLeft?)
        && (path.node.rchild == t.node <==> path.InRight?)
      ensures path.InLeft? ==> path.node.rchild == RootOf(path.right, sentinel)
      ensures path.InLeft? ==> (path.right.Fork? <==> path.node.rchild != sentinel)
      ensures path.InLeft? ==> Before(path) + InOrder(t) + [path.data] <= InOrder(shape)
      ensures path.InRight? ==> path.node.rchild != sentinel
      ensures path.InLeft? && path.right.Leaf? ==> t.left.Leaf? && t.right.Leaf?
    {
      PlugKeepsOrder(path, t);
      AtRoot(path, t);
      if !path.Top? {
        Overhead(path, t);
        RootInside(t);
        RootInside(if path.InLeft? then path.right else path.left);
        WalkUpOrder(path, t);
        if path.InLeft? && path.right.Leaf? {
          OnlyChildIsLeaf(path, t, h);
        }
      }
    }

    /** What stands above the focus, and the root of a subtree. */
    lemma WalkShape(path: Path<Color>, t: Tree<Color>)
      ensures !path.Top? ==> Height(path.up) < Height(path) && Step(path, t).Fork? && Step(path, t).node == path.node
      ensures path.InLeft? ==> Step(path, t).left == t && Step(path, t).right == path.right
      ensures path.InRight? ==> Step(path, t).right == t
      ensures path.InLeft? && path.right.Fork? ==> RootOf(path.right, sentinel) == path.right.node
      ensures t.Fork? && t.right.Fork? ==> RootOf(t.right, sentinel) == t.right.node
    {
    }

    /** The step from a finished left subtree to the right one beside it. */
    lemma WalkAcross(path: Path<Color>, t: Tree<Color>, h: nat, stack: seq<Node<Color>>)
      requires Walking(path, t, h, stack) && path.InLeft? && path.right.Fork?
      ensures Walking(RightOf(path.up, Step(path, t)), path.right, h, stack)
      ensures Before(RightOf(path.up, Step(path, t))) == Before(path) + InOrder(t) + [path.data]
    {
      hide Holds;
      Up(path, t);
      Down(path.up, Step(path, t));
    }

    /** An only child is a leaf: beside a missing node stands a single red one, if any. */
    lemma OnlyChildIsLeaf(path: Path<Color>, t: Tree<Color>, h: nat)
      requires path.InLeft? && Balanced(t, h) && Fits(path, h) && path.right.Leaf?
      ensures t.Fork? ==> t.mark == Red && t.left.Leaf? && t.right.Leaf?
    {
    }

    /** Pushes the way down to the leftmost node below `start`. */
    method PushLeft(start: Node<Color>, stack0: seq<Node<Color>>, ghost path0: Path<Color>, ghost t0: Tree<Color>,
        ghost h0: nat)
      returns (node: Node<Color>, stack: seq<Node<Color>>, ghost path: Path<Color>, ghost t: Tree<Color>, ghost h: nat)
      requires Walking(path0, t0, h0, stack0) && t0.Fork? && start == t0.node
      ensures Walking(path, t, h, stack) && t.Fork? && node == t.node && t.left.Leaf?
      ensures Before(path) == Before(path0)
    {
      hide Holds, Balanced, Fits, InOrder, Before, After, Plug, Spine, Sound, Walking;
      node, stack, path, t, h := start, stack0, path0, t0, h0;
      ghost var h' := WalkDown(path, t, h, stack);
      while sentinel != node.lchild
        invariant Walking(path, t, h, stack) && t.Fork? && node == t.node && Before(path) == Before(path0)
        invariant (sentinel == node.lchild) == t.left.Leaf?
        decreases t
      {
        h' := WalkDown(path, t, h, stack);
        stack := Push(stack, node);
        node := node.lchild;
        path, t, h := LeftOf(path, t), t.left, h';
        h' := WalkDown(path, t, h, stack);
      }
    }

    lemma EmptyWalk()
      requires Valid()
      ensures shape.Leaf? <==> root == sentinel
      ensures shape.Leaf? ==> InOrder(shape) == []
    {
      AtRoot(Top, shape);
    }

    /** Calls back on every record; `visited` is the sequence of calls. */
    method Trav() returns (visited: seq<Data>)
      requires Valid() && |InOrder(shape)| < TWO_TO_THE_64
      ensures visited == InOrder(shape)
    {
      hide Holds, Balanced, Fits, InOrder, Before, After, Plug, Spine, Sound, Walking;
      visited := [];
      var node := root;
      EmptyWalk();
      if sentinel == node {
        return;
      }
      var stack: seq<Node<Color>> := [];
      ghost var path, t := Top, shape;
      ghost var h := StartWalk();
      while sentinel != node
        invariant Walking(path, t, h, stack) && t.Fork? && node == t.node && visited == Before(path)
          && visited <= InOrder(shape)
        decreases |InOrder(shape)| - |visited|
      {
        node, stack, path, t, h := PushLeft(node, stack, path, t, h);
        ghost var h' := WalkDown(path, t, h, stack);
        visited := visited + [node.data];
        if sentinel != node.rchild {
          stack := Push(stack, node);
          node := node.rchild;
          path, t, h := RightOf(path, t), t.right, h';
          continue;
        }
        WalkLook(path, t, h, stack);
        if |stack| == 0 {
          return;
        }
        var parent := stack[|stack| - 1];
        if parent.lchild == node {
          visited := visited + [parent.data];
          if sentinel != parent.rchild {
            node := parent.rchild;
            WalkAcross(path, t, h, stack);
            path, t := RightOf(path.up, Step(path, t)), path.right;
            continue;
          } else {
            h' := WalkUp(path, t, h, stack);
            stack := stack[..|stack| - 1];
            node := parent;
            path, t, h := path.up, Step(path, t), h';
            WalkLook(path, t, h, stack);
            if |stack| == 0 {
              return;
            }
            parent := stack[|stack| - 1];
          }
        }
        while node == parent.rchild || sentinel == parent.rchild
          invariant Walking(path, t, h, stack) && !path.Top? && t.Fork? && node == t.node && parent == path.node
          invariant visited == Before(path) + InOrder(t) && visited <= InOrder(shape)
          invariant path.InRight? || t.left.Fork? || t.right.Fork?
          decreases Height(path)
        {
          WalkLook(path, t, h, stack);
          h' := WalkUp(path, t, h, stack);
          stack := stack[..|stack| - 1];
          node := parent;
          path, t, h := path.up, Step(path, t), h';
          WalkLook(path, t, h, stack);
          if |stack| == 0 {
            return;
          }
          parent := stack[|stack| - 1];
        }
        WalkLook(path, t, h, stack);
        visited := visited + [parent.data];
        WalkAcross(path, t, h, stack);
        node := parent.rchild;
        path, t := RightOf(path.up, Step(path, t)), path.right;
      }
      ghost var _ := WalkDown(path, t, h, stack);
      assert false;
    }

    /** The first record in key order that the callback accepts. */
    method Find(find: Data -> bool) returns (data: Option<Data>)
      requires Valid() && |InOrder(shape)| < TWO_TO_THE_64
      ensures data == FirstMatch(InOrder(shape), find)
    {
      hide *;
      TurnedDownEnds(InOrder(shape), find);
      ghost var visited: seq<Data> := [];
      var node := root;
      EmptyWalk();
      if sentinel == node {
        return None;
      }
      var stack: seq<Node<Color>> := [];
      ghost var path, t := Top, shape;
      ghost var h := StartWalk();
      while sentinel != node
        invariant Walking(path, t, h, stack) && t.Fork? && node == t.node && visited == Before(path)
          && visited <= InOrder(shape)
        invariant TurnedDown(InOrder(shape), visited, find)
        decreases |InOrder(shape)| - |visited|
      {
        node, stack, path, t, h := PushLeft(node, stack, path, t, h);
        ghost var h' := WalkDown(path, t, h, stack);
        WalkShape(path, t);
        TurnedDownStep(InOrder(shape), visited, node.data, find);
        if find(node.data) {
          return Some(node.data);
        }
        visited := visited + [node.data];
        if sentinel != node.rchild {
          stack := Push(stack, node);
          node := node.rchild;
          path, t, h := RightOf(path, t), t.right, h';
          continue;
        }
        WalkLook(path, t, h, stack);
        if |stack| == 0 {
          return None;
        }
        var parent := stack[|stack| - 1];
        if parent.lchild == node {
          TurnedDownStep(InOrder(shape), visited, parent.data, find);
          if find(parent.data) {
            return Some(parent.data);
          }
          visited := visited + [parent.data];
          if sentinel != parent.rchild {
            node := parent.rchild;
            WalkAcross(path, t, h, stack);
            WalkShape(path, t);
            path, t := RightOf(path.up, Step(path, t)), path.right;
            continue;
          } else {
            h' := WalkUp(path, t, h, stack);
            WalkShape(path, t);
            stack := stack[..|stack| - 1];
            node := parent;
            path, t, h := path.up, Step(path, t), h';
            WalkLook(path, t, h, stack);
            if |stack| == 0 {
              return None;
            }
            parent := stack[|stack| - 1];
          }
        }
        while node == parent.rchild || sentinel == parent.rchild
          invariant Walking(path, t, h, stack) && !path.Top? && t.Fork? && node == t.node && parent == path.node
          invariant visited == Before(path) + InOrder(t) && visited <= InOrder(shape)
          invariant path.InRight? || t.left.Fork? || t.right.Fork?
          decreases Height(path)
        {
          WalkLook(path, t, h, stack);
          h' := WalkUp(path, t, h, stack);
          WalkShape(path, t);
          stack := stack[..|stack| - 1];
          node := parent;
          path, t, h := path.up, Step(path, t), h';
          WalkLook(path, t, h, stack);
          if |stack| == 0 {
            return None;
          }
          parent := stack[|stack| - 1];
        }
        WalkLook(path, t, h, stack);
        TurnedDownStep(InOrder(shape), visited, parent.data, find);
        if find(parent.data) {
          return Some(parent.data);
        }
        visited := visited + [parent.data];
        WalkAcross(path, t, h, stack);
        WalkShape(path, t);
        node := parent.rchild;
        path, t := RightOf(path.up, Step(path, t)), path.right;
      }
      ghost var _ := WalkDown(path, t, h, stack);
      assert false;
      data := None;
    }
  }
}
