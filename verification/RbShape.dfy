/** Red-black shape: what balance means for a tree and for the path above it, and that every case of
    the fix-ups restores it. */
module RbShape {
  import opened Arith
  import opened Records
  import opened BinTree

  datatype Color = Red | Black

  ghost predicate IsBlack(t: Tree<Color>) { t.Leaf? || t.mark == Black }

  /** `t` has no red node with a red child, and `h` black nodes on every way down to a leaf. */
  ghost predicate Balanced(t: Tree<Color>, h: nat) {
    match t
    case Leaf => h == 0
    case Fork(_, Red, l, _, r) => IsBlack(l) && IsBlack(r) && Balanced(l, h) && Balanced(r, h)
    case Fork(_, Black, l, _, r) => h > 0 && Balanced(l, h - 1) && Balanced(r, h - 1)
  }

  /** `t` is balanced but for a red root that may have red children. */
  ghost predicate NearlyBalanced(t: Tree<Color>, h: nat) {
    if t.Fork? && t.mark == Red then Balanced(t.left, h) && Balanced(t.right, h) else Balanced(t, h)
  }

  /** A red node may hang here: there is a parent and it is black. */
  ghost predicate AllowsRed(path: Path<Color>) { !path.Top? && path.mark == Black }

  /** Any balanced tree of black height `h` (black-rooted unless `AllowsRed(path)`) fits below `path`. */
  ghost predicate Fits(path: Path<Color>, h: nat) {
    match path
    case Top => true
    case InLeft(_, Red, _, r, up) => AllowsRed(up) && IsBlack(r) && Balanced(r, h) && Fits(up, h)
    case InLeft(_, Black, _, r, up) => Balanced(r, h) && Fits(up, h + 1)
    case InRight(_, Red, l, _, up) => AllowsRed(up) && IsBlack(l) && Balanced(l, h) && Fits(up, h)
    case InRight(_, Black, l, _, up) => Balanced(l, h) && Fits(up, h + 1)
  }

  ghost predicate RedBlack(t: Tree<Color>) {
    IsBlack(t) && exists h: nat :: Balanced(t, h)
  }

  lemma {:induction false} PlugKeepsBalance(path: Path<Color>, t: Tree<Color>, h: nat)
    requires Balanced(t, h) && Fits(path, h)
    requires IsBlack(t) || AllowsRed(path)
    ensures RedBlack(Plug(path, t))
    decreases path
  {
    match path
    case Top =>
    case InLeft(n, c, d, r, up) => PlugKeepsBalance(up, Fork(n, c, t, d, r), if c.Red? then h else h + 1);
    case InRight(n, c, l, d, up) => PlugKeepsBalance(up, Fork(n, c, l, d, t), if c.Red? then h else h + 1);
  }

  /** A balanced tree is at most twice its black height deep, and at least a full tree of that height. */
  lemma {:induction false} BalancedDepth(t: Tree<Color>, h: nat)
    requires Balanced(t, h)
    ensures Levels(t) <= 2 * h + (if IsBlack(t) then 0 else 1)
    ensures |InOrder(t)| + 1 >= Pow2(h)
  {
    if t.Fork? {
      var h' := if t.mark == Red then h else h - 1;
      BalancedDepth(t.left, h');
      BalancedDepth(t.right, h');
    }
  }

  lemma {:induction false} Pow2Monotone(a: nat, b: nat)
    requires a < b
    ensures Pow2(a) < Pow2(b)
  {
    if a + 1 < b { Pow2Monotone(a, b - 1); }
  }

  lemma Pow2Of64()
    ensures Pow2(64) == 0x1_0000_0000_0000_0000
  {
    assert Pow2(8) == 256;
    assert Pow2(16) == 0x1_0000;
    assert Pow2(24) == 0x100_0000;
    assert Pow2(32) == 0x1_0000_0000;
    assert Pow2(40) == 0x100_0000_0000;
    assert Pow2(48) == 0x1_0000_0000_0000;
    assert Pow2(56) == 0x100_0000_0000_0000;
  }

  /** A red-black tree whose size a uint64_t can count is at most 128 levels deep. */
  lemma DepthBound(t: Tree<Color>)
    requires RedBlack(t) && |InOrder(t)| < 0x1_0000_0000_0000_0000
    ensures Levels(t) <= 128
  {
    var h: nat :| Balanced(t, h);
    BalancedDepth(t, h);
    Pow2Of64();
    if h > 64 { Pow2Monotone(64, h); }
  }

  ghost function Tinted(path: Path<Color>, c: Color): Path<Color>
    requires !path.Top?
    ensures !Tinted(path, c).Top?
  {
    path.(mark := c)
  }

  /** Parent and uncle turned black under a grandparent of colour `c`. */
  lemma LeftUncleFits(path: Path<Color>, t: Tree<Color>, h: nat, c: Color)
    requires !path.Top? && path.mark == Red && Fits(path, h) && Balanced(t, h)
    requires path.up.InLeft? && path.up.right.Fork? && path.up.right.mark == Red
    ensures var u := path.up;
      var g := Step(u.(mark := c, right := u.right.(mark := Black)), Step(Tinted(path, Black), t));
      u.mark == Black && Fits(u.up, h + 1) && Balanced(g, if c == Red then h + 1 else h + 2)
  {
    var u := path.up;
    assert Fits(u, h);
    assert Balanced(Step(Tinted(path, Black), t), h + 1) && Balanced(u.right.(mark := Black), h + 1);
  }

  lemma LeftOuterFits(path: Path<Color>, t: Tree<Color>, h: nat)
    requires path.InLeft? && path.mark == Red && Fits(path, h) && Balanced(t, h)
    requires path.up.InLeft? && IsBlack(path.up.right)
    ensures var g := RotateRight(Step(Tinted(path.up, Red), Step(Tinted(path, Black), t)));
      Fits(path.up.up, h + 1) && Balanced(g, h + 1) && IsBlack(g)
  {
    assert Fits(path.up, h);
    assert Balanced(RotateRight(Step(Tinted(path.up, Red), Step(Tinted(path, Black), t))).right, h);
  }

  lemma LeftInnerFits(path: Path<Color>, t: Tree<Color>, h: nat)
    requires path.InRight? && path.mark == Red && t.Fork? && t.mark == Red && Fits(path, h) && Balanced(t, h)
    ensures var g := RotateLeft(Step(path, t));
      Fits(LeftOf(path.up, g), h) && Balanced(g.left, h)
  {
  }

  lemma LeftBrotherRedFits(path: Path<Color>, t: Tree<Color>, h: nat)
    requires path.InLeft? && path.right.Fork? && path.right.mark == Red && Fits(path, h + 1)
    ensures var g := RotateLeft(Step(Tinted(path.(right := path.right.(mark := Black)), Red), t));
      Fits(LeftOf(LeftOf(path.up, g), g.left), h + 1) && IsBlack(path.right.left)
  {
    assert Fits(path.up, h + 2);
  }

  lemma LeftBrotherPaintFits(path: Path<Color>, t: Tree<Color>, h: nat)
    requires path.InLeft? && path.right.Fork? && path.right.mark == Black
    requires IsBlack(path.right.left) && IsBlack(path.right.right)
    requires Fits(path, h + 1) && IsBlack(t) && NearlyBalanced(t, h)
    ensures var h' := if path.mark == Red then h else h + 1;
      Fits(path.up, h' + 1) && NearlyBalanced(Step(path.(right := path.right.(mark := Red)), t), h')
  {
    assert Balanced(path.right.(mark := Red), h);
  }

  lemma LeftNephewFits(path: Path<Color>, h: nat)
    requires path.InLeft? && path.right.Fork? && path.right.mark == Black
    requires path.right.left.Fork? && path.right.left.mark == Red && IsBlack(path.right.right)
    requires Fits(path, h + 1)
    ensures var b := path.right;
      Fits(path.(right := RotateRight(b.(mark := Red, left := b.left.(mark := Black)))), h + 1)
  {
    var b := path.right;
    assert Balanced(b.left, h) && Balanced(b.right, h);
    assert Balanced(RotateRight(b.(mark := Red, left := b.left.(mark := Black))).right, h);
  }

  lemma LeftLastFits(path: Path<Color>, t: Tree<Color>, h: nat)
    requires path.InLeft? && path.right.Fork? && path.right.mark == Black
    requires path.right.right.Fork? && path.right.right.mark == Red
    requires Fits(path, h + 1) && IsBlack(t) && NearlyBalanced(t, h)
    ensures var b, h' := path.right, if path.mark == Red then h + 1 else h + 2;
      var g := RotateLeft(Step(Tinted(path.(
                 right := b.(mark := path.mark, right := b.right.(mark := Black))), Black), t));
      Fits(path.up, h') && Balanced(g, h') && (IsBlack(g) || AllowsRed(path.up))
  {
    var b := path.right;
    assert Balanced(b.left, h) && Balanced(b.right, h);
    var g := RotateLeft(Step(Tinted(path.(
               right := b.(mark := path.mark, right := b.right.(mark := Black))), Black), t));
    assert Balanced(g.left, h + 1) && Balanced(g.right, h + 1);
  }

  /** Parent and uncle turned black under a grandparent of colour `c`. */
  lemma RightUncleFits(path: Path<Color>, t: Tree<Color>, h: nat, c: Color)
    requires !path.Top? && path.mark == Red && Fits(path, h) && Balanced(t, h)
    requires path.up.InRight? && path.up.left.Fork? && path.up.left.mark == Red
    ensures var u := path.up;
      var g := Step(u.(mark := c, left := u.left.(mark := Black)), Step(Tinted(path, Black), t));
      u.mark == Black && Fits(u.up, h + 1) && Balanced(g, if c == Red then h + 1 else h + 2)
  {
    var u := path.up;
    assert Fits(u, h);
    assert Balanced(Step(Tinted(path, Black), t), h + 1) && Balanced(u.left.(mark := Black), h + 1);
  }

  lemma RightOuterFits(path: Path<Color>, t: Tree<Color>, h: nat)
    requires path.InRight? && path.mark == Red && Fits(path, h) && Balanced(t, h)
    requires path.up.InRight? && IsBlack(path.up.left)
    ensures var g := RotateLeft(Step(Tinted(path.up, Red), Step(Tinted(path, Black), t)));
      Fits(path.up.up, h + 1) && Balanced(g, h + 1) && IsBlack(g)
  {
    assert Fits(path.up, h);
    assert Balanced(RotateLeft(Step(Tinted(path.up, Red), Step(Tinted(path, Black), t))).left, h);
  }

  lemma RightInnerFits(path: Path<Color>, t: Tree<Color>, h: nat)
    requires path.InLeft? && path.mark == Red && t.Fork? && t.mark == Red && Fits(path, h) && Balanced(t, h)
    ensures var g := RotateRight(Step(path, t));
      Fits(RightOf(path.up, g), h) && Balanced(g.right, h)
  {
  }

  lemma RightBrotherRedFits(path: Path<Color>, t: Tree<Color>, h: nat)
    requires path.InRight? && path.left.Fork? && path.left.mark == Red && Fits(path, h + 1)
    ensures var g := RotateRight(Step(Tinted(path.(left := path.left.(mark := Black)), Red), t));
      Fits(RightOf(RightOf(path.up, g), g.right), h + 1) && IsBlack(path.left.right)
  {
    assert Fits(path.up, h + 2);
  }

  lemma RightBrotherPaintFits(path: Path<Color>, t: Tree<Color>, h: nat)
    requires path.InRight? && path.left.Fork? && path.left.mark == Black
    requires IsBlack(path.left.right) && IsBlack(path.left.left)
    requires Fits(path, h + 1) && IsBlack(t) && NearlyBalanced(t, h)
    ensures var h' := if path.mark == Red then h else h + 1;
      Fits(path.up, h' + 1) && NearlyBalanced(Step(path.(left := path.left.(mark := Red)), t), h')
  {
    assert Balanced(path.left.(mark := Red), h);
  }

  lemma RightNephewFits(path: Path<Color>, h: nat)
    requires path.InRight? && path.left.Fork? && path.left.mark == Black
    requires path.left.right.Fork? && path.left.right.mark == Red && IsBlack(path.left.left)
    requires Fits(path, h + 1)
    ensures var b := path.left;
      Fits(path.(left := RotateLeft(b.(mark := Red, right := b.right.(mark := Black)))), h + 1)
  {
    var b := path.left;
    assert Balanced(b.right, h) && Balanced(b.left, h);
    assert Balanced(RotateLeft(b.(mark := Red, right := b.right.(mark := Black))).left, h);
  }

  lemma RightLastFits(path: Path<Color>, t: Tree<Color>, h: nat)
    requires path.InRight? && path.left.Fork? && path.left.mark == Black
    requires path.left.left.Fork? && path.left.left.mark == Red
    requires Fits(path, h + 1) && IsBlack(t) && NearlyBalanced(t, h)
    ensures var b, h' := path.left, if path.mark == Red then h + 1 else h + 2;
      var g := RotateRight(Step(Tinted(path.(
                 left := b.(mark := path.mark, left := b.left.(mark := Black))), Black), t));
      Fits(path.up, h') && Balanced(g, h') && (IsBlack(g) || AllowsRed(path.up))
  {
    var b := path.left;
    assert Balanced(b.right, h) && Balanced(b.left, h);
    var g := RotateRight(Step(Tinted(path.(
               left := b.(mark := path.mark, left := b.left.(mark := Black))), Black), t));
    assert Balanced(g.right, h + 1) && Balanced(g.left, h + 1);
  }

  lemma {:induction false} OverwriteFits(path: Path<Color>, n: Node<Color>, d: Data, h: nat)
    requires OnSpine(path, n)
    ensures Fits(path, h) ==> Fits(Overwrite(path, n, d), h)
    ensures AllowsRed(path) ==> AllowsRed(Overwrite(path, n, d))
    decreases path
  {
    if path.node != n {
      OverwriteFits(path.up, n, d, if path.mark.Red? then h else h + 1);
    }
  }
}
