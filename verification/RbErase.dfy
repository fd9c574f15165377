// __rb_erase_color and rb_erase: one node leaves, and the tree is red-black again.
module RbErase {
  import opened RbNodes
  import opened RbBalance
  import opened RbRotate
  import opened RbSplice
  import opened RbWalk
  import RbInsert

  function Blackened(t: Tree): Tree {
    if t.Leaf? then t else t.(color := Black)
  }

  // The loop invariant of __rb_erase_color: everything obeys the rules except that
  // every path through the hole is one black node short, and that the tree at the
  // hole may have a red root with a red child.
  ghost predicate ShortAt(ctx: Context, t: Tree) {
    Balanced(Blackened(t)) && CtxBalanced(ctx, BlackHeight(t) + 1)
  }

  // Blackening a red root, or reaching the top, repairs the shortage.
  lemma ShortRepaired(ctx: Context, t: Tree)
    requires ShortAt(ctx, t) && (IsRed(t) || ctx.Top?)
    ensures RedBlack(Fill(ctx, Blackened(t)))
  {
    FitsIffRedBlack(ctx, Blackened(t));
  }

  lemma {:induction false} TopOutside(h: Store, top: Node?, ctx: Context, hole: Node?)
    requires CtxLinked(h, top, ctx, hole) && !ctx.Top?
    ensures top != null && top in CtxNodes(ctx)
    decreases ctx
  {
    if !ctx.up.Top? {
      TopOutside(h, top, ctx.up, ctx.node);
    }
  }

  // The sibling of a short hole is never missing.
  lemma SiblingRight(ctx: Context, t: Tree)
    requires ShortAt(ctx, t) && ctx.LeftOf?
    ensures ctx.right.Bin?
    ensures IsRed(ctx.right) ==> ctx.color == Black && ctx.right.left.Bin? && !IsRed(ctx.right.left)
  {
  }

  function SiblingTurnedRight(ctx: Context): Context
    requires ctx.LeftOf? && ctx.right.Bin?
  {
    LeftOf(LeftOf(ctx.up, ctx.right.node, Black, ctx.right.right), ctx.node, Red, ctx.right.left)
  }

  lemma SiblingTurnedRightShort(ctx: Context, t: Tree)
    requires ShortAt(ctx, t) && ctx.LeftOf? && IsRed(ctx.right)
    ensures var ctx' := SiblingTurnedRight(ctx);
      && ShortAt(ctx', t) && ctx'.right.Bin? && !IsRed(ctx'.right)
      && Inorder(Fill(ctx', t)) == Inorder(Fill(ctx, t))
  {
    SiblingRight(ctx, t);
    var ctx' := SiblingTurnedRight(ctx);
    var g, g' := Parented(ctx, t), Parented(ctx'.up, Parented(ctx', t));
    assert CtxBalanced(ctx.up, BlackHeight(t) + 2);
    assert CtxBalanced(ctx'.up, BlackHeight(t) + 1);
    RbInsert.LeftRotatedInorder(g);
    assert Inorder(g') == Inorder(LeftRotated(g));
    SameInorder(ctx.up, g, g');
    assert Fill(ctx', t) == Fill(ctx.up, g');
  }

  // A red sibling: afterwards the sibling is black and the parent red.
  method BlackenSiblingRight(other0: Node, parent: Node, root: Root, ghost S: set<Node>, ghost ctx: Context,
                             ghost t: Tree)
    returns (other: Node, ghost ctx': Context)
    requires Holds(Snap(S), root.node, ctx, t) && ShortAt(ctx, t) && ctx.LeftOf? && ctx.node == parent
    requires IsRed(ctx.right) && ctx.right.node == other0
    modifies root`node, S
    ensures ctx' == SiblingTurnedRight(ctx) && Holds(Snap(S), root.node, ctx', t)
    ensures other == ctx'.right.node
  {
    ghost var up, g := ctx.up, Parented(ctx, t);
    SiblingRight(ctx, t);
    FocusUp(Snap(S), root.node, ctx, t);
    HoldsIn(Snap(S), root.node, up, g);
    HeadIn(g.right);
    RecolorChild(other0, Black, root, S, up, g, false);
    ghost var g1 := g.(right := g.right.(color := Black));
    Recolor(parent, Red, root, S, up, g1);
    ghost var g2 := g1.(color := Red);
    TurnLeft(parent, root, S, up, g2);
    ghost var g3 := LeftRotated(g2);
    FocusLeft(Snap(S), root.node, up, g3);
    FocusLeft(Snap(S), root.node, LeftOf(up, g3.node, Black, g3.right), g3.left);
    ctx' := SiblingTurnedRight(ctx);
    other := parent.right;
  }

  function SiblingReddenedRight(ctx: Context, t: Tree): Tree
    requires ctx.LeftOf? && ctx.right.Bin?
  {
    Bin(t, ctx.node, ctx.color, ctx.right.(color := Red))
  }

  // A black sibling with black children: reddened, the shortage moves up.
  lemma SiblingReddenedRightShort(ctx: Context, t: Tree)
    requires ShortAt(ctx, t) && ctx.LeftOf? && !IsRed(t) && ctx.right.Bin?
    requires !IsRed(ctx.right) && !IsRed(ctx.right.left) && !IsRed(ctx.right.right)
    ensures ShortAt(ctx.up, SiblingReddenedRight(ctx, t))
    ensures Inorder(Fill(ctx.up, SiblingReddenedRight(ctx, t))) == Inorder(Fill(ctx, t))
  {
    SameInorder(ctx.up, Parented(ctx, t), SiblingReddenedRight(ctx, t));
  }

  // A black sibling with two black children: the shortage moves one level up.
  method ReddenSiblingRight(other: Node, parent: Node, root: Root, ghost S: set<Node>, ghost ctx: Context,
                            ghost t: Tree)
    returns (ghost t': Tree)
    requires Holds(Snap(S), root.node, ctx, t) && ShortAt(ctx, t) && ctx.LeftOf? && ctx.node == parent && !IsRed(t)
    requires ctx.right.Bin? && ctx.right.node == other
    requires !IsRed(ctx.right) && !IsRed(ctx.right.left) && !IsRed(ctx.right.right)
    modifies other`color
    ensures Holds(Snap(S), root.node, ctx.up, t') && ShortAt(ctx.up, t') && t'.Bin? && t'.node == parent
    ensures t'.color == ctx.color && Inorder(Fill(ctx.up, t')) == Inorder(Fill(ctx, t))
  {
    hide Holds, Snap, ShortAt, Fill, Inorder;
    ghost var g := Parented(ctx, t);
    FocusUp(Snap(S), root.node, ctx, t);
    RecolorChild(other, Red, root, S, ctx.up, g, false);
    t' := SiblingReddenedRight(ctx, t);
    SiblingReddenedRightShort(ctx, t);
  }

  // The shape after the closing rotations; `s` is the sibling, one child of it red.
  function ClosedRight(ctx: Context, t: Tree): Tree
    requires ctx.LeftOf? && ctx.right.Bin? && (IsRed(ctx.right.left) || IsRed(ctx.right.right))
  {
    var s := FarRedRight(ctx.right);
    LeftRotated(Bin(t, ctx.node, Black, s.(color := ctx.color, right := s.right.(color := Black))))
  }

  // The sibling with its far child red.
  function FarRedRight(s: Tree): (s': Tree)
    requires s.Bin? && (IsRed(s.left) || IsRed(s.right))
    ensures s'.Bin? && IsRed(s'.right)
  {
    if IsRed(s.right) then s
    else RightRotated(s.(left := s.left.(color := Black), color := Red))
  }

  lemma FarRedRightKeeps(s: Tree)
    requires Balanced(s) && s.Bin? && s.color == Black && (IsRed(s.left) || IsRed(s.right))
    ensures var s' := FarRedRight(s);
      && Balanced(s'.left) && Balanced(s'.right) && Inorder(s') == Inorder(s)
      && BlackHeight(s'.left) == BlackHeight(s'.right) == BlackHeight(s) - 1
  {
    if !IsRed(s.right) {
      RbInsert.RightRotatedInorder(s.(left := s.left.(color := Black), color := Red));
      assert Balanced(FarRedRight(s).right);
    }
  }

  lemma ClosedRightFits(ctx: Context, t: Tree)
    requires ShortAt(ctx, t) && ctx.LeftOf? && !IsRed(t) && ctx.right.Bin? && !IsRed(ctx.right)
    requires IsRed(ctx.right.left) || IsRed(ctx.right.right)
    ensures Fits(ctx.up, ClosedRight(ctx, t))
    ensures Inorder(ClosedRight(ctx, t)) == Inorder(Parented(ctx, t))
  {
    var s := FarRedRight(ctx.right);
    FarRedRightKeeps(ctx.right);
    var g := Bin(t, ctx.node, Black, s.(color := ctx.color, right := s.right.(color := Black)));
    RbInsert.LeftRotatedInorder(g);
    assert Inorder(g.right) == Inorder(s);
    assert Blackened(t) == t;
    assert Balanced(Bin(t, ctx.node, Black, s.left)) && Balanced(s.right.(color := Black));
  }

  method FarReddenRight(other0: Node, parent: Node, root: Root, ghost S: set<Node>, ghost ctx: Context, ghost s: Tree)
    returns (other: Node)
    requires Holds(Snap(S), root.node, ctx, s) && ctx.RightOf? && ctx.node == parent
    requires s.Bin? && s.node == other0 && (IsRed(s.left) || IsRed(s.right))
    modifies root`node, S
    ensures Holds(Snap(S), root.node, ctx, FarRedRight(s)) && other == FarRedRight(s).node
  {
    HoldsIn(Snap(S), root.node, ctx, s);
    HeadIn(s.left);
    FocusLeft(Snap(S), root.node, ctx, s);
    FocusRight(Snap(S), root.node, ctx, s);
    other := other0;
    if other.right == null || other.right.color == Black {
      RecolorChild(other.left, Black, root, S, ctx, s, true);
      ghost var s1 := s.(left := s.left.(color := Black));
      Recolor(other, Red, root, S, ctx, s1);
      TurnRight(other, root, S, ctx, s1.(color := Red));
      other := parent.right;
    }
  }

  method RepaintRight(other: Node, parent: Node, root: Root, ghost S: set<Node>, ghost ctx: Context, ghost g: Tree)
    requires Holds(Snap(S), root.node, ctx, g) && g.Bin? && g.node == parent
    requires g.right.Bin? && g.right.node == other && g.right.right.Bin?
    modifies S`color
    ensures Holds(Snap(S), root.node, ctx,
      Bin(g.left, parent, Black, g.right.(color := g.color, right := g.right.right.(color := Black))))
  {
    HoldsIn(Snap(S), root.node, ctx, g);
    HeadIn(g.right);
    HeadIn(g.right.right);
    RecolorChild(other, parent.color, root, S, ctx, g, false);
    ghost var s := g.right.(color := g.color);
    Recolor(parent, Black, root, S, ctx, g.(right := s));
    ghost var sctx := RightOf(ctx, g.left, parent, Black);
    FocusRight(Snap(S), root.node, ctx, Bin(g.left, parent, Black, s));
    FocusRight(Snap(S), root.node, sctx, s);
    RecolorChild(other.right, Black, root, S, sctx, s, false);
    FocusUp(Snap(S), root.node, sctx, s.(right := s.right.(color := Black)));
  }

  // A black sibling with a red child: one or two rotations end the loop.
  method CloseRight(other0: Node, parent: Node, root: Root, ghost S: set<Node>, ghost ctx: Context, ghost t: Tree)
    requires Holds(Snap(S), root.node, ctx, t) && ctx.LeftOf? && ctx.node == parent
    requires ctx.right.Bin? && ctx.right.node == other0 && (IsRed(ctx.right.left) || IsRed(ctx.right.right))
    modifies root`node, S
    ensures Holds(Snap(S), root.node, ctx.up, ClosedRight(ctx, t))
  {
    ghost var up, s := ctx.up, FarRedRight(ctx.right);
    ghost var sctx := RightOf(up, t, parent, ctx.color);
    FocusUp(Snap(S), root.node, ctx, t);
    FocusRight(Snap(S), root.node, up, Parented(ctx, t));
    var other := FarReddenRight(other0, parent, root, S, sctx, ctx.right);
    FocusUp(Snap(S), root.node, sctx, s);
    HoldsIn(Snap(S), root.node, up, Bin(t, parent, ctx.color, s));
    RepaintRight(other, parent, root, S, up, Bin(t, parent, ctx.color, s));
    TurnLeft(parent, root, S, up, Bin(t, parent, Black, s.(color := ctx.color, right := s.right.(color := Black))));
  }

  // What the loop reads about the sibling.
  lemma SiblingCellsRight(h: Store, top: Node?, ctx: Context, t: Tree)
    requires Holds(h, top, ctx, t) && ctx.LeftOf? && ctx.right.Bin?
    ensures var s := ctx.right;
      && ctx.node in h && h[ctx.node].right == s.node && h[ctx.node].parent == Owner(ctx.up)
      && s.node in h && h[s.node] == Cell(Head(s.left), Head(s.right), ctx.node, s.color)
      && (s.left.Bin? ==> s.left.node in h && h[s.left.node].color == s.left.color)
      && (s.right.Bin? ==> s.right.node in h && h[s.right.node].color == s.right.color)
  {
    var s := ctx.right;
    assert Linked(h, s, ctx.node);
    assert Linked(h, s.left, s.node) && Linked(h, s.right, s.node);
  }

  // One round of the loop when the short hole is a left child.  `done` is the
  // source's break.
  method RoundLeft(parent: Node, root: Root, ghost S: set<Node>, ghost ctx: Context, ghost t: Tree)
    returns (done: bool, ghost ctx': Context, ghost t': Tree)
    requires Holds(Snap(S), root.node, ctx, t) && ShortAt(ctx, t) && !IsRed(t) && ctx.LeftOf? && ctx.node == parent
    modifies root`node, S
    ensures Holds(Snap(S), root.node, ctx', t') && Inorder(Fill(ctx', t')) == Inorder(Fill(ctx, t))
    ensures done ==> ctx'.Top? && RedBlack(t')
    ensures !done ==> ShortAt(ctx', t') && t'.Bin? && t'.node == parent && (IsRed(t') || Depth(ctx') < Depth(ctx))
  {
    hide Holds, ShortAt, Inorder, RedBlack, Fits;
    SiblingRight(ctx, t);
    ctx', t' := ctx, t;
    SiblingCellsRight(Snap(S), root.node, ctx, t);
    var other := parent.right;
    if other.color == Red {
      SiblingTurnedRightShort(ctx, t);
      other, ctx' := BlackenSiblingRight(other, parent, root, S, ctx, t);
    }
    SiblingCellsRight(Snap(S), root.node, ctx', t);
    if (other.left == null || other.left.color == Black) && (other.right == null || other.right.color == Black) {
      t' := ReddenSiblingRight(other, parent, root, S, ctx', t);
      done, ctx' := false, ctx'.up;
    } else {
      ClosedRightFits(ctx', t);
      CloseRight(other, parent, root, S, ctx', t);
      done, t' := true, ClosedRight(ctx', t);
      SameInorder(ctx'.up, Parented(ctx', t), t');
      FitsIffRedBlack(ctx'.up, t');
      FocusRoot(Snap(S), root.node, ctx'.up, t');
      ctx', t' := Top, Fill(ctx'.up, t');
    }
  }

  // The sibling of a short hole is never missing.
  lemma SiblingLeft(ctx: Context, t: Tree)
    requires ShortAt(ctx, t) && ctx.RightOf?
    ensures ctx.left.Bin?
    ensures IsRed(ctx.left) ==> ctx.color == Black && ctx.left.right.Bin? && !IsRed(ctx.left.right)
  {
  }

  function SiblingTurnedLeft(ctx: Context): Context
    requires ctx.RightOf? && ctx.left.Bin?
  {
    RightOf(RightOf(ctx.up, ctx.left.left, ctx.left.node, Black), ctx.left.right, ctx.node, Red)
  }

  lemma SiblingTurnedLeftShort(ctx: Context, t: Tree)
    requires ShortAt(ctx, t) && ctx.RightOf? && IsRed(ctx.left)
    ensures var ctx' := SiblingTurnedLeft(ctx);
      && ShortAt(ctx', t) && ctx'.left.Bin? && !IsRed(ctx'.left)
      && Inorder(Fill(ctx', t)) == Inorder(Fill(ctx, t))
  {
    SiblingLeft(ctx, t);
    var ctx' := SiblingTurnedLeft(ctx);
    var g, g' := Parented(ctx, t), Parented(ctx'.up, Parented(ctx', t));
    assert CtxBalanced(ctx.up, BlackHeight(t) + 2);
    assert CtxBalanced(ctx'.up, BlackHeight(t) + 1);
    RbInsert.RightRotatedInorder(g);
    assert Inorder(g') == Inorder(RightRotated(g));
    SameInorder(ctx.up, g, g');
    assert Fill(ctx', t) == Fill(ctx.up, g');
  }

  // A red sibling: afterwards the sibling is black and the parent red.
  method BlackenSiblingLeft(other0: Node, parent: Node, root: Root, ghost S: set<Node>, ghost ctx: Context,
                            ghost t: Tree)
    returns (other: Node, ghost ctx': Context)
    requires Holds(Snap(S), root.node, ctx, t) && ShortAt(ctx, t) && ctx.RightOf? && ctx.node == parent
    requires IsRed(ctx.left) && ctx.left.node == other0
    modifies root`node, S
    ensures ctx' == SiblingTurnedLeft(ctx) && Holds(Snap(S), root.node, ctx', t)
    ensures other == ctx'.left.node
  {
    ghost var up, g := ctx.up, Parented(ctx, t);
    SiblingLeft(ctx, t);
    FocusUp(Snap(S), root.node, ctx, t);
    HoldsIn(Snap(S), root.node, up, g);
    HeadIn(g.left);
    RecolorChild(other0, Black, root, S, up, g, true);
    ghost var g1 := g.(left := g.left.(color := Black));
    Recolor(parent, Red, root, S, up, g1);
    ghost var g2 := g1.(color := Red);
    TurnRight(parent, root, S, up, g2);
    ghost var g3 := RightRotated(g2);
    FocusRight(Snap(S), root.node, up, g3);
    FocusRight(Snap(S), root.node, RightOf(up, g3.left, g3.node, Black), g3.right);
    ctx' := SiblingTurnedLeft(ctx);
    other := parent.left;
  }

  function SiblingReddenedLeft(ctx: Context, t: Tree): Tree
    requires ctx.RightOf? && ctx.left.Bin?
  {
    Bin(ctx.left.(color := Red), ctx.node, ctx.color, t)
  }

  // A black sibling with black children: reddened, the shortage moves up.
  lemma SiblingReddenedLeftShort(ctx: Context, t: Tree)
    requires ShortAt(ctx, t) && ctx.RightOf? && !IsRed(t) && ctx.left.Bin?
    requires !IsRed(ctx.left) && !IsRed(ctx.left.right) && !IsRed(ctx.left.left)
    ensures ShortAt(ctx.up, SiblingReddenedLeft(ctx, t))
    ensures Inorder(Fill(ctx.up, SiblingReddenedLeft(ctx, t))) == Inorder(Fill(ctx, t))
  {
    SameInorder(ctx.up, Parented(ctx, t), SiblingReddenedLeft(ctx, t));
  }

  // A black sibling with two black children: the shortage moves one level up.
  method ReddenSiblingLeft(other: Node, parent: Node, root: Root, ghost S: set<Node>, ghost ctx: Context, ghost t: Tree)
    returns (ghost t': Tree)
    requires Holds(Snap(S), root.node, ctx, t) && ShortAt(ctx, t) && ctx.RightOf? && ctx.node == parent && !IsRed(t)
    requires ctx.left.Bin? && ctx.left.node == other
    requires !IsRed(ctx.left) && !IsRed(ctx.left.right) && !IsRed(ctx.left.left)
    modifies other`color
    ensures Holds(Snap(S), root.node, ctx.up, t') && ShortAt(ctx.up, t') && t'.Bin? && t'.node == parent
    ensures t'.color == ctx.color && Inorder(Fill(ctx.up, t')) == Inorder(Fill(ctx, t))
  {
    hide Holds, Snap, ShortAt, Fill, Inorder;
    ghost var g := Parented(ctx, t);
    FocusUp(Snap(S), root.node, ctx, t);
    RecolorChild(other, Red, root, S, ctx.up, g, true);
    t' := SiblingReddenedLeft(ctx, t);
    SiblingReddenedLeftShort(ctx, t);
  }

  // The shape after the closing rotations; `s` is the sibling, one child of it red.
  function ClosedLeft(ctx: Context, t: Tree): Tree
    requires ctx.RightOf? && ctx.left.Bin? && (IsRed(ctx.left.right) || IsRed(ctx.left.left))
  {
    var s := FarRedLeft(ctx.left);
    RightRotated(Bin(s.(color := ctx.color, left := s.left.(color := Black)), ctx.node, Black, t))
  }

  // The sibling with its far child red.
  function FarRedLeft(s: Tree): (s': Tree)
    requires s.Bin? && (IsRed(s.right) || IsRed(s.left))
    ensures s'.Bin? && IsRed(s'.left)
  {
    if IsRed(s.left) then s
    else LeftRotated(s.(right := s.right.(color := Black), color := Red))
  }

  lemma FarRedLeftKeeps(s: Tree)
    requires Balanced(s) && s.Bin? && s.color == Black && (IsRed(s.right) || IsRed(s.left))
    ensures var s' := FarRedLeft(s);
      && Balanced(s'.right) && Balanced(s'.left) && Inorder(s') == Inorder(s)
      && BlackHeight(s'.right) == BlackHeight(s'.left) == BlackHeight(s) - 1
  {
    if !IsRed(s.left) {
      RbInsert.LeftRotatedInorder(s.(right := s.right.(color := Black), color := Red));
      assert Balanced(FarRedLeft(s).left);
    }
  }

  lemma ClosedLeftFits(ctx: Context, t: Tree)
    requires ShortAt(ctx, t) && ctx.RightOf? && !IsRed(t) && ctx.left.Bin? && !IsRed(ctx.left)
    requires IsRed(ctx.left.right) || IsRed(ctx.left.left)
    ensures Fits(ctx.up, ClosedLeft(ctx, t))
    ensures Inorder(ClosedLeft(ctx, t)) == Inorder(Parented(ctx, t))
  {
    var s := FarRedLeft(ctx.left);
    FarRedLeftKeeps(ctx.left);
    var g := Bin(s.(color := ctx.color, left := s.left.(color := Black)), ctx.node, Black, t);
    RbInsert.RightRotatedInorder(g);
    assert Inorder(g.left) == Inorder(s);
    assert Blackened(t) == t;
    assert Balanced(Bin(s.right, ctx.node, Black, t)) && Balanced(s.left.(color := Black));
  }

  method FarReddenLeft(other0: Node, parent: Node, root: Root, ghost S: set<Node>, ghost ctx: Context, ghost s: Tree)
    returns (other: Node)
    requires Holds(Snap(S), root.node, ctx, s) && ctx.LeftOf? && ctx.node == parent
    requires s.Bin? && s.node == other0 && (IsRed(s.right) || IsRed(s.left))
    modifies root`node, S
    ensures Holds(Snap(S), root.node, ctx, FarRedLeft(s)) && other == FarRedLeft(s).node
  {
    HoldsIn(Snap(S), root.node, ctx, s);
    HeadIn(s.right);
    FocusRight(Snap(S), root.node, ctx, s);
    FocusLeft(Snap(S), root.node, ctx, s);
    other := other0;
    if other.left == null || other.left.color == Black {
      RecolorChild(other.right, Black, root, S, ctx, s, false);
      ghost var s1 := s.(right := s.right.(color := Black));
      Recolor(other, Red, root, S, ctx, s1);
      TurnLeft(other, root, S, ctx, s1.(color := Red));
      other := parent.left;
    }
  }

  method RepaintLeft(other: Node, parent: Node, root: Root, ghost S: set<Node>, ghost ctx: Context, ghost g: Tree)
    requires Holds(Snap(S), root.node, ctx, g) && g.Bin? && g.node == parent
    requires g.left.Bin? && g.left.node == other && g.left.left.Bin?
    modifies S`color
    ensures Holds(Snap(S), root.node, ctx,
      Bin(g.left.(color := g.color, left := g.left.left.(color := Black)), parent, Black, g.right))
  {
    HoldsIn(Snap(S), root.node, ctx, g);
    HeadIn(g.left);
    HeadIn(g.left.left);
    RecolorChild(other, parent.color, root, S, ctx, g, true);
    ghost var s := g.left.(color := g.color);
    Recolor(parent, Black, root, S, ctx, g.(left := s));
    ghost var sctx := LeftOf(ctx, parent, Black, g.right);
    FocusLeft(Snap(S), root.node, ctx, Bin(s, parent, Black, g.right));
    FocusLeft(Snap(S), root.node, sctx, s);
    RecolorChild(other.left, Black, root, S, sctx, s, true);
    FocusUp(Snap(S), root.node, sctx, s.(left := s.left.(color := Black)));
  }

  // A black sibling with a red child: one or two rotations end the loop.
  method CloseLeft(other0: Node, parent: Node, root: Root, ghost S: set<Node>, ghost ctx: Context, ghost t: Tree)
    requires Holds(Snap(S), root.node, ctx, t) && ctx.RightOf? && ctx.node == parent
    requires ctx.left.Bin? && ctx.left.node == other0 && (IsRed(ctx.left.right) || IsRed(ctx.left.left))
    modifies root`node, S
    ensures Holds(Snap(S), root.node, ctx.up, ClosedLeft(ctx, t))
  {
    ghost var up, s := ctx.up, FarRedLeft(ctx.left);
    ghost var sctx := LeftOf(up, parent, ctx.color, t);
    FocusUp(Snap(S), root.node, ctx, t);
    FocusLeft(Snap(S), root.node, up, Parented(ctx, t));
    var other := FarReddenLeft(other0, parent, root, S, sctx, ctx.left);
    FocusUp(Snap(S), root.node, sctx, s);
    HoldsIn(Snap(S), root.node, up, Bin(s, parent, ctx.color, t));
    RepaintLeft(other, parent, root, S, up, Bin(s, parent, ctx.color, t));
    TurnRight(parent, root, S, up, Bin(s.(color := ctx.color, left := s.left.(color := Black)), parent, Black, t));
  }

  // What the loop reads about the sibling.
  lemma SiblingCellsLeft(h: Store, top: Node?, ctx: Context, t: Tree)
    requires Holds(h, top, ctx, t) && ctx.RightOf? && ctx.left.Bin?
    ensures var s := ctx.left;
      && ctx.node in h && h[ctx.node].left == s.node && h[ctx.node].parent == Owner(ctx.up)
      && s.node in h && h[s.node] == Cell(Head(s.left), Head(s.right), ctx.node, s.color)
      && (s.right.Bin? ==> s.right.node in h && h[s.right.node].color == s.right.color)
      && (s.left.Bin? ==> s.left.node in h && h[s.left.node].color == s.left.color)
  {
    var s := ctx.left;
    assert Linked(h, s, ctx.node);
    assert Linked(h, s.right, s.node) && Linked(h, s.left, s.node);
  }

  // One round of the loop when the short hole is a right child.
  method RoundRight(parent: Node, root: Root, ghost S: set<Node>, ghost ctx: Context, ghost t: Tree)
    returns (done: bool, ghost ctx': Context, ghost t': Tree)
    requires Holds(Snap(S), root.node, ctx, t) && ShortAt(ctx, t) && !IsRed(t) && ctx.RightOf? && ctx.node == parent
    modifies root`node, S
    ensures Holds(Snap(S), root.node, ctx', t') && Inorder(Fill(ctx', t')) == Inorder(Fill(ctx, t))
    ensures done ==> ctx'.Top? && RedBlack(t')
    ensures !done ==> ShortAt(ctx', t') && t'.Bin? && t'.node == parent && (IsRed(t') || Depth(ctx') < Depth(ctx))
  {
    hide Holds, ShortAt, Inorder, RedBlack, Fits;
    SiblingLeft(ctx, t);
    ctx', t' := ctx, t;
    SiblingCellsLeft(Snap(S), root.node, ctx, t);
    var other := parent.left;
    if other.color == Red {
      SiblingTurnedLeftShort(ctx, t);
      other, ctx' := BlackenSiblingLeft(other, parent, root, S, ctx, t);
    }
    SiblingCellsLeft(Snap(S), root.node, ctx', t);
    if (other.right == null || other.right.color == Black) && (other.left == null || other.left.color == Black) {
      t' := ReddenSiblingLeft(other, parent, root, S, ctx', t);
      done, ctx' := false, ctx'.up;
    } else {
      ClosedLeftFits(ctx', t);
      CloseLeft(other, parent, root, S, ctx', t);
      done, t' := true, ClosedLeft(ctx', t);
      SameInorder(ctx'.up, Parented(ctx', t), t');
      FitsIffRedBlack(ctx'.up, t');
      FocusRoot(Snap(S), root.node, ctx'.up, t');
      ctx', t' := Top, Fill(ctx'.up, t');
    }
  }

  // What the loop guard and the left/right test read.
  lemma HoleCells(h: Store, top: Node?, ctx: Context, t: Tree)
    requires Holds(h, top, ctx, t) && ShortAt(ctx, t)
    ensures (top == Head(t)) == ctx.Top?
    ensures t.Bin? ==> t.node in h && h[t.node].color == t.color && h[t.node].parent == Owner(ctx)
    ensures !ctx.Top? ==> ctx.node in h && (h[ctx.node].left == Head(t)) == ctx.LeftOf?
  {
    HeadIn(t);
    if !ctx.Top? {
      TopOutside(h, top, ctx, Head(t));
    }
    if ctx.RightOf? {
      SiblingLeft(ctx, t);
      HeadIn(ctx.left);
    }
  }

  lemma Finish(h: Store, top: Node?, ctx: Context, t: Tree)
    requires Holds(h, top, ctx, Blackened(t))
    ensures Holds(h, top, Top, Fill(ctx, Blackened(t)))
    ensures Inorder(Fill(ctx, Blackened(t))) == Inorder(Fill(ctx, t))
  {
    FocusRoot(h, top, ctx, Blackened(t));
    SameInorder(ctx, t, Blackened(t));
  }

  // `if (node) rb_set_black(node)`.
  method BlackenIfAny(node: Node?, root: Root, ghost S: set<Node>, ghost ctx: Context, ghost t: Tree)
    returns (ghost result: Tree)
    requires Holds(Snap(S), root.node, ctx, t) && node == Head(t) && RedBlack(Fill(ctx, Blackened(t)))
    modifies S`color
    ensures Holds(Snap(S), root.node, Top, result)
    ensures RedBlack(result) && Inorder(result) == Inorder(Fill(ctx, t))
  {
    if node != null {
      HoldsIn(Snap(S), root.node, ctx, t);
      HeadIn(t);
      Recolor(node, Black, root, S, ctx, t);
    }
    result := Fill(ctx, Blackened(t));
    Finish(Snap(S), root.node, ctx, t);
  }

  lemma ClosedAtTop(h: Store, top: Node?, t: Tree)
    requires Holds(h, top, Top, t) && RedBlack(t)
    ensures top == Head(t) && Fill(Top, Blackened(t)) == t
  {
  }

  method EraseColor(node0: Node?, parent0: Node?, root: Root, ghost S: set<Node>, ghost ctx0: Context, ghost t0: Tree)
    returns (ghost result: Tree)
    requires Holds(Snap(S), root.node, ctx0, t0) && ShortAt(ctx0, t0)
    requires node0 == Head(t0) && parent0 == Owner(ctx0)
    modifies root`node, S
    ensures Holds(Snap(S), root.node, Top, result)
    ensures RedBlack(result) && Inorder(result) == Inorder(Fill(ctx0, t0))
  {
    hide Holds, ShortAt, Inorder, RedBlack, Fill, Blackened;
    var node, parent := node0, parent0;
    ghost var ctx, t := ctx0, t0;
    ghost var closed := false;
    HoleCells(Snap(S), root.node, ctx, t);
    while (node == null || node.color == Black) && node != root.node
      invariant Holds(Snap(S), root.node, ctx, t) && ShortAt(ctx, t) && !closed
      invariant node == Head(t) && parent == Owner(ctx)
      invariant (root.node == Head(t)) == ctx.Top? && (node != null ==> node.color == t.color)
      invariant !ctx.Top? ==> (parent.left == node) == ctx.LeftOf?
      invariant Inorder(Fill(ctx, t)) == Inorder(Fill(ctx0, t0))
      decreases if IsRed(t) then 0 else 1 + Depth(ctx)
    {
      var done;
      if parent.left == node {
        done, ctx, t := RoundLeft(parent, root, S, ctx, t);
      } else {
        done, ctx, t := RoundRight(parent, root, S, ctx, t);
      }
      if done {
        ClosedAtTop(Snap(S), root.node, t);
        node, closed := root.node, true;
        break;
      }
      HoleCells(Snap(S), root.node, ctx, t);
      node := parent;
      parent := node.parent;
    }
    if !closed {
      ShortRepaired(ctx, t);
    }
    assert RedBlack(Fill(ctx, Blackened(t)));
    result := BlackenIfAny(node, root, S, ctx, t);
  }

  // In-order contents of a tree without its root.
  function Without(t: Tree): seq<Node>
    requires t.Bin?
  {
    Inorder(t.left) + Inorder(t.right)
  }

  lemma OneChildGone(ctx: Context, t: Tree)
    requires RedBlack(Fill(ctx, t)) && t.Bin? && (t.left.Leaf? || t.right.Leaf?)
    ensures if t.color == Black then ShortAt(ctx, OnlyChild(t)) else RedBlack(Fill(ctx, OnlyChild(t)))
  {
    FitsIffRedBlack(ctx, t);
    FitsIffRedBlack(ctx, OnlyChild(t));
    assert Balanced(OnlyChild(t)) && BlackHeight(OnlyChild(t)) == BlackHeight(t.left) == 0;
  }

  lemma OneChildGoneInorder(ctx: Context, t: Tree)
    requires t.Bin? && (t.left.Leaf? || t.right.Leaf?)
    ensures Inorder(Fill(ctx, OnlyChild(t))) == Before(ctx) + Without(t) + After(ctx)
  {
    InorderFill(ctx, OnlyChild(t));
    assert Without(t) == Inorder(OnlyChild(t));
  }

  // The successor y of the root of t, with nothing on its left, moved to the root.
  lemma SuccessorMoved(ctx: Context, t: Tree, inner: Context, y: Tree)
    requires t.Bin? && RedBlack(Fill(ctx, t)) && y.Bin? && y.left.Leaf? && t.right == Fill(inner, y)
    ensures var ctx' := Within(inner, RightOf(ctx, t.left, y.node, t.color));
      if y.color == Black then ShortAt(ctx', y.right) else RedBlack(Fill(ctx', y.right))
  {
    var was := Within(inner, RightOf(ctx, t.left, t.node, t.color));
    var ctx' := Within(inner, RightOf(ctx, t.left, y.node, t.color));
    FillWithin(inner, RightOf(ctx, t.left, t.node, t.color), y);
    OneChildGone(was, y);
    if y.color == Black {
      RelabelBalanced(inner, ctx, t.left, t.node, y.node, t.color, BlackHeight(y.right) + 1);
    } else {
      FitsIffRedBlack(was, y.right);
      RelabelBalanced(inner, ctx, t.left, t.node, y.node, t.color, BlackHeight(y.right));
      SameOwnerColor(inner, ctx, t.left, t.node, y.node, t.color);
      FitsIffRedBlack(ctx', y.right);
    }
  }

  lemma SuccessorMovedInorder(ctx: Context, t: Tree, inner: Context, y: Tree)
    requires t.Bin? && y.Bin? && y.left.Leaf? && LeftOnly(inner) && t.right == Fill(inner, y)
    ensures var ctx' := Within(inner, RightOf(ctx, t.left, y.node, t.color));
      Inorder(Fill(ctx', y.right)) == Before(ctx) + Without(t) + After(ctx)
  {
    var t' := Bin(t.left, y.node, t.color, Fill(inner, y.right));
    FillWithin(inner, RightOf(ctx, t.left, y.node, t.color), y.right);
    LeftmostFirst(inner, y);
    InorderFill(ctx, t');
    assert Inorder(t') == Without(t);
  }

  lemma SameOwnerColor(inner: Context, ctx: Context, l: Tree, x: Node, y: Node, c: Color)
    ensures var a, b := Within(inner, RightOf(ctx, l, x, c)), Within(inner, RightOf(ctx, l, y, c));
      !a.Top? && !b.Top? && a.color == b.color
  {
  }

  method UnlinkOne(node: Node, root: Root, ghost S: set<Node>, ghost ctx: Context, ghost t: Tree)
    returns (child: Node?, parent: Node?, color: Color)
    requires Holds(Snap(S), root.node, ctx, t) && t.Bin? && t.node == node && (t.left.Leaf? || t.right.Leaf?)
    modifies root`node, S
    ensures Holds(Snap(S), root.node, ctx, OnlyChild(t))
    ensures child == Head(OnlyChild(t)) && parent == Owner(ctx) && color == t.color
  {
    SpliceHolds(Snap(S), root.node, ctx, t);
    if node.left == null {
      child := node.right;
    } else {
      child := node.left;
    }
    parent := node.parent;
    color := node.color;
    ReparentChild(child, parent, S);
    ReplaceChild(parent, node, child, root, S);
  }

  // What rb_erase reads before it splices out the successor.
  lemma SuccessorCells(h: Store, top: Node?, inner: Context, outer: Context, y: Tree)
    requires Holds(h, top, Within(inner, outer), y) && y.Bin? && LeftOnly(inner) && outer.RightOf?
    ensures var ctx := Within(inner, outer);
      && !ctx.Top? && ctx.node in h && outer.node in h && y.node in h
      && h[y.node] == Cell(Head(y.left), Head(y.right), ctx.node, y.color)
      && (ctx.node == outer.node) == inner.Top? && (h[ctx.node].left == y.node) == !inner.Top?
      && Nodes(y) !! CtxNodes(ctx) && ctx.node != y.node
    decreases inner
  {
    HeadIn(y);
    if inner.Top? {
      HeadIn(outer.left);
    } else {
      NodesWithin(inner.up, outer);
      assert outer.node in CtxNodes(outer);
      FocusUp(h, top, Within(inner, outer), y);
      SuccessorCells(h, top, inner.up, outer, Parented(inner, y));
    }
  }

  method SpliceSuccessor(node: Node, old0: Node, root: Root, ghost S: set<Node>, ghost inner: Context,
                         ghost outer: Context, ghost y: Tree)
    returns (child: Node?, parent: Node?, color: Color)
    requires Holds(Snap(S), root.node, Within(inner, outer), y) && LeftOnly(inner) && outer.RightOf?
    requires outer.node == old0
    requires y.Bin? && y.node == node && y.left.Leaf?
    modifies S
    ensures Holds(Snap(S), root.node, Within(inner, outer), y.right)
    ensures child == Head(y.right) && color == y.color
    ensures parent == if inner.Top? then node else inner.node
  {
    ghost var h := Snap(S);
    SuccessorCells(h, root.node, inner, outer, y);
    SpliceHolds(h, root.node, Within(inner, outer), y);
    HeadIn(y.right);
    child := node.right;
    parent := node.parent;
    color := node.color;
    ReparentChild(child, parent, S);
    assert Snap(S)[parent].left == h[parent].left;
    if parent == old0 {
      parent.SetRight(child, S);
      assert Snap(S) == AfterSplice(h, node, child, parent);
      parent := node;
    } else {
      parent.SetLeft(child, S);
      assert Snap(S) == AfterSplice(h, node, child, parent);
    }
  }

  // `node` gets the fields of `old0`, and the nodes around old0 point to it.
  method Substitute(node: Node, old0: Node, root: Root, ghost S: set<Node>)
    requires node in S && old0 in S && node != old0 && CanSubstitute(Snap(S), old0, node)
    requires old0.left != null && old0.parent != old0
    modifies root`node, S
    ensures Snap(S) == AfterSubstitute(old(Snap(S)), old0, node)
    ensures root.node == if old(old0.parent) == null then node else old(root.node)
  {
    hide Copied, Relinked;
    assert Snap(S)[old0] == Cell(old0.left, old0.right, old0.parent, old0.color);
    var left, right, parent := old0.left, old0.right, old0.parent;
    CopyFields(old0, node, S);
    Relink(parent, left, right, old0, node, root, S);
  }

  method TakePlace(node: Node, old0: Node, root: Root, ghost S: set<Node>, ghost ctx: Context, ghost t: Tree)
    requires Holds(Snap(S), root.node, ctx, t) && t.Bin? && t.node == old0 && t.left.Bin?
    requires node in S && node !in Nodes(t) + CtxNodes(ctx)
    modifies root`node, S
    ensures Holds(Snap(S), root.node, ctx, t.(node := node))
  {
    SubstituteHolds(Snap(S), root.node, ctx, t, node);
    HeadIn(t);
    Substitute(node, old0, root, S);
  }

  // The branch of rb_erase for two children: the leftmost node y on the right is
  // spliced out and takes the place of `old`.
  method UnlinkTwo(old0: Node, root: Root, ghost S: set<Node>, ghost ctx: Context, ghost t: Tree)
    returns (child: Node?, parent: Node?, color: Color, ghost inner: Context, ghost y: Tree)
    requires Holds(Snap(S), root.node, ctx, t) && t.Bin? && t.node == old0 && t.left.Bin? && t.right.Bin?
    modifies root`node, S
    ensures LeftOnly(inner) && y.Bin? && y.left.Leaf? && t.right == Fill(inner, y)
    ensures Holds(Snap(S), root.node, Within(inner, RightOf(ctx, t.left, y.node, t.color)), y.right)
    ensures child == Head(y.right) && color == y.color
    ensures parent == Owner(Within(inner, RightOf(ctx, t.left, y.node, t.color)))
  {
    ghost var outer := RightOf(ctx, t.left, old0, t.color);
    FocusRight(Snap(S), root.node, ctx, t);
    var node;
    node, inner, y := Leftmost(old0.right, root, S, outer, t.right);
    SuccessorCells(Snap(S), root.node, inner, outer, y);
    child, parent, color := SpliceSuccessor(node, old0, root, S, inner, outer, y);
    ghost var t' := t.(right := Fill(inner, y.right));
    NodesFill(inner, y.right);
    NodesWithin(inner, outer);
    FocusOut(Snap(S), root.node, inner, outer, y.right);
    FocusUp(Snap(S), root.node, outer, t'.right);
    TakePlace(node, old0, root, S, ctx, t');
    FocusRight(Snap(S), root.node, ctx, t'.(node := node));
    FocusIn(Snap(S), root.node, inner, RightOf(ctx, t.left, node, t.color), y.right);
  }

  // rb_erase: z leaves the tree and everything else keeps its place in the order.
  method Erase(z: Node, root: Root, ghost S: set<Node>, ghost ctx: Context, ghost t: Tree) returns (ghost result: Tree)
    requires Holds(Snap(S), root.node, ctx, t) && t.Bin? && t.node == z && RedBlack(Fill(ctx, t))
    modifies root`node, S
    ensures Holds(Snap(S), root.node, Top, result)
    ensures RedBlack(result) && Inorder(result) == Before(ctx) + Without(t) + After(ctx)
  {
    HoldsIn(Snap(S), root.node, ctx, t);
    HeadIn(t);
    ghost var hole, rest;
    var child, parent, color;
    if z.left == null || z.right == null {
      child, parent, color := UnlinkOne(z, root, S, ctx, t);
      hole, rest := ctx, OnlyChild(t);
      OneChildGone(ctx, t);
      OneChildGoneInorder(ctx, t);
    } else {
      ghost var inner, y;
      child, parent, color, inner, y := UnlinkTwo(z, root, S, ctx, t);
      hole, rest := Within(inner, RightOf(ctx, t.left, y.node, t.color)), y.right;
      SuccessorMoved(ctx, t, inner, y);
      SuccessorMovedInorder(ctx, t, inner, y);
    }
    if color == Black {
      result := EraseColor(child, parent, root, S, hole, rest);
    } else {
      FocusRoot(Snap(S), root.node, hole, rest);
      result := Fill(hole, rest);
    }
  }
}
