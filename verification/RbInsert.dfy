// rb_insert_color: from a red-black tree with one red leaf linked in, back to a
// red-black tree.
module RbInsert {
  import opened RbNodes
  import opened RbBalance
  import opened RbRotate

  // The loop invariant: node is red, everything else obeys the rules, and the only
  // possible offence is a red parent above node.
  ghost predicate RedAt(ctx: Context, t: Tree) {
    IsRed(t) && Balanced(t) && CtxBalanced(ctx, BlackHeight(t))
  }

  function Grandparented(ctx: Context, t: Tree): Tree
    requires !ctx.Top? && !ctx.up.Top?
  {
    Parented(ctx.up, Parented(ctx, t))
  }

  function Recolored(g: Tree): Tree
    requires g.Bin? && IsRed(g.left) && IsRed(g.right)
  {
    Bin(g.left.(color := Black), g.node, Red, g.right.(color := Black))
  }

  // A red uncle: the offence moves two levels up.
  lemma RedUncle(ctx: Context, t: Tree)
    requires RedAt(ctx, t) && RedOwner(ctx)
    ensures !ctx.up.Top? && ctx.up.color == Black
    ensures var g := Grandparented(ctx, t);
      IsRed(g.left) && IsRed(g.right) ==>
        RedAt(ctx.up.up, Recolored(g)) && Inorder(Recolored(g)) == Inorder(g)
  {
    TwoUp(ctx, t);
  }

  lemma TwoUp(ctx: Context, t: Tree)
    requires RedAt(ctx, t) && RedOwner(ctx)
    ensures !ctx.up.Top? && ctx.up.color == Black && CtxBalanced(ctx.up.up, BlackHeight(t) + 1)
    ensures Depth(ctx) == Depth(ctx.up.up) + 2 && Fill(ctx, t) == Fill(ctx.up.up, Grandparented(ctx, t))
    ensures var g := Grandparented(ctx, t);
      && BlackHeight(g.left) == BlackHeight(g.right) == BlackHeight(t)
      && Balanced(Parented(ctx, t).(color := Black)) && Balanced(if ctx.up.LeftOf? then g.right else g.left)
  {
    assert CtxBalanced(ctx.up, BlackHeight(t));
  }

  // A black uncle on the right: one or two rotations end the offence.
  function TurnedRight(g: Tree): Tree
    requires g.Bin? && g.left.Bin?
  {
    RightRotated(g.(left := g.left.(color := Black), color := Red))
  }

  function TurnedLeft(g: Tree): Tree
    requires g.Bin? && g.right.Bin?
  {
    LeftRotated(g.(right := g.right.(color := Black), color := Red))
  }

  lemma Regrouped<T>(a: seq<T>, x: T, b: seq<T>, y: T, e: seq<T>)
    ensures (a + [x] + b) + [y] + e == a + [x] + (b + [y] + e)
  {
  }

  lemma LeftRotatedInorder(t: Tree)
    requires t.Bin? && t.right.Bin?
    ensures Inorder(LeftRotated(t)) == Inorder(t)
  {
    Regrouped(Inorder(t.left), t.node, Inorder(t.right.left), t.right.node, Inorder(t.right.right));
  }

  lemma RightRotatedInorder(t: Tree)
    requires t.Bin? && t.left.Bin?
    ensures Inorder(RightRotated(t)) == Inorder(t)
  {
    LeftRotatedInorder(RightRotated(t));
  }

  // The first rotation, taken when the path from gparent to node turns.
  function Straightened(ctx: Context, t: Tree): Tree
    requires RedOwner(ctx) && !ctx.up.Top? && t.Bin?
  {
    var g := Grandparented(ctx, t);
    if ctx.up.LeftOf? && ctx.RightOf? then g.(left := LeftRotated(g.left))
    else if ctx.up.RightOf? && ctx.LeftOf? then g.(right := RightRotated(g.right))
    else g
  }

  lemma BlackUncleRight(ctx: Context, t: Tree)
    requires RedAt(ctx, t) && RedOwner(ctx) && ctx.up.LeftOf? && !IsRed(ctx.up.right)
    ensures var g' := TurnedRight(Straightened(ctx, t));
      && g'.color == Black && RedAt(LeftOf(ctx.up.up, g'.node, Black, g'.right), g'.left)
      && Inorder(g') == Inorder(Grandparented(ctx, t))
  {
    TwoUp(ctx, t);
    if ctx.RightOf? {
      LeftRotatedInorder(Grandparented(ctx, t).left);
    }
    var g := Straightened(ctx, t);
    RightRotatedInorder(g.(left := g.left.(color := Black), color := Red));
  }

  method LiftOverRight(node: Node, parent: Node, gparent: Node, root: Root,
                       ghost S: set<Node>, ghost ctx: Context, ghost t: Tree)
    returns (next: Node, ghost ctx': Context, ghost t': Tree)
    requires RedAt(ctx, t) && RedOwner(ctx) && ctx.up.LeftOf? && !IsRed(ctx.up.right)
    requires t.node == node && ctx.node == parent && ctx.up.node == gparent
    requires Holds(Snap(S), root.node, ctx.up.up, Grandparented(ctx, t))
    modifies root`node, S
    ensures Holds(Snap(S), root.node, ctx', t') && RedAt(ctx', t') && t'.node == next
    ensures Inorder(Fill(ctx', t')) == Inorder(Fill(ctx, t)) && Depth(ctx') < Depth(ctx)
  {
    ghost var gctx, g, straight := ctx.up.up, Grandparented(ctx, t), Straightened(ctx, t);
    BlackUncleRight(ctx, t);
    FocusLeft(Snap(S), root.node, gctx, g);
    HoldsIn(Snap(S), root.node, gctx, g);
    next := node;
    var above := parent;
    if parent.right == node {
      TurnChildLeft(parent, root, S, gctx, g, true);
      next, above := parent, node;
    }
    HoldsIn(Snap(S), root.node, gctx, straight);
    HeadIn(straight.left);
    RecolorChild(above, Black, root, S, gctx, straight, true);
    ghost var black := straight.(left := straight.left.(color := Black));
    Recolor(gparent, Red, root, S, gctx, black);
    TurnRight(gparent, root, S, gctx, black.(color := Red));
    ghost var last := TurnedRight(straight);
    FocusLeft(Snap(S), root.node, gctx, last);
    ctx', t' := LeftOf(gctx, last.node, Black, last.right), last.left;
    TwoUp(ctx, t);
    SameInorder(gctx, g, last);
  }

  lemma BlackUncleLeft(ctx: Context, t: Tree)
    requires RedAt(ctx, t) && RedOwner(ctx) && ctx.up.RightOf? && !IsRed(ctx.up.left)
    ensures var g' := TurnedLeft(Straightened(ctx, t));
      && g'.color == Black && RedAt(RightOf(ctx.up.up, g'.left, g'.node, Black), g'.right)
      && Inorder(g') == Inorder(Grandparented(ctx, t))
  {
    TwoUp(ctx, t);
    if ctx.LeftOf? {
      RightRotatedInorder(Grandparented(ctx, t).right);
    }
    var g := Straightened(ctx, t);
    LeftRotatedInorder(g.(right := g.right.(color := Black), color := Red));
  }

  method LiftOverLeft(node: Node, parent: Node, gparent: Node, root: Root,
                       ghost S: set<Node>, ghost ctx: Context, ghost t: Tree)
    returns (next: Node, ghost ctx': Context, ghost t': Tree)
    requires RedAt(ctx, t) && RedOwner(ctx) && ctx.up.RightOf? && !IsRed(ctx.up.left)
    requires t.node == node && ctx.node == parent && ctx.up.node == gparent
    requires Holds(Snap(S), root.node, ctx.up.up, Grandparented(ctx, t))
    modifies root`node, S
    ensures Holds(Snap(S), root.node, ctx', t') && RedAt(ctx', t') && t'.node == next
    ensures Inorder(Fill(ctx', t')) == Inorder(Fill(ctx, t)) && Depth(ctx') < Depth(ctx)
  {
    ghost var gctx, g, straight := ctx.up.up, Grandparented(ctx, t), Straightened(ctx, t);
    BlackUncleLeft(ctx, t);
    FocusRight(Snap(S), root.node, gctx, g);
    HoldsIn(Snap(S), root.node, gctx, g);
    next := node;
    var above := parent;
    if parent.left == node {
      TurnChildRight(parent, root, S, gctx, g, false);
      next, above := parent, node;
    }
    HoldsIn(Snap(S), root.node, gctx, straight);
    HeadIn(straight.right);
    RecolorChild(above, Black, root, S, gctx, straight, false);
    ghost var black := straight.(right := straight.right.(color := Black));
    Recolor(gparent, Red, root, S, gctx, black);
    TurnLeft(gparent, root, S, gctx, black.(color := Red));
    ghost var last := TurnedLeft(straight);
    FocusRight(Snap(S), root.node, gctx, last);
    ctx', t' := RightOf(gctx, last.left, last.node, Black), last.right;
    TwoUp(ctx, t);
    SameInorder(gctx, g, last);
  }

  method RecolorFamily(uncle: Node, parent: Node, gparent: Node, root: Root,
                       ghost S: set<Node>, ghost ctx: Context, ghost t: Tree, ghost parentLeft: bool)
    returns (ghost ctx': Context, ghost t': Tree)
    requires RedAt(ctx, t) && RedOwner(ctx) && !ctx.up.Top?
    requires ctx.node == parent && ctx.up.node == gparent && parentLeft == ctx.up.LeftOf?
    requires IsRed(Child(Grandparented(ctx, t), !parentLeft)) && Child(Grandparented(ctx, t), !parentLeft).node == uncle
    requires Holds(Snap(S), root.node, ctx.up.up, Grandparented(ctx, t))
    modifies S`color
    ensures Holds(Snap(S), root.node, ctx', t') && RedAt(ctx', t') && t'.node == gparent
    ensures Inorder(Fill(ctx', t')) == Inorder(Fill(ctx, t)) && Depth(ctx') < Depth(ctx)
  {
    ghost var gctx, g := ctx.up.up, Grandparented(ctx, t);
    RedUncle(ctx, t);
    HoldsIn(Snap(S), root.node, gctx, g);
    HeadIn(g.left);
    HeadIn(g.right);
    RecolorChild(uncle, Black, root, S, gctx, g, !parentLeft);
    ghost var g1 := WithChild(g, !parentLeft, Child(g, !parentLeft).(color := Black));
    RecolorChild(parent, Black, root, S, gctx, g1, parentLeft);
    ghost var g2 := WithChild(g1, parentLeft, Child(g1, parentLeft).(color := Black));
    Recolor(gparent, Red, root, S, gctx, g2);
    ctx', t' := gctx, Recolored(g);
    TwoUp(ctx, t);
    SameInorder(gctx, g, t');
  }

  lemma FocusTwoUp(h: Store, top: Node?, ctx: Context, t: Tree)
    requires Holds(h, top, ctx, t) && RedAt(ctx, t) && RedOwner(ctx)
    ensures !ctx.up.Top? && Holds(h, top, ctx.up.up, Grandparented(ctx, t))
    ensures ctx.node in h && h[ctx.node].parent == ctx.up.node && ctx.up.node in h
    ensures h[ctx.up.node].left == Head(Grandparented(ctx, t).left)
    ensures h[ctx.up.node].right == Head(Grandparented(ctx, t).right)
    ensures (h[ctx.up.node].left == ctx.node) == ctx.up.LeftOf?
    ensures var uncle := if ctx.up.LeftOf? then Grandparented(ctx, t).right else Grandparented(ctx, t).left;
      uncle.Bin? ==> uncle.node in h && h[uncle.node].color == uncle.color
  {
    TwoUp(ctx, t);
    FocusUp(h, top, ctx, t);
    FocusUp(h, top, ctx.up, Parented(ctx, t));
    if ctx.up.RightOf? {
      HeadIn(ctx.up.left);
    }
  }

  // One round of the loop.
  method Climb(node: Node, parent: Node, root: Root, ghost S: set<Node>, ghost ctx: Context, ghost t: Tree)
    returns (next: Node, ghost ctx': Context, ghost t': Tree)
    requires Holds(Snap(S), root.node, ctx, t) && RedAt(ctx, t) && t.node == node
    requires parent == Owner(ctx) && RedOwner(ctx)
    modifies root`node, S
    ensures Holds(Snap(S), root.node, ctx', t') && RedAt(ctx', t') && t'.node == next
    ensures Inorder(Fill(ctx', t')) == Inorder(Fill(ctx, t)) && Depth(ctx') < Depth(ctx)
  {
    FocusTwoUp(Snap(S), root.node, ctx, t);
    var gparent := parent.parent;
    if parent == gparent.left {
      var uncle := gparent.right;
      if uncle != null && uncle.color == Red {
        ctx', t' := RecolorFamily(uncle, parent, gparent, root, S, ctx, t, true);
        return gparent, ctx', t';
      } else {
        next, ctx', t' := LiftOverRight(node, parent, gparent, root, S, ctx, t);
        return next, ctx', t';
      }
    } else {
      var uncle := gparent.left;
      if uncle != null && uncle.color == Red {
        ctx', t' := RecolorFamily(uncle, parent, gparent, root, S, ctx, t, false);
        return gparent, ctx', t';
      } else {
        next, ctx', t' := LiftOverLeft(node, parent, gparent, root, S, ctx, t);
        return next, ctx', t';
      }
    }
  }

  method InsertColor(node0: Node, root: Root, ghost S: set<Node>, ghost ctx0: Context) returns (ghost result: Tree)
    requires Holds(Snap(S), root.node, ctx0, Bin(Leaf, node0, Red, Leaf))
    requires RedBlack(Fill(ctx0, Leaf))
    modifies root`node, S
    ensures Holds(Snap(S), root.node, Top, result)
    ensures RedBlack(result) && Inorder(result) == Inorder(Fill(ctx0, Bin(Leaf, node0, Red, Leaf)))
  {
    FitsIffRedBlack(ctx0, Leaf);
    ghost var ctx, t := ctx0, Bin(Leaf, node0, Red, Leaf);
    var node := node0;
    var parent := node.parent;
    while parent != null && parent.color == Red
      invariant Holds(Snap(S), root.node, ctx, t) && RedAt(ctx, t)
      invariant node == t.node && parent == Owner(ctx)
      invariant Inorder(Fill(ctx, t)) == Inorder(Fill(ctx0, Bin(Leaf, node0, Red, Leaf)))
      decreases Depth(ctx)
    {
      node, ctx, t := Climb(node, parent, root, S, ctx, t);
      parent := node.parent;
    }
    FitsIffRedBlack(ctx, t.(color := Black));
    FitsIffRedBlack(ctx, t);
    FocusRoot(Snap(S), root.node, ctx, t);
    result := Fill(ctx, t);
    FillBin(ctx, t);
    Recolor(root.node, Black, root, S, Top, result);
    result := result.(color := Black);
  }
}
