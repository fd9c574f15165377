// rb_first, rb_last, rb_next and rb_prev: walking a linked tree in order.
module RbWalk {
  import opened RbNodes
  import opened RbBalance

  function FirstOf(s: seq<Node>): Node? {
    if s == [] then null else s[0]
  }

  function LastOf(s: seq<Node>): Node? {
    if s == [] then null else s[|s| - 1]
  }

  predicate LeftOnly(ctx: Context) {
    ctx.Top? || (ctx.LeftOf? && LeftOnly(ctx.up))
  }

  lemma {:induction false} LeftOnlyBefore(ctx: Context)
    requires LeftOnly(ctx)
    ensures Before(ctx) == []
    decreases ctx
  {
    if !ctx.Top? {
      LeftOnlyBefore(ctx.up);
    }
  }

  lemma LeftmostFirst(inner: Context, y: Tree)
    requires y.Bin? && y.left.Leaf? && LeftOnly(inner)
    ensures Inorder(Fill(inner, y)) == [y.node] + Inorder(Fill(inner, y.right))
  {
    LeftOnlyBefore(inner);
    InorderFill(inner, y);
    InorderFill(inner, y.right);
    assert Inorder(y) == [y.node] + Inorder(y.right);
  }

  // Down the left edge of the tree at the hole.
  method Leftmost(start: Node, root: Root, ghost S: set<Node>, ghost outer: Context, ghost t: Tree)
    returns (node: Node, ghost inner: Context, ghost y: Tree)
    requires Holds(Snap(S), root.node, outer, t) && t.Bin? && t.node == start
    ensures LeftOnly(inner) && t == Fill(inner, y) && y.Bin? && y.left.Leaf? && y.node == node
    ensures Holds(Snap(S), root.node, Within(inner, outer), y)
  {
    node, inner, y := start, Top, t;
    var left := node.left;
    while left != null
      invariant LeftOnly(inner) && t == Fill(inner, y) && y.Bin? && y.node == node && left == Head(y.left)
      invariant Holds(Snap(S), root.node, Within(inner, outer), y)
      decreases y
    {
      FocusLeft(Snap(S), root.node, Within(inner, outer), y);
      node := left;
      left := node.left;
      inner, y := LeftOf(inner, y.node, y.color, y.right), y.left;
    }
  }

  predicate RightOnly(ctx: Context) {
    ctx.Top? || (ctx.RightOf? && RightOnly(ctx.up))
  }

  lemma {:induction true} RightOnlyAfter(ctx: Context)
    requires RightOnly(ctx)
    ensures After(ctx) == []
    decreases ctx
  {
    if !ctx.Top? {
      RightOnlyAfter(ctx.up);
    }
  }

  lemma RightmostLast(inner: Context, y: Tree)
    requires y.Bin? && y.right.Leaf? && RightOnly(inner)
    ensures Inorder(Fill(inner, y)) == Inorder(Fill(inner, y.left)) + [y.node]
  {
    RightOnlyAfter(inner);
    InorderFill(inner, y);
    InorderFill(inner, y.left);
    assert Inorder(y) == Inorder(y.left) + [y.node];
  }

  // Down the right edge of the tree at the hole.
  method Rightmost(start: Node, root: Root, ghost S: set<Node>, ghost outer: Context, ghost t: Tree)
    returns (node: Node, ghost inner: Context, ghost y: Tree)
    requires Holds(Snap(S), root.node, outer, t) && t.Bin? && t.node == start
    ensures RightOnly(inner) && t == Fill(inner, y) && y.Bin? && y.right.Leaf? && y.node == node
    ensures Holds(Snap(S), root.node, Within(inner, outer), y)
  {
    node, inner, y := start, Top, t;
    var right := node.right;
    while right != null
      invariant RightOnly(inner) && t == Fill(inner, y) && y.Bin? && y.node == node && right == Head(y.right)
      invariant Holds(Snap(S), root.node, Within(inner, outer), y)
      decreases y
    {
      FocusRight(Snap(S), root.node, Within(inner, outer), y);
      node := right;
      right := node.right;
      inner, y := RightOf(inner, y.left, y.node, y.color), y.right;
    }
  }

  // The loop of rb_next that climbs while node is a right child.
  method ClimbFromRight(start: Node, root: Root, ghost S: set<Node>, ghost ctx0: Context, ghost t0: Tree)
    returns (parent: Node?)
    requires Holds(Snap(S), root.node, ctx0, t0) && t0.Bin? && t0.node == start
    ensures parent == FirstOf(After(ctx0))
  {
    var node := start;
    parent := node.parent;
    ghost var ctx, t := ctx0, t0;
    EdgeFromRight(Snap(S), root.node, ctx, t);
    while parent != null && node == parent.right
      invariant Holds(Snap(S), root.node, ctx, t) && t.Bin? && t.node == node && parent == Owner(ctx)
      invariant !ctx.Top? ==> (parent.right == node) == ctx.RightOf?
      invariant After(ctx) == After(ctx0)
      decreases ctx
    {
      FocusUp(Snap(S), root.node, ctx, t);
      ctx, t := ctx.up, Parented(ctx, t);
      EdgeFromRight(Snap(S), root.node, ctx, t);
      node := parent;
      parent := node.parent;
    }
  }

  lemma EdgeFromRight(h: Store, top: Node?, ctx: Context, t: Tree)
    requires Holds(h, top, ctx, t) && t.Bin?
    ensures !ctx.Top? ==> ctx.node in h && (h[ctx.node].right == t.node) == ctx.RightOf?
    ensures h[t.node].parent == Owner(ctx) && Owner(ctx) != t.node
    ensures h[t.node].left == Head(t.left) && h[t.node].right == Head(t.right)
  {
    if ctx.LeftOf? {
      HeadIn(ctx.right);
    }
  }

  method Next(node: Node, root: Root, ghost S: set<Node>, ghost ctx: Context, ghost t: Tree) returns (next: Node?)
    requires Holds(Snap(S), root.node, ctx, t) && t.Bin? && t.node == node
    ensures next == FirstOf(Inorder(t.right) + After(ctx))
  {
    EdgeFromRight(Snap(S), root.node, ctx, t);
    if node.parent == node {
      return null;
    }
    if node.right != null {
      ghost var inner, y;
      FocusRight(Snap(S), root.node, ctx, t);
      next, inner, y := Leftmost(node.right, root, S, RightOf(ctx, t.left, node, t.color), t.right);
      LeftmostFirst(inner, y);
      return;
    }
    next := ClimbFromRight(node, root, S, ctx, t);
    assert Inorder(t.right) + After(ctx) == After(ctx);
  }

  method First(root: Root, ghost S: set<Node>, ghost t: Tree) returns (first: Node?)
    requires Holds(Snap(S), root.node, Top, t)
    ensures first == FirstOf(Inorder(t))
  {
    if root.node == null {
      return null;
    }
    ghost var inner, y;
    first, inner, y := Leftmost(root.node, root, S, Top, t);
    LeftmostFirst(inner, y);
  }

  // The loop of rb_prev that climbs while node is a left child.
  method ClimbFromLeft(start: Node, root: Root, ghost S: set<Node>, ghost ctx0: Context, ghost t0: Tree)
    returns (parent: Node?)
    requires Holds(Snap(S), root.node, ctx0, t0) && t0.Bin? && t0.node == start
    ensures parent == LastOf(Before(ctx0))
  {
    var node := start;
    parent := node.parent;
    ghost var ctx, t := ctx0, t0;
    EdgeFromLeft(Snap(S), root.node, ctx, t);
    while parent != null && node == parent.left
      invariant Holds(Snap(S), root.node, ctx, t) && t.Bin? && t.node == node && parent == Owner(ctx)
      invariant !ctx.Top? ==> (parent.left == node) == ctx.LeftOf?
      invariant Before(ctx) == Before(ctx0)
      decreases ctx
    {
      FocusUp(Snap(S), root.node, ctx, t);
      ctx, t := ctx.up, Parented(ctx, t);
      EdgeFromLeft(Snap(S), root.node, ctx, t);
      node := parent;
      parent := node.parent;
    }
  }

  lemma EdgeFromLeft(h: Store, top: Node?, ctx: Context, t: Tree)
    requires Holds(h, top, ctx, t) && t.Bin?
    ensures !ctx.Top? ==> ctx.node in h && (h[ctx.node].left == t.node) == ctx.LeftOf?
    ensures h[t.node].parent == Owner(ctx) && Owner(ctx) != t.node
    ensures h[t.node].right == Head(t.right) && h[t.node].left == Head(t.left)
  {
    if ctx.RightOf? {
      HeadIn(ctx.left);
    }
  }

  method Prev(node: Node, root: Root, ghost S: set<Node>, ghost ctx: Context, ghost t: Tree) returns (prev: Node?)
    requires Holds(Snap(S), root.node, ctx, t) && t.Bin? && t.node == node
    ensures prev == LastOf(Before(ctx) + Inorder(t.left))
  {
    EdgeFromLeft(Snap(S), root.node, ctx, t);
    if node.parent == node {
      return null;
    }
    if node.left != null {
      ghost var inner, y;
      FocusLeft(Snap(S), root.node, ctx, t);
      prev, inner, y := Rightmost(node.left, root, S, LeftOf(ctx, node, t.color, t.right), t.left);
      RightmostLast(inner, y);
      return;
    }
    prev := ClimbFromLeft(node, root, S, ctx, t);
    assert Before(ctx) + Inorder(t.left) == Before(ctx);
  }

  method Last(root: Root, ghost S: set<Node>, ghost t: Tree) returns (last: Node?)
    requires Holds(Snap(S), root.node, Top, t)
    ensures last == LastOf(Inorder(t))
  {
    if root.node == null {
      return null;
    }
    ghost var inner, y;
    last, inner, y := Rightmost(root.node, root, S, Top, t);
    RightmostLast(inner, y);
  }
}
