// Taking a node with at most one child out of a tree, and putting a node in
// another's place: the two relinking steps of rb_erase and rb_replace_node.
module RbSplice {
  import opened RbNodes
  import opened RbBalance

  // The only child of a node that lacks one.
  function OnlyChild(t: Tree): Tree
    requires t.Bin? && (t.left.Leaf? || t.right.Leaf?)
  {
    if t.left.Leaf? then t.right else t.left
  }

  ghost function AfterSplice(h: Store, node: Node, child: Node?, parent: Node?): Store
    requires (child != null ==> child in h) && (parent != null ==> parent in h)
  {
    Redirect(Reparent(h, child, parent), parent, node, child)
  }

  lemma SpliceHolds(h: Store, top: Node?, ctx: Context, t: Tree)
    requires Holds(h, top, ctx, t) && t.Bin? && (t.left.Leaf? || t.right.Leaf?)
    ensures var child := Head(OnlyChild(t));
      && (child != null ==> child in h) && (!ctx.Top? ==> ctx.node in h)
      && Holds(AfterSplice(h, t.node, child, Owner(ctx)), if ctx.Top? then child else top, ctx, OnlyChild(t))
  {
    var rest, parent := OnlyChild(t), Owner(ctx);
    HeadIn(rest);
    assert Linked(h, rest, t.node);
    var h1 := Reparent(h, Head(rest), parent);
    ReparentLinked(h, rest, t.node, parent);
    CtxLinkedFrame(h, h1, top, ctx, t.node);
    var h2 := Redirect(h1, parent, t.node, Head(rest));
    RedirectLinked(h1, top, ctx, t.node, Head(rest));
    assert parent != null ==> parent in CtxNodes(ctx);
    LinkedFrame(h1, h2, rest, parent);
  }

  ghost function Copied(h: Store, cell: Cell, other: Node): (h': Store)
    requires other in h
    ensures h' == h[other := cell]
  {
    var h1 := WithColor(WithParent(h, other, cell.parent), other, cell.color);
    WithLeft(WithRight(h1, other, cell.right), other, cell.left)
  }

  // The four fields of `from`, copied to `to`.
  method CopyFields(from: Node, to: Node, ghost S: set<Node>)
    requires from in S && to in S && from != to
    modifies to
    ensures Snap(S) == Copied(old(Snap(S)), old(Snap(S))[from], to)
  {
    to.SetParent(from.parent, S);
    to.SetColor(from.color, S);
    to.SetRight(from.right, S);
    to.SetLeft(from.left, S);
  }

  // `other` takes the four fields of `node`, and the nodes around point to it.
  ghost function AfterSubstitute(h: Store, node: Node, other: Node): (h': Store)
    requires CanSubstitute(h, node, other)
  {
    Relinked(Copied(h, h[node], other), h[node], node, other)
  }

  // The neighbours of a node whose cell is `was`, made to point at another one.
  ghost function Relinked(h: Store, was: Cell, node: Node, other: Node): (h': Store)
    requires (was.parent != null ==> was.parent in h) && (was.left != null ==> was.left in h)
    requires was.right != null ==> was.right in h
    ensures h'.Keys == h.Keys
  {
    Reparent(Reparent(Redirect(h, was.parent, node, other), was.left, other), was.right, other)
  }

  method Relink(parent: Node?, left: Node?, right: Node?, node: Node, other: Node, root: Root, ghost S: set<Node>)
    requires (parent != null ==> parent in S) && (left != null ==> left in S) && (right != null ==> right in S)
    modifies root`node, S
    ensures forall c :: Snap(S) == Relinked(old(Snap(S)), Cell(left, right, parent, c), node, other)
    ensures root.node == if parent == null then other else old(root.node)
  {
    hide Reparent, Redirect, Snap;
    ReplaceChild(parent, node, other, root, S);
    ReparentChild(left, other, S);
    ReparentChild(right, other, S);
  }

  // The two subtrees, and what is around them, hang from the other node afterwards.
  lemma RelinkedCells(h: Store, top: Node?, ctx: Context, l: Tree, r: Tree, c: Color, node: Node, other: Node)
    requires Distinct(l) && Distinct(r) && CtxDistinct(ctx) && Nodes(l) !! Nodes(r)
    requires Nodes(l) + Nodes(r) !! CtxNodes(ctx)
    requires node !in CtxNodes(ctx)
    requires Linked(h, l, node) && Linked(h, r, node) && CtxLinked(h, top, ctx, node)
    requires (l.Bin? ==> l.node in h) && (r.Bin? ==> r.node in h) && (!ctx.Top? ==> ctx.node in h)
    ensures var h' := Relinked(h, Cell(Head(l), Head(r), Owner(ctx), c), node, other);
      && Linked(h', l, other) && Linked(h', r, other) && CtxLinked(h', if ctx.Top? then other else top, ctx, other)
      && forall n :: n in h && n !in Nodes(l) + Nodes(r) + CtxNodes(ctx) ==> h'[n] == h[n]
  {
    RelinkedTouches(ctx, l, r);
    hide Linked, CtxLinked, Nodes, CtxNodes, Distinct, CtxDistinct;
    var h1 := Redirect(h, Owner(ctx), node, other);
    RedirectLinked(h, top, ctx, node, other);
    LinkedFrame(h, h1, l, node);
    LinkedFrame(h, h1, r, node);
    var h2 := Reparent(h1, Head(l), other);
    ReparentLinked(h1, l, node, other);
    LinkedFrame(h1, h2, r, node);
    var h3 := Reparent(h2, Head(r), other);
    ReparentLinked(h2, r, node, other);
    LinkedFrame(h2, h3, l, other);
    CtxLinkedFrame(h1, h3, if ctx.Top? then other else top, ctx, other);
  }

  lemma RelinkedTouches(ctx: Context, l: Tree, r: Tree)
    ensures l.Bin? ==> l.node in Nodes(l)
    ensures r.Bin? ==> r.node in Nodes(r)
    ensures !ctx.Top? ==> ctx.node in CtxNodes(ctx)
  {
  }

  ghost predicate CanSubstitute(h: Store, node: Node, other: Node) {
    && node in h && other in h && (h[node].parent != null ==> h[node].parent in h)
    && (h[node].left != null ==> h[node].left in h) && (h[node].right != null ==> h[node].right in h)
  }

  lemma SubstituteDefined(h: Store, top: Node?, ctx: Context, t: Tree, other: Node)
    requires Holds(h, top, ctx, t) && t.Bin? && other in h
    ensures CanSubstitute(h, t.node, other)
    ensures h[t.node] == Cell(Head(t.left), Head(t.right), Owner(ctx), t.color)
    ensures Linked(h, t.left, t.node) && Linked(h, t.right, t.node)
    ensures Owner(ctx) != t.node && (Owner(ctx) != null ==> Owner(ctx) in CtxNodes(ctx))
  {
    assert Linked(h, t.left, t.node) && Linked(h, t.right, t.node);
    HeadIn(t.left);
    HeadIn(t.right);
  }

  lemma SubstituteCells(h: Store, top: Node?, ctx: Context, t: Tree, other: Node)
    requires Holds(h, top, ctx, t) && t.Bin? && other in h && other !in Nodes(t) + CtxNodes(ctx)
    requires CanSubstitute(h, t.node, other)
    ensures var h' := AfterSubstitute(h, t.node, other);
      && h'[other] == Cell(Head(t.left), Head(t.right), Owner(ctx), t.color)
      && Linked(h', t.left, other) && Linked(h', t.right, other)
      && CtxLinked(h', if ctx.Top? then other else top, ctx, other)
  {
    SubstituteDefined(h, top, ctx, t, other);
    LinkedParts(h, t, Owner(ctx));
    SubstituteApart(ctx, t);
    hide Linked, CtxLinked, Nodes, CtxNodes, Distinct, CtxDistinct, Relinked;
    var h1 := Copied(h, h[t.node], other);
    CtxLinkedFrame(h, h1, top, ctx, t.node);
    LinkedFrame(h, h1, t.left, t.node);
    LinkedFrame(h, h1, t.right, t.node);
    RelinkedCells(h1, top, ctx, t.left, t.right, t.color, t.node, other);
  }

  lemma SubstituteApart(ctx: Context, t: Tree)
    requires t.Bin? && Distinct(t) && Nodes(t) !! CtxNodes(ctx)
    ensures Nodes(t) == {t.node} + Nodes(t.left) + Nodes(t.right) && t.node !in Nodes(t.left) + Nodes(t.right)
    ensures Distinct(t.left) && Distinct(t.right) && Nodes(t.left) !! Nodes(t.right)
  {
  }

  lemma SubstituteHolds(h: Store, top: Node?, ctx: Context, t: Tree, other: Node)
    requires Holds(h, top, ctx, t) && t.Bin? && other in h && other !in Nodes(t) + CtxNodes(ctx)
    ensures CanSubstitute(h, t.node, other)
    ensures h[t.node] == Cell(Head(t.left), Head(t.right), Owner(ctx), t.color) && Owner(ctx) != t.node
    ensures Holds(AfterSubstitute(h, t.node, other), if ctx.Top? then other else top, ctx, t.(node := other))
  {
    SubstituteDefined(h, top, ctx, t, other);
    SubstituteCells(h, top, ctx, t, other);
  }

  // Focus lemmas for a path of several edges.
  lemma {:induction false} FocusOut(h: Store, top: Node?, inner: Context, outer: Context, t: Tree)
    requires Holds(h, top, Within(inner, outer), t)
    ensures Holds(h, top, outer, Fill(inner, t))
    decreases inner
  {
    if !inner.Top? {
      FocusUp(h, top, Within(inner, outer), t);
      FocusOut(h, top, inner.up, outer, Parented(inner, t));
    }
  }

  lemma {:induction false} FocusIn(h: Store, top: Node?, inner: Context, outer: Context, t: Tree)
    requires Holds(h, top, outer, Fill(inner, t))
    ensures Holds(h, top, Within(inner, outer), t)
    decreases inner
  {
    if !inner.Top? {
      FocusIn(h, top, inner.up, outer, Parented(inner, t));
      var ctx := Within(inner.up, outer);
      if inner.LeftOf? {
        FocusLeft(h, top, ctx, Parented(inner, t));
      } else {
        FocusRight(h, top, ctx, Parented(inner, t));
      }
    }
  }

  lemma {:induction false} FillWithin(inner: Context, outer: Context, t: Tree)
    ensures Fill(Within(inner, outer), t) == Fill(outer, Fill(inner, t))
    decreases inner
  {
    if !inner.Top? {
      FillWithin(inner.up, outer, Parented(inner, t));
    }
  }

  lemma {:induction false} NodesFill(ctx: Context, t: Tree)
    ensures Nodes(Fill(ctx, t)) == Nodes(t) + CtxNodes(ctx)
    decreases ctx
  {
    if !ctx.Top? {
      NodesFill(ctx.up, Parented(ctx, t));
    }
  }

  lemma {:induction false} NodesWithin(inner: Context, outer: Context)
    ensures CtxNodes(Within(inner, outer)) == CtxNodes(inner) + CtxNodes(outer)
    decreases inner
  {
    if !inner.Top? {
      NodesWithin(inner.up, outer);
    }
  }

  // Which node stands somewhere makes no difference to the rules.
  lemma {:induction false} RelabelBalanced(inner: Context, ctx: Context, l: Tree, x: Node, y: Node, c: Color, bh: nat)
    requires CtxBalanced(Within(inner, RightOf(ctx, l, x, c)), bh)
    ensures CtxBalanced(Within(inner, RightOf(ctx, l, y, c)), bh)
    decreases inner
  {
    match inner
    case Top =>
    case LeftOf(up, _, d, _) =>
      RelabelBalanced(up, ctx, l, x, y, c, bh + Weight(d));
    case RightOf(up, _, _, d) =>
      RelabelBalanced(up, ctx, l, x, y, c, bh + Weight(d));
  }
}
