// rb_replace_node: another node takes the place of one in the tree.
module RbReplace {
  import opened RbNodes
  import opened RbSplice

  // The store before the fields are copied.
  ghost function AroundReplaced(h: Store, victim: Node, other: Node): (h': Store)
    requires CanSubstitute(h, victim, other)
    ensures h'.Keys == h.Keys
  {
    Relinked(h, h[victim], victim, other)
  }

  // The whole of it, in the source's order: the neighbours first, the fields last.
  ghost function AfterReplace(h: Store, victim: Node, other: Node): Store
    requires CanSubstitute(h, victim, other)
  {
    var h' := AroundReplaced(h, victim, other);
    Copied(h', h'[victim], other)
  }

  lemma AroundCells(h: Store, top: Node?, ctx: Context, t: Tree, other: Node)
    requires Holds(h, top, ctx, t) && t.Bin? && other in h && other !in Nodes(t) + CtxNodes(ctx)
    requires CanSubstitute(h, t.node, other)
    ensures var h' := AroundReplaced(h, t.node, other);
      && h'[t.node] == h[t.node] == Cell(Head(t.left), Head(t.right), Owner(ctx), t.color)
      && Linked(h', t.left, other) && Linked(h', t.right, other)
      && CtxLinked(h', if ctx.Top? then other else top, ctx, other)
  {
    SubstituteDefined(h, top, ctx, t, other);
    LinkedParts(h, t, Owner(ctx));
    SubstituteApart(ctx, t);
    hide Linked, CtxLinked, Nodes, CtxNodes, Distinct, CtxDistinct, Relinked;
    RelinkedCells(h, top, ctx, t.left, t.right, t.color, t.node, other);
  }

  lemma CopiedHolds(h: Store, top: Node?, ctx: Context, t: Tree, other: Node)
    requires t.Bin? && Distinct(t) && CtxDistinct(ctx) && Nodes(t) !! CtxNodes(ctx)
    requires other in h && other !in Nodes(t) + CtxNodes(ctx)
    requires Linked(h, t.left, other) && Linked(h, t.right, other) && CtxLinked(h, top, ctx, other)
    ensures Holds(h[other := Cell(Head(t.left), Head(t.right), Owner(ctx), t.color)], top, ctx, t.(node := other))
  {
    var h' := h[other := Cell(Head(t.left), Head(t.right), Owner(ctx), t.color)];
    LinkedFrame(h, h', t.left, other);
    LinkedFrame(h, h', t.right, other);
    CtxLinkedFrame(h, h', top, ctx, other);
  }

  lemma ReplaceHolds(h: Store, top: Node?, ctx: Context, t: Tree, other: Node)
    requires Holds(h, top, ctx, t) && t.Bin? && other in h && other !in Nodes(t) + CtxNodes(ctx)
    ensures CanSubstitute(h, t.node, other) && h[t.node].parent == Owner(ctx)
    ensures h[t.node].left != t.node && h[t.node].right != t.node && h[t.node].parent != t.node
    ensures Holds(AfterReplace(h, t.node, other), if ctx.Top? then other else top, ctx, t.(node := other))
  {
    SubstituteDefined(h, top, ctx, t, other);
    AroundCells(h, top, ctx, t, other);
    HeadIn(t.left);
    HeadIn(t.right);
    CopiedHolds(AroundReplaced(h, t.node, other), if ctx.Top? then other else top, ctx, t, other);
  }

  lemma NodeElsewhere(ctx: Context, t: Tree)
    requires t.Bin? && Distinct(Fill(ctx, t))
    ensures t.node !in Nodes(t.left) + Nodes(t.right) + CtxNodes(ctx)
    decreases ctx
  {
    DistinctFill(ctx, t);
  }

  lemma {:induction false} DistinctFill(ctx: Context, t: Tree)
    requires Distinct(Fill(ctx, t))
    ensures Distinct(t) && Nodes(t) !! CtxNodes(ctx)
    decreases ctx
  {
    if !ctx.Top? {
      DistinctFill(ctx.up, Parented(ctx, t));
    }
  }

  method RelinkNeighbours(victim: Node, other: Node, root: Root, ghost S: set<Node>)
    requires victim in S && other in S && CanSubstitute(Snap(S), victim, other)
    requires victim.parent != victim && victim.left != victim && victim.right != victim
    modifies root`node, S
    ensures Snap(S) == AroundReplaced(old(Snap(S)), victim, other)
    ensures root.node == if old(victim.parent) == null then other else old(root.node)
  {
    hide Relinked;
    assert Snap(S)[victim] == Cell(victim.left, victim.right, victim.parent, victim.color);
    Relink(victim.parent, victim.left, victim.right, victim, other, root, S);
  }

  method ReplaceAt(victim: Node, other: Node, root: Root, ghost S: set<Node>, ghost ctx: Context, ghost t: Tree)
    requires Holds(Snap(S), root.node, ctx, t) && t.Bin? && t.node == victim
    requires other in S && other !in Nodes(t) + CtxNodes(ctx)
    modifies root`node, S
    ensures Holds(Snap(S), root.node, Top, Fill(ctx, t.(node := other)))
  {
    ReplaceHolds(Snap(S), root.node, ctx, t, other);
    HeadIn(t);
    RelinkNeighbours(victim, other, root, S);
    CopyFields(victim, other, S);
    FocusRoot(Snap(S), root.node, ctx, t.(node := other));
  }
}
