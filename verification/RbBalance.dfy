// The colour and black-height rules, for whole trees and for contexts, and what
// the rebalancing steps keep.
module RbBalance {
  import opened RbNodes

  predicate IsRed(t: Tree) {
    t.Bin? && t.color == Red
  }

  function Weight(c: Color): nat {
    if c == Black then 1 else 0
  }

  function BlackHeight(t: Tree): nat {
    if t.Leaf? then 0 else BlackHeight(t.left) + Weight(t.color)
  }

  predicate Balanced(t: Tree) {
    t.Bin? ==>
      && Balanced(t.left) && Balanced(t.right)
      && BlackHeight(t.left) == BlackHeight(t.right)
      && (t.color == Red ==> !IsRed(t.left) && !IsRed(t.right))
  }

  predicate RedBlack(t: Tree) {
    Balanced(t) && !IsRed(t)
  }

  predicate RedOwner(ctx: Context) {
    !ctx.Top? && ctx.color == Red
  }

  // Plugging a balanced tree of black height bh into the hole gives a red-black
  // tree, as long as no red root meets a red owner or the top.
  predicate CtxBalanced(ctx: Context, bh: nat) {
    match ctx
    case Top => true
    case LeftOf(up, _, c, r) =>
      && Balanced(r) && BlackHeight(r) == bh
      && (c == Red ==> !IsRed(r) && !up.Top? && up.color == Black)
      && CtxBalanced(up, bh + Weight(c))
    case RightOf(up, l, _, c) =>
      && Balanced(l) && BlackHeight(l) == bh
      && (c == Red ==> !IsRed(l) && !up.Top? && up.color == Black)
      && CtxBalanced(up, bh + Weight(c))
  }

  predicate Fits(ctx: Context, t: Tree) {
    && Balanced(t) && CtxBalanced(ctx, BlackHeight(t))
    && (IsRed(t) ==> !ctx.Top? && ctx.color == Black)
  }

  lemma {:induction false} FitsIffRedBlack(ctx: Context, t: Tree)
    ensures Fits(ctx, t) <==> RedBlack(Fill(ctx, t))
    decreases ctx
  {
    if !ctx.Top? {
      FitsIffRedBlack(ctx.up, Parented(ctx, t));
    }
  }

  lemma {:induction false} InorderFill(ctx: Context, t: Tree)
    ensures Inorder(Fill(ctx, t)) == Before(ctx) + Inorder(t) + After(ctx)
    decreases ctx
  {
    match ctx
    case Top =>
    case LeftOf(up, n, c, r) =>
      InorderFill(up, Bin(t, n, c, r));
    case RightOf(up, l, n, c) =>
      InorderFill(up, Bin(l, n, c, t));
  }

  lemma SameInorder(ctx: Context, t: Tree, t': Tree)
    requires Inorder(t) == Inorder(t')
    ensures Inorder(Fill(ctx, t)) == Inorder(Fill(ctx, t'))
  {
    InorderFill(ctx, t);
    InorderFill(ctx, t');
  }
}
