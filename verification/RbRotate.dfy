// __rb_rotate_left and __rb_rotate_right.  Each method states its effect on the
// cells; the lemmas beside it say what that effect means for the tree around it.
module RbRotate {
  import opened RbNodes

  lemma RecolorHolds(h: Store, top: Node?, ctx: Context, t: Tree, color: Color)
    requires t.Bin? && Holds(h, top, ctx, t)
    ensures t.node in h && Holds(h[t.node := h[t.node].(color := color)], top, ctx, t.(color := color))
  {
    var h' := h[t.node := h[t.node].(color := color)];
    LinkedFrame(h, h', t.left, t.node);
    LinkedFrame(h, h', t.right, t.node);
    CtxLinkedFrame(h, h', top, ctx, t.node);
  }

  function LeftRotated(t: Tree): Tree
    requires t.Bin? && t.right.Bin?
  {
    Bin(Bin(t.left, t.node, t.color, t.right.left), t.right.node, t.right.color, t.right.right)
  }

  lemma LeftRotatedDistinct(t: Tree)
    requires t.Bin? && t.right.Bin? && Distinct(t)
    ensures Distinct(LeftRotated(t)) && Nodes(LeftRotated(t)) == Nodes(t)
    ensures {t.node, t.right.node} !! Nodes(t.left) + Nodes(t.right.left) + Nodes(t.right.right)
    ensures Nodes(t.left) !! Nodes(t.right.left) && Nodes(t.left) !! Nodes(t.right.right)
    ensures Nodes(t.right.left) !! Nodes(t.right.right) && t.node != t.right.node
  {
    var a, b, e := t.left, t.right.left, t.right.right;
    assert Distinct(t.right) && Nodes(t.right) == {t.right.node} + Nodes(b) + Nodes(e);
    assert Nodes(LeftRotated(t).left) == {t.node} + Nodes(a) + Nodes(b);
  }

  ghost predicate CanRotateLeft(h: Store, node: Node) {
    && node in h && h[node].right != null && h[node].right in h && h[node].right != node
    && (h[h[node].right].left != null ==> h[h[node].right].left in h)
    && (h[node].parent != null ==> h[node].parent in h)
  }

  // The first half of a left rotation: the two nodes and the subtree between them.
  ghost function HalfRotatedLeft(h: Store, node: Node): (h': Store)
    requires CanRotateLeft(h, node)
    ensures h'.Keys == h.Keys
  {
    var right := h[node].right;
    var h1 := Reparent(WithRight(h, node, h[right].left), h[right].left, node);
    WithParent(WithLeft(h1, right, node), right, h[node].parent)
  }

  ghost function AfterRotateLeft(h: Store, node: Node): (h': Store)
    requires CanRotateLeft(h, node)
  {
    var right := h[node].right;
    var parent := h[node].parent;
    WithParent(Redirect(HalfRotatedLeft(h, node), parent, node, right), node, right)
  }

  lemma RotateLeftDefined(h: Store, top: Node?, ctx: Context, t: Tree)
    requires t.Bin? && t.right.Bin? && Holds(h, top, ctx, t)
    ensures CanRotateLeft(h, t.node)
    ensures t.node != t.right.node && h[t.node].right == t.right.node && h[t.node].parent == Owner(ctx)
    ensures h[t.right.node] == Cell(Head(t.right.left), Head(t.right.right), t.node, t.right.color)
    ensures Linked(h, t.left, t.node) && Linked(h, t.right.left, t.right.node) && Linked(h, t.right.right, t.right.node)
  {
    HeadIn(t.right);
    HeadIn(t.right.left);
    assert Linked(h, t.right, t.node);
    assert Linked(h, t.right.left, t.right.node);
  }

  // What the nodes that a left rotation touches are apart from.
  lemma RotateLeftApart(ctx: Context, t: Tree)
    requires t.Bin? && t.right.Bin? && Distinct(t) && Nodes(t) !! CtxNodes(ctx)
    ensures Distinct(t.right.left) && t.node != t.right.node && {t.node, t.right.node} !! CtxNodes(ctx)
    ensures {t.node, t.right.node} !! Nodes(t.left)
    ensures {t.node, t.right.node} !! Nodes(t.right.left)
    ensures {t.node, t.right.node} !! Nodes(t.right.right)
    ensures Nodes(t.right.left) !! Nodes(t.left) + Nodes(t.right.right)
    ensures CtxNodes(ctx) !! Nodes(t.left) + Nodes(t.right.left) + Nodes(t.right.right)
    ensures !ctx.Top? ==> ctx.node in CtxNodes(ctx)
  {
  }

  // The two cells in the middle, and what stays as it was.
  lemma RotateLeftOwn(h: Store, ctx: Context, t: Tree)
    requires t.Bin? && t.right.Bin? && CanRotateLeft(h, t.node) && h[t.node].parent == Owner(ctx)
    requires h[t.node].right == t.right.node && h[t.right.node].left == Head(t.right.left)
    requires t.node != t.right.node && Head(t.right.left) != t.node && Head(t.right.left) != t.right.node
    requires Owner(ctx) != t.node && Owner(ctx) != t.right.node
    ensures var h', node, right := AfterRotateLeft(h, t.node), t.node, t.right.node;
      && h'.Keys == h.Keys
      && h'[node] == h[node].(right := Head(t.right.left), parent := right)
      && h'[right] == h[right].(left := node, parent := Owner(ctx))
      && forall n :: n in h && n !in {node, right} && n != Head(t.right.left) && n != Owner(ctx) ==> h'[n] == h[n]
  {
  }

  // The subtree that changes sides.
  lemma RotateLeftMiddle(h: Store, top: Node?, ctx: Context, t: Tree)
    requires t.Bin? && t.right.Bin? && Holds(h, top, ctx, t) && CanRotateLeft(h, t.node)
    ensures Linked(AfterRotateLeft(h, t.node), t.right.left, t.node)
  {
    hide Linked, CtxLinked, Nodes, CtxNodes, Distinct, CtxDistinct;
    var node, right, b := t.node, t.right.node, t.right.left;
    RotateLeftApart(ctx, t);
    LinkedParts(h, t, Owner(ctx));
    LinkedParts(h, t.right, node);
    HeadIn(b);
    var h1 := WithRight(h, node, h[right].left);
    LinkedFrame(h, h1, b, right);
    var h2 := Reparent(h1, Head(b), node);
    ReparentLinked(h1, b, right, node);
    LinkedFrame(h2, AfterRotateLeft(h, node), b, node);
  }

  // Everything around.
  lemma RotateLeftAround(h: Store, top: Node?, ctx: Context, t: Tree)
    requires t.Bin? && t.right.Bin? && Holds(h, top, ctx, t) && CanRotateLeft(h, t.node)
    ensures CtxLinked(AfterRotateLeft(h, t.node), if ctx.Top? then t.right.node else top, ctx, t.right.node)
  {
    hide Linked, CtxLinked, Nodes, CtxNodes, Distinct, CtxDistinct;
    var node, right, b, parent := t.node, t.right.node, t.right.left, Owner(ctx);
    RotateLeftApart(ctx, t);
    LinkedParts(h, t, parent);
    LinkedParts(h, t.right, node);
    HeadIn(b);
    var h2 := Reparent(WithRight(h, node, h[right].left), Head(b), node);
    var h3 := WithParent(WithLeft(h2, right, node), right, parent);
    CtxLinkedFrame(h, h3, top, ctx, node);
    var h4 := Redirect(h3, parent, node, right);
    RedirectLinked(h3, top, ctx, node, right);
    CtxLinkedFrame(h4, WithParent(h4, node, right), if ctx.Top? then right else top, ctx, right);
  }

  // What each node ends up with.
  lemma RotateLeftCells(h: Store, top: Node?, ctx: Context, t: Tree)
    requires t.Bin? && t.right.Bin? && Holds(h, top, ctx, t)
    requires CanRotateLeft(h, t.node)
    ensures var h' := AfterRotateLeft(h, t.node);
      && h'[t.node] == Cell(Head(t.left), Head(t.right.left), t.right.node, t.color)
      && h'[t.right.node] == Cell(t.node, Head(t.right.right), Owner(ctx), t.right.color)
      && Linked(h', t.left, t.node) && Linked(h', t.right.left, t.node) && Linked(h', t.right.right, t.right.node)
      && CtxLinked(h', if ctx.Top? then t.right.node else top, ctx, t.right.node)
  {
    hide Linked, CtxLinked, Nodes, CtxNodes, Distinct, CtxDistinct, AfterRotateLeft;
    RotateLeftApart(ctx, t);
    LinkedParts(h, t, Owner(ctx));
    LinkedParts(h, t.right, t.node);
    HeadIn(t.right.left);
    RotateLeftOwn(h, ctx, t);
    RotateLeftMiddle(h, top, ctx, t);
    RotateLeftAround(h, top, ctx, t);
    LinkedFrame(h, AfterRotateLeft(h, t.node), t.left, t.node);
    LinkedFrame(h, AfterRotateLeft(h, t.node), t.right.right, t.right.node);
  }

  lemma RotateLeftHolds(h: Store, top: Node?, ctx: Context, t: Tree)
    requires t.Bin? && t.right.Bin? && Holds(h, top, ctx, t)
    ensures CanRotateLeft(h, t.node) && h[t.node].right == t.right.node && h[t.node].parent == Owner(ctx)
    ensures Holds(AfterRotateLeft(h, t.node), if ctx.Top? then t.right.node else top, ctx, LeftRotated(t))
  {
    RotateLeftDefined(h, top, ctx, t);
    RotateLeftCells(h, top, ctx, t);
    LeftRotatedDistinct(t);
    assert Linked(AfterRotateLeft(h, t.node), LeftRotated(t).left, t.right.node);
  }

  method HalfRotateLeft(node: Node, right: Node, parent: Node?, ghost S: set<Node>)
    requires node in S && CanRotateLeft(Snap(S), node) && right == node.right && parent == node.parent
    modifies S
    ensures Snap(S) == HalfRotatedLeft(old(Snap(S)), node)
  {
    hide Reparent;
    assert right == Snap(S)[node].right && parent == Snap(S)[node].parent && right.left == Snap(S)[right].left;
    node.SetRight(right.left, S);
    assert right.left == Snap(S)[right].left;
    ReparentChild(right.left, node, S);
    right.SetLeft(node, S);
    right.SetParent(parent, S);
  }

  method RotateLeft(node: Node, root: Root, ghost S: set<Node>)
    requires node in S && CanRotateLeft(Snap(S), node)
    modifies root`node, S
    ensures Snap(S) == AfterRotateLeft(old(Snap(S)), node)
    ensures root.node == if old(node.parent) == null then old(node.right) else old(root.node)
  {
    hide HalfRotatedLeft, Redirect;
    var right := node.right;
    var parent := node.parent;
    assert right == Snap(S)[node].right && parent == Snap(S)[node].parent;
    HalfRotateLeft(node, right, parent, S);
    ReplaceChild(parent, node, right, root, S);
    node.SetParent(right, S);
  }

  function RightRotated(t: Tree): Tree
    requires t.Bin? && t.left.Bin?
  {
    Bin(t.left.left, t.left.node, t.left.color, Bin(t.left.right, t.node, t.color, t.right))
  }

  lemma RightRotatedDistinct(t: Tree)
    requires t.Bin? && t.left.Bin? && Distinct(t)
    ensures Distinct(RightRotated(t)) && Nodes(RightRotated(t)) == Nodes(t)
    ensures {t.node, t.left.node} !! Nodes(t.right) + Nodes(t.left.right) + Nodes(t.left.left)
    ensures Nodes(t.right) !! Nodes(t.left.right) && Nodes(t.right) !! Nodes(t.left.left)
    ensures Nodes(t.left.right) !! Nodes(t.left.left) && t.node != t.left.node
  {
    var a, b, e := t.right, t.left.right, t.left.left;
    assert Distinct(t.left) && Nodes(t.left) == {t.left.node} + Nodes(b) + Nodes(e);
    assert Nodes(RightRotated(t).right) == {t.node} + Nodes(a) + Nodes(b);
  }

  ghost predicate CanRotateRight(h: Store, node: Node) {
    && node in h && h[node].left != null && h[node].left in h && h[node].left != node
    && (h[h[node].left].right != null ==> h[h[node].left].right in h)
    && (h[node].parent != null ==> h[node].parent in h)
  }

  // The first half of a right rotation: the two nodes and the subtree between them.
  ghost function HalfRotatedRight(h: Store, node: Node): (h': Store)
    requires CanRotateRight(h, node)
    ensures h'.Keys == h.Keys
  {
    var left := h[node].left;
    var h1 := Reparent(WithLeft(h, node, h[left].right), h[left].right, node);
    WithParent(WithRight(h1, left, node), left, h[node].parent)
  }

  ghost function AfterRotateRight(h: Store, node: Node): (h': Store)
    requires CanRotateRight(h, node)
  {
    var left := h[node].left;
    var parent := h[node].parent;
    WithParent(Redirect(HalfRotatedRight(h, node), parent, node, left), node, left)
  }

  lemma RotateRightDefined(h: Store, top: Node?, ctx: Context, t: Tree)
    requires t.Bin? && t.left.Bin? && Holds(h, top, ctx, t)
    ensures CanRotateRight(h, t.node)
    ensures t.node != t.left.node && h[t.node].left == t.left.node && h[t.node].parent == Owner(ctx)
    ensures h[t.left.node] == Cell(Head(t.left.left), Head(t.left.right), t.node, t.left.color)
    ensures Linked(h, t.right, t.node) && Linked(h, t.left.right, t.left.node) && Linked(h, t.left.left, t.left.node)
  {
    HeadIn(t.left);
    HeadIn(t.left.right);
    assert Linked(h, t.left, t.node);
    assert Linked(h, t.left.right, t.left.node);
  }

  // What the nodes that a right rotation touches are apart from.
  lemma RotateRightApart(ctx: Context, t: Tree)
    requires t.Bin? && t.left.Bin? && Distinct(t) && Nodes(t) !! CtxNodes(ctx)
    ensures Distinct(t.left.right) && t.node != t.left.node && {t.node, t.left.node} !! CtxNodes(ctx)
    ensures {t.node, t.left.node} !! Nodes(t.right)
    ensures {t.node, t.left.node} !! Nodes(t.left.right)
    ensures {t.node, t.left.node} !! Nodes(t.left.left)
    ensures Nodes(t.left.right) !! Nodes(t.right) + Nodes(t.left.left)
    ensures CtxNodes(ctx) !! Nodes(t.right) + Nodes(t.left.right) + Nodes(t.left.left)
    ensures !ctx.Top? ==> ctx.node in CtxNodes(ctx)
  {
  }

  // The two cells in the middle, and what stays as it was.
  lemma RotateRightOwn(h: Store, ctx: Context, t: Tree)
    requires t.Bin? && t.left.Bin? && CanRotateRight(h, t.node) && h[t.node].parent == Owner(ctx)
    requires h[t.node].left == t.left.node && h[t.left.node].right == Head(t.left.right)
    requires t.node != t.left.node && Head(t.left.right) != t.node && Head(t.left.right) != t.left.node
    requires Owner(ctx) != t.node && Owner(ctx) != t.left.node
    ensures var h', node, left := AfterRotateRight(h, t.node), t.node, t.left.node;
      && h'.Keys == h.Keys
      && h'[node] == h[node].(left := Head(t.left.right), parent := left)
      && h'[left] == h[left].(right := node, parent := Owner(ctx))
      && forall n :: n in h && n !in {node, left} && n != Head(t.left.right) && n != Owner(ctx) ==> h'[n] == h[n]
  {
  }

  // The subtree that changes sides.
  lemma RotateRightMiddle(h: Store, top: Node?, ctx: Context, t: Tree)
    requires t.Bin? && t.left.Bin? && Holds(h, top, ctx, t) && CanRotateRight(h, t.node)
    ensures Linked(AfterRotateRight(h, t.node), t.left.right, t.node)
  {
    hide Linked, CtxLinked, Nodes, CtxNodes, Distinct, CtxDistinct;
    var node, left, b := t.node, t.left.node, t.left.right;
    RotateRightApart(ctx, t);
    LinkedParts(h, t, Owner(ctx));
    LinkedParts(h, t.left, node);
    HeadIn(b);
    var h1 := WithLeft(h, node, h[left].right);
    LinkedFrame(h, h1, b, left);
    var h2 := Reparent(h1, Head(b), node);
    ReparentLinked(h1, b, left, node);
    LinkedFrame(h2, AfterRotateRight(h, node), b, node);
  }

  // Everything around.
  lemma RotateRightAround(h: Store, top: Node?, ctx: Context, t: Tree)
    requires t.Bin? && t.left.Bin? && Holds(h, top, ctx, t) && CanRotateRight(h, t.node)
    ensures CtxLinked(AfterRotateRight(h, t.node), if ctx.Top? then t.left.node else top, ctx, t.left.node)
  {
    hide Linked, CtxLinked, Nodes, CtxNodes, Distinct, CtxDistinct;
    var node, left, b, parent := t.node, t.left.node, t.left.right, Owner(ctx);
    RotateRightApart(ctx, t);
    LinkedParts(h, t, parent);
    LinkedParts(h, t.left, node);
    HeadIn(b);
    var h2 := Reparent(WithLeft(h, node, h[left].right), Head(b), node);
    var h3 := WithParent(WithRight(h2, left, node), left, parent);
    CtxLinkedFrame(h, h3, top, ctx, node);
    var h4 := Redirect(h3, parent, node, left);
    RedirectLinked(h3, top, ctx, node, left);
    CtxLinkedFrame(h4, WithParent(h4, node, left), if ctx.Top? then left else top, ctx, left);
  }

  // What each node ends up with.
  lemma RotateRightCells(h: Store, top: Node?, ctx: Context, t: Tree)
    requires t.Bin? && t.left.Bin? && Holds(h, top, ctx, t)
    requires CanRotateRight(h, t.node)
    ensures var h' := AfterRotateRight(h, t.node);
      && h'[t.node] == Cell(Head(t.left.right), Head(t.right), t.left.node, t.color)
      && h'[t.left.node] == Cell(Head(t.left.left), t.node, Owner(ctx), t.left.color)
      && Linked(h', t.right, t.node) && Linked(h', t.left.right, t.node) && Linked(h', t.left.left, t.left.node)
      && CtxLinked(h', if ctx.Top? then t.left.node else top, ctx, t.left.node)
  {
    hide Linked, CtxLinked, Nodes, CtxNodes, Distinct, CtxDistinct, AfterRotateRight;
    RotateRightApart(ctx, t);
    LinkedParts(h, t, Owner(ctx));
    LinkedParts(h, t.left, t.node);
    HeadIn(t.left.right);
    RotateRightOwn(h, ctx, t);
    RotateRightMiddle(h, top, ctx, t);
    RotateRightAround(h, top, ctx, t);
    LinkedFrame(h, AfterRotateRight(h, t.node), t.right, t.node);
    LinkedFrame(h, AfterRotateRight(h, t.node), t.left.left, t.left.node);
  }

  lemma RotateRightHolds(h: Store, top: Node?, ctx: Context, t: Tree)
    requires t.Bin? && t.left.Bin? && Holds(h, top, ctx, t)
    ensures CanRotateRight(h, t.node) && h[t.node].left == t.left.node && h[t.node].parent == Owner(ctx)
    ensures Holds(AfterRotateRight(h, t.node), if ctx.Top? then t.left.node else top, ctx, RightRotated(t))
  {
    RotateRightDefined(h, top, ctx, t);
    RotateRightCells(h, top, ctx, t);
    RightRotatedDistinct(t);
    assert Linked(AfterRotateRight(h, t.node), RightRotated(t).right, t.left.node);
  }

  method HalfRotateRight(node: Node, left: Node, parent: Node?, ghost S: set<Node>)
    requires node in S && CanRotateRight(Snap(S), node) && left == node.left && parent == node.parent
    modifies S
    ensures Snap(S) == HalfRotatedRight(old(Snap(S)), node)
  {
    hide Reparent;
    assert left == Snap(S)[node].left && parent == Snap(S)[node].parent && left.right == Snap(S)[left].right;
    node.SetLeft(left.right, S);
    assert left.right == Snap(S)[left].right;
    ReparentChild(left.right, node, S);
    left.SetRight(node, S);
    left.SetParent(parent, S);
  }

  method RotateRight(node: Node, root: Root, ghost S: set<Node>)
    requires node in S && CanRotateRight(Snap(S), node)
    modifies root`node, S
    ensures Snap(S) == AfterRotateRight(old(Snap(S)), node)
    ensures root.node == if old(node.parent) == null then old(node.left) else old(root.node)
  {
    hide HalfRotatedRight, Redirect;
    var left := node.left;
    var parent := node.parent;
    assert left == Snap(S)[node].left && parent == Snap(S)[node].parent;
    HalfRotateRight(node, left, parent, S);
    ReplaceChild(parent, node, left, root, S);
    node.SetParent(left, S);
  }

  // The single-node and single-edge operations of the rebalancing loops, in terms
  // of the tree at the hole of ctx.
  method Recolor(n: Node, color: Color, root: Root, ghost S: set<Node>, ghost ctx: Context, ghost t: Tree)
    requires t.Bin? && t.node == n && Holds(Snap(S), root.node, ctx, t)
    modifies n`color
    ensures Holds(Snap(S), root.node, ctx, t.(color := color))
  {
    RecolorHolds(Snap(S), root.node, ctx, t, color);
    n.SetColor(color, S);
  }

  method TurnLeft(node: Node, root: Root, ghost S: set<Node>, ghost ctx: Context, ghost t: Tree)
    requires t.Bin? && t.right.Bin? && t.node == node && Holds(Snap(S), root.node, ctx, t)
    modifies root`node, S
    ensures Holds(Snap(S), root.node, ctx, LeftRotated(t))
  {
    RotateLeftHolds(Snap(S), root.node, ctx, t);
    RotateLeft(node, root, S);
  }

  method TurnRight(node: Node, root: Root, ghost S: set<Node>, ghost ctx: Context, ghost t: Tree)
    requires t.Bin? && t.left.Bin? && t.node == node && Holds(Snap(S), root.node, ctx, t)
    modifies root`node, S
    ensures Holds(Snap(S), root.node, ctx, RightRotated(t))
  {
    RotateRightHolds(Snap(S), root.node, ctx, t);
    RotateRight(node, root, S);
  }

  // The same on one child of the tree at the hole.
  function WithChild(t: Tree, onLeft: bool, child: Tree): Tree
    requires t.Bin?
  {
    if onLeft then t.(left := child) else t.(right := child)
  }

  function Child(t: Tree, onLeft: bool): Tree
    requires t.Bin?
  {
    if onLeft then t.left else t.right
  }

  function ChildContext(ctx: Context, t: Tree, onLeft: bool): Context
    requires t.Bin?
  {
    if onLeft then LeftOf(ctx, t.node, t.color, t.right) else RightOf(ctx, t.left, t.node, t.color)
  }

  lemma FocusChild(h: Store, top: Node?, ctx: Context, t: Tree, onLeft: bool)
    requires t.Bin? && Holds(h, top, ctx, t)
    ensures Holds(h, top, ChildContext(ctx, t, onLeft), Child(t, onLeft))
  {
    if onLeft {
      FocusLeft(h, top, ctx, t);
    } else {
      FocusRight(h, top, ctx, t);
    }
  }

  method RecolorChild(n: Node, color: Color, root: Root, ghost S: set<Node>,
                      ghost ctx: Context, ghost t: Tree, ghost onLeft: bool)
    requires t.Bin? && Child(t, onLeft).Bin? && Child(t, onLeft).node == n && Holds(Snap(S), root.node, ctx, t)
    modifies n`color
    ensures Holds(Snap(S), root.node, ctx, WithChild(t, onLeft, Child(t, onLeft).(color := color)))
  {
    FocusChild(Snap(S), root.node, ctx, t, onLeft);
    ghost var ctx', t' := ChildContext(ctx, t, onLeft), Child(t, onLeft);
    Recolor(n, color, root, S, ctx', t');
    FocusUp(Snap(S), root.node, ctx', t'.(color := color));
  }

  method TurnChildLeft(node: Node, root: Root, ghost S: set<Node>, ghost ctx: Context, ghost t: Tree,
                       ghost onLeft: bool)
    requires t.Bin? && Child(t, onLeft).Bin? && Child(t, onLeft).right.Bin? && Child(t, onLeft).node == node
    requires Holds(Snap(S), root.node, ctx, t)
    modifies root`node, S
    ensures Holds(Snap(S), root.node, ctx, WithChild(t, onLeft, LeftRotated(Child(t, onLeft))))
  {
    FocusChild(Snap(S), root.node, ctx, t, onLeft);
    ghost var ctx', t' := ChildContext(ctx, t, onLeft), Child(t, onLeft);
    TurnLeft(node, root, S, ctx', t');
    FocusUp(Snap(S), root.node, ctx', LeftRotated(t'));
  }

  method TurnChildRight(node: Node, root: Root, ghost S: set<Node>, ghost ctx: Context, ghost t: Tree,
                        ghost onLeft: bool)
    requires t.Bin? && Child(t, onLeft).Bin? && Child(t, onLeft).left.Bin? && Child(t, onLeft).node == node
    requires Holds(Snap(S), root.node, ctx, t)
    modifies root`node, S
    ensures Holds(Snap(S), root.node, ctx, WithChild(t, onLeft, RightRotated(Child(t, onLeft))))
  {
    FocusChild(Snap(S), root.node, ctx, t, onLeft);
    ghost var ctx', t' := ChildContext(ctx, t, onLeft), Child(t, onLeft);
    TurnRight(node, root, S, ctx', t');
    FocusUp(Snap(S), root.node, ctx', RightRotated(t'));
  }
}
