// The data structure of rbtree.h: linked nodes, a root cell, and the two views
// used to talk about the shape they form.  A Tree is the shape below a node; a
// Context is everything around a hole in a tree, read upwards from the hole.
module RbNodes {

  datatype Color = Red | Black

  // struct rb_node.  The source packs the parent pointer and the colour bit into
  // one word (rb_parent_color); here they are two fields.  `key` is the search key
  // of the record that embeds the node (rb_entry); the library never reads it.
  class Node {
    var left: Node?
    var right: Node?
    var parent: Node?
    var color: Color
    const key: int

    constructor (key: int)
      ensures this.key == key
    {
      this.key := key;
      left, right, parent, color := null, null, null, Red;
    }

    // Single field updates, seen from a snapshot of any set of nodes around this
    // one.  SetParent and SetColor are rb_set_parent and rb_set_color; the source
    // assigns the two child fields directly.
    method SetLeft(n: Node?, ghost S: set<Node>)
      requires this in S
      modifies `left
      ensures Snap(S) == WithLeft(old(Snap(S)), this, n)
    {
      left := n;
    }

    method SetRight(n: Node?, ghost S: set<Node>)
      requires this in S
      modifies `right
      ensures Snap(S) == WithRight(old(Snap(S)), this, n)
    {
      right := n;
    }

    method SetParent(n: Node?, ghost S: set<Node>)
      requires this in S
      modifies `parent
      ensures Snap(S) == WithParent(old(Snap(S)), this, n)
    {
      parent := n;
    }

    method SetColor(c: Color, ghost S: set<Node>)
      requires this in S
      modifies `color
      ensures Snap(S) == WithColor(old(Snap(S)), this, c)
    {
      color := c;
    }
  }

  // struct rb_root, with a ghost copy of the shape that hangs from it.
  class Root {
    var node: Node?
    ghost var tree: Tree
    ghost var nodes: set<Node>

    constructor ()
      ensures node == null && tree == Leaf && nodes == {} && Valid()
    {
      node, tree, nodes := null, Leaf, {};
    }

    // The heap below the root is exactly `tree`.
    ghost predicate Valid()
      reads this, nodes
    {
      nodes == Nodes(tree) && Holds(Snap(nodes), node, Top, tree)
    }
  }

  datatype Tree = Leaf | Bin(left: Tree, node: Node, color: Color, right: Tree)

  datatype Context =
    | Top
    | LeftOf(up: Context, node: Node, color: Color, right: Tree)   // the hole is node's left child
    | RightOf(up: Context, left: Tree, node: Node, color: Color)   // the hole is node's right child

  function Head(t: Tree): Node? {
    if t.Leaf? then null else t.node
  }

  // The node whose child the hole is.
  function Owner(ctx: Context): Node? {
    if ctx.Top? then null else ctx.node
  }

  function Parented(ctx: Context, t: Tree): Tree
    requires !ctx.Top?
  {
    match ctx
    case LeftOf(_, n, c, r) => Bin(t, n, c, r)
    case RightOf(_, l, n, c) => Bin(l, n, c, t)
  }

  function Fill(ctx: Context, t: Tree): Tree {
    match ctx
    case Top => t
    case LeftOf(up, n, c, r) => Fill(up, Bin(t, n, c, r))
    case RightOf(up, l, n, c) => Fill(up, Bin(l, n, c, t))
  }

  function Depth(ctx: Context): nat {
    if ctx.Top? then 0 else 1 + Depth(ctx.up)
  }

  lemma FillBin(ctx: Context, t: Tree)
    ensures t.Bin? || !ctx.Top? ==> Fill(ctx, t).Bin?
  {
  }

  // The frames of `inner`, then those of `outer`.
  function Within(inner: Context, outer: Context): Context {
    match inner
    case Top => outer
    case LeftOf(up, n, c, r) => LeftOf(Within(up, outer), n, c, r)
    case RightOf(up, l, n, c) => RightOf(Within(up, outer), l, n, c)
  }

  function Inorder(t: Tree): seq<Node> {
    if t.Leaf? then [] else Inorder(t.left) + [t.node] + Inorder(t.right)
  }

  // What comes before and after the hole, in order.
  function Before(ctx: Context): seq<Node> {
    match ctx
    case Top => []
    case LeftOf(up, _, _, _) => Before(up)
    case RightOf(up, l, n, _) => Before(up) + Inorder(l) + [n]
  }

  function After(ctx: Context): seq<Node> {
    match ctx
    case Top => []
    case LeftOf(up, n, _, r) => [n] + Inorder(r) + After(up)
    case RightOf(up, _, _, _) => After(up)
  }

  ghost function Nodes(t: Tree): set<Node> {
    if t.Leaf? then {} else {t.node} + Nodes(t.left) + Nodes(t.right)
  }

  ghost function CtxNodes(ctx: Context): set<Node> {
    match ctx
    case Top => {}
    case LeftOf(up, n, _, r) => {n} + Nodes(r) + CtxNodes(up)
    case RightOf(up, l, n, _) => {n} + Nodes(l) + CtxNodes(up)
  }

  ghost predicate Distinct(t: Tree) {
    t.Bin? ==>
      && t.node !in Nodes(t.left) && t.node !in Nodes(t.right)
      && Nodes(t.left) !! Nodes(t.right)
      && Distinct(t.left) && Distinct(t.right)
  }

  ghost predicate CtxDistinct(ctx: Context) {
    match ctx
    case Top => true
    case LeftOf(up, n, _, r) =>
      n !in Nodes(r) && n !in CtxNodes(up) && Nodes(r) !! CtxNodes(up) && Distinct(r) && CtxDistinct(up)
    case RightOf(up, l, n, _) =>
      n !in Nodes(l) && n !in CtxNodes(up) && Nodes(l) !! CtxNodes(up) && Distinct(l) && CtxDistinct(up)
  }

  // The four fields of a node, as a value, and a snapshot of the nodes in S.
  datatype Cell = Cell(left: Node?, right: Node?, parent: Node?, color: Color)

  type Store = map<Node, Cell>

  ghost function Snap(S: set<Node>): (h: Store)
    reads S
    ensures h.Keys == S
  {
    map n: Node | n in S :: Cell(n.left, n.right, n.parent, n.color)
  }

  ghost function WithLeft(h: Store, n: Node, left: Node?): (h': Store)
    requires n in h
    ensures h'.Keys == h.Keys
  {
    h[n := h[n].(left := left)]
  }

  ghost function WithRight(h: Store, n: Node, right: Node?): (h': Store)
    requires n in h
    ensures h'.Keys == h.Keys
  {
    h[n := h[n].(right := right)]
  }

  ghost function WithParent(h: Store, n: Node, parent: Node?): (h': Store)
    requires n in h
    ensures h'.Keys == h.Keys
  {
    h[n := h[n].(parent := parent)]
  }

  ghost function WithColor(h: Store, n: Node, color: Color): (h': Store)
    requires n in h
    ensures h'.Keys == h.Keys
  {
    h[n := h[n].(color := color)]
  }

  // The cells of the nodes in t say what t says, and t hangs below `parent`.
  ghost predicate Linked(h: Store, t: Tree, parent: Node?) {
    t.Bin? ==>
      && t.node in h && h[t.node] == Cell(Head(t.left), Head(t.right), parent, t.color)
      && Linked(h, t.left, t.node) && Linked(h, t.right, t.node)
  }

  // The cells of the nodes around the hole say what ctx says, `hole` is what the
  // pointer at the hole points to, and `top` is what the root points to.
  ghost predicate CtxLinked(h: Store, top: Node?, ctx: Context, hole: Node?) {
    match ctx
    case Top => top == hole
    case LeftOf(up, n, c, r) =>
      && n in h && h[n] == Cell(hole, Head(r), Owner(up), c)
      && Linked(h, r, n) && CtxLinked(h, top, up, n)
    case RightOf(up, l, n, c) =>
      && n in h && h[n] == Cell(Head(l), hole, Owner(up), c)
      && Linked(h, l, n) && CtxLinked(h, top, up, n)
  }

  // The heap below the root is Fill(ctx, t), seen from the hole of ctx.
  ghost predicate Holds(h: Store, top: Node?, ctx: Context, t: Tree) {
    && Distinct(t) && CtxDistinct(ctx) && Nodes(t) !! CtxNodes(ctx)
    && Linked(h, t, Owner(ctx)) && CtxLinked(h, top, ctx, Head(t))
  }

  lemma LinkedParts(h: Store, t: Tree, parent: Node?)
    requires Linked(h, t, parent) && t.Bin?
    ensures t.node in h && h[t.node] == Cell(Head(t.left), Head(t.right), parent, t.color)
    ensures Linked(h, t.left, t.node) && Linked(h, t.right, t.node)
  {
  }

  lemma LinkedFrame(h: Store, h': Store, t: Tree, parent: Node?)
    requires Linked(h, t, parent)
    requires forall n :: n in Nodes(t) && n in h ==> n in h' && h'[n] == h[n]
    ensures Linked(h', t, parent)
  {
  }

  lemma CtxLinkedFrame(h: Store, h': Store, top: Node?, ctx: Context, hole: Node?)
    requires CtxLinked(h, top, ctx, hole)
    requires forall n :: n in CtxNodes(ctx) && n in h ==> n in h' && h'[n] == h[n]
    ensures CtxLinked(h', top, ctx, hole)
  {
    match ctx
    case Top =>
    case LeftOf(up, n, c, r) => LinkedFrame(h, h', r, n); CtxLinkedFrame(h, h', top, up, n);
    case RightOf(up, l, n, c) => LinkedFrame(h, h', l, n); CtxLinkedFrame(h, h', top, up, n);
  }

  // Two updates every relinking step is made of: give the child a new parent, and
  // make whatever points at `node` (a child field of `parent`, or the root cell)
  // point at `other`.
  ghost function Reparent(h: Store, child: Node?, parent: Node?): (h': Store)
    requires child != null ==> child in h
    ensures h'.Keys == h.Keys
  {
    if child == null then h else WithParent(h, child, parent)
  }

  ghost function Redirect(h: Store, parent: Node?, node: Node, other: Node?): Store
    requires parent != null ==> parent in h
  {
    if parent == null then h
    else if h[parent].left == node then WithLeft(h, parent, other)
    else WithRight(h, parent, other)
  }

  // `if (child) rb_set_parent(child, parent)`.
  method ReparentChild(child: Node?, parent: Node?, ghost S: set<Node>)
    requires child != null ==> child in S
    modifies (if child == null then {} else {child})`parent
    ensures Snap(S) == Reparent(old(Snap(S)), child, parent)
  {
    if child != null {
      child.SetParent(parent, S);
    }
  }

  method ReplaceChild(parent: Node?, node: Node, other: Node?, root: Root, ghost S: set<Node>)
    requires parent != null ==> parent in S
    modifies root`node, (if parent == null then {} else {parent})`left, (if parent == null then {} else {parent})`right
    ensures Snap(S) == Redirect(old(Snap(S)), parent, node, other)
    ensures root.node == if parent == null then other else old(root.node)
  {
    if parent != null {
      if parent.left == node {
        parent.SetLeft(other, S);
      } else {
        parent.SetRight(other, S);
      }
    } else {
      root.node := other;
    }
  }

  lemma HeadIn(t: Tree)
    ensures t.Bin? ==> Head(t) in Nodes(t)
  {
  }

  lemma ReparentLinked(h: Store, t: Tree, was: Node?, parent: Node?)
    requires Linked(h, t, was) && Distinct(t)
    ensures Linked(Reparent(h, Head(t), parent), t, parent)
  {
    if t.Bin? {
      var h' := Reparent(h, Head(t), parent);
      LinkedFrame(h, h', t.left, t.node);
      LinkedFrame(h, h', t.right, t.node);
    }
  }

  lemma RedirectLinked(h: Store, top: Node?, ctx: Context, node: Node, other: Node?)
    requires CtxLinked(h, top, ctx, node) && CtxDistinct(ctx) && node !in CtxNodes(ctx)
    ensures CtxLinked(Redirect(h, Owner(ctx), node, other), if ctx.Top? then other else top, ctx, other)
  {
    var h' := Redirect(h, Owner(ctx), node, other);
    match ctx
    case Top =>
    case LeftOf(up, n, c, r) =>
      LinkedFrame(h, h', r, n);
      CtxLinkedFrame(h, h', top, up, n);
    case RightOf(up, l, n, c) =>
      HeadIn(l);
      LinkedFrame(h, h', l, n);
      CtxLinkedFrame(h, h', top, up, n);
  }

  lemma LinkedIn(h: Store, t: Tree, parent: Node?)
    requires Linked(h, t, parent)
    ensures Nodes(t) <= h.Keys
  {
  }

  lemma HoldsIn(h: Store, top: Node?, ctx: Context, t: Tree)
    requires Holds(h, top, ctx, t)
    ensures Nodes(t) <= h.Keys
  {
    LinkedIn(h, t, Owner(ctx));
  }

  // Moving the focus of Holds by one edge.
  lemma FocusUp(h: Store, top: Node?, ctx: Context, t: Tree)
    requires !ctx.Top? && Holds(h, top, ctx, t)
    ensures Holds(h, top, ctx.up, Parented(ctx, t))
  {
    HeadIn(t);
  }

  lemma FocusLeft(h: Store, top: Node?, ctx: Context, t: Tree)
    requires t.Bin? && Holds(h, top, ctx, t)
    ensures Holds(h, top, LeftOf(ctx, t.node, t.color, t.right), t.left)
  {
  }

  lemma FocusRight(h: Store, top: Node?, ctx: Context, t: Tree)
    requires t.Bin? && Holds(h, top, ctx, t)
    ensures Holds(h, top, RightOf(ctx, t.left, t.node, t.color), t.right)
  {
  }

  lemma {:induction false} FocusRoot(h: Store, top: Node?, ctx: Context, t: Tree)
    requires Holds(h, top, ctx, t)
    ensures Holds(h, top, Top, Fill(ctx, t))
    decreases ctx
  {
    if !ctx.Top? {
      FocusUp(h, top, ctx, t);
      FocusRoot(h, top, ctx.up, Parented(ctx, t));
    }
  }

  lemma {:induction false} FocusHole(h: Store, top: Node?, ctx: Context, t: Tree)
    requires Holds(h, top, Top, Fill(ctx, t))
    ensures Holds(h, top, ctx, t)
    decreases ctx
  {
    if !ctx.Top? {
      FocusHole(h, top, ctx.up, Parented(ctx, t));
      if ctx.LeftOf? {
        FocusLeft(h, top, ctx.up, Parented(ctx, t));
      } else {
        FocusRight(h, top, ctx.up, Parented(ctx, t));
      }
    }
  }
}
