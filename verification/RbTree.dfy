// The tree as its users see it: a root cell whose nodes, read in order, form a
// sequence.  Every operation is stated on that sequence.
module RbTree {
  import opened RbNodes
  import opened RbBalance
  import opened RbHeight
  import RbSplice
  import RbInsert
  import RbErase
  import RbWalk
  import RbReplace

  // A tree kept by the documented protocol: linked, and red-black.
  ghost predicate Tidy(root: Root)
    reads root, root.nodes
  {
    root.Valid() && RedBlack(root.tree)
  }

  ghost function Members(s: seq<Node>): set<Node> {
    set n | n in s
  }

  lemma {:induction false} NodesAreInorder(t: Tree)
    ensures Nodes(t) == Members(Inorder(t))
  {
    if t.Bin? {
      NodesAreInorder(t.left);
      NodesAreInorder(t.right);
    }
  }

  ghost predicate NoRepeats(s: seq<Node>) {
    forall i, j :: 0 <= i < j < |s| ==> s[i] != s[j]
  }

  lemma NoRepeatsConcat(a: seq<Node>, n: Node, b: seq<Node>)
    requires NoRepeats(a) && NoRepeats(b) && n !in Members(a) + Members(b) && Members(a) !! Members(b)
    ensures NoRepeats(a + [n] + b)
  {
    var s := a + [n] + b;
    forall i, j | 0 <= i < j < |s|
      ensures s[i] != s[j]
    {
      if i < |a| {
        assert s[i] == a[i] && s[i] in Members(a);
      }
      if j > |a| {
        assert s[j] == b[j - |a| - 1] && s[j] in Members(b);
      }
    }
  }

  lemma RemovedMembers(s: seq<Node>, i: nat)
    requires NoRepeats(s) && i < |s|
    ensures Members(s[..i] + s[i + 1..]) == Members(s) - {s[i]}
  {
    var s' := s[..i] + s[i + 1..];
    forall n
      ensures n in s' <==> n in s && n != s[i]
    {
      if n in s && n != s[i] {
        var k :| 0 <= k < |s| && s[k] == n;
        assert n == s'[if k < i then k else k - 1];
      }
      if n in s' {
        var k :| 0 <= k < |s'| && s'[k] == n;
        assert n == s[if k < i then k else k + 1];
      }
    }
  }

  lemma {:induction false} InorderDistinct(t: Tree)
    requires Distinct(t)
    ensures NoRepeats(Inorder(t))
  {
    if t.Bin? {
      InorderDistinct(t.left);
      InorderDistinct(t.right);
      NodesAreInorder(t.left);
      NodesAreInorder(t.right);
      NoRepeatsConcat(Inorder(t.left), t.node, Inorder(t.right));
    }
  }

  // Every position in the order is some place in the tree.
  lemma {:induction false} Locate(t: Tree, i: nat, outer: Context) returns (ctx: Context, sub: Tree)
    requires i < |Inorder(t)|
    ensures sub.Bin? && sub.node == Inorder(t)[i] && Fill(ctx, sub) == Fill(outer, t)
    ensures |Before(ctx)| + |Inorder(sub.left)| == |Before(outer)| + i
    decreases t
  {
    var k := |Inorder(t.left)|;
    if i < k {
      ctx, sub := Locate(t.left, i, LeftOf(outer, t.node, t.color, t.right));
    } else if i == k {
      ctx, sub := outer, t;
    } else {
      ctx, sub := Locate(t.right, i - k - 1, RightOf(outer, t.left, t.node, t.color));
    }
  }

  lemma SplitAt(s: seq<Node>, a: seq<Node>, n: Node, b: seq<Node>)
    requires s == a + [n] + b
    ensures s[|a|] == n && s[..|a|] == a && s[|a| + 1..] == b
  {
  }

  // The same, split at position i of the whole order.
  lemma Focus(root: Root, i: nat) returns (ctx: Context, t: Tree)
    requires root.Valid() && i < |Inorder(root.tree)|
    ensures t.Bin? && t.node == Inorder(root.tree)[i] && Fill(ctx, t) == root.tree
    ensures Holds(Snap(root.nodes), root.node, ctx, t)
    ensures Before(ctx) + Inorder(t.left) == Inorder(root.tree)[..i]
    ensures Inorder(t.right) + After(ctx) == Inorder(root.tree)[i + 1..]
  {
    hide Linked, CtxLinked, Distinct, CtxDistinct, Holds;
    ctx, t := Locate(root.tree, i, Top);
    FocusHole(Snap(root.nodes), root.node, ctx, t);
    InorderFill(ctx, t);
    Regroup5(Before(ctx), Inorder(t.left), t.node, Inorder(t.right), After(ctx));
    SplitAt(Inorder(root.tree), Before(ctx) + Inorder(t.left), t.node, Inorder(t.right) + After(ctx));
  }

  // Narrowing the snapshot to the nodes of a smaller tree.
  lemma Narrow(h: Store, h': Store, top: Node?, t: Tree)
    requires Holds(h, top, Top, t) && forall n :: n in Nodes(t) && n in h ==> n in h' && h'[n] == h[n]
    ensures Holds(h', top, Top, t)
  {
    LinkedFrame(h, h', t, null);
  }

  method ClearCell(node: Node, parent: Node?, ghost S: set<Node>)
    requires node in S
    modifies node
    ensures Snap(S) == RbSplice.Copied(old(Snap(S)), Cell(null, null, parent, Red), node)
  {
    hide Snap;
    node.SetParent(parent, S);
    node.SetColor(Red, S);
    node.SetRight(null, S);
    node.SetLeft(null, S);
  }

  // rb_link_node: `parent` and `onLeft` name the link the source passes by address.
  method LinkCells(node: Node, parent: Node?, onLeft: bool, root: Root, ghost S: set<Node>, ghost ctx: Context)
    requires node in S && parent == Owner(ctx) && (parent != null ==> parent in S && onLeft == ctx.LeftOf?)
    modifies root`node, node, (if parent == null then {} else {parent})
    ensures Snap(S) == AfterLink(old(Snap(S)), ctx, node)
    ensures root.node == if parent == null then node else old(root.node)
  {
    hide RbSplice.Copied, Snap;
    ClearCell(node, parent, S);
    if parent == null {
      root.node := node;
    } else if onLeft {
      parent.SetLeft(node, S);
    } else {
      parent.SetRight(node, S);
    }
  }

  method LinkNode(node: Node, parent: Node?, onLeft: bool, root: Root, ghost ctx: Context)
    requires root.Valid() && root.tree == Fill(ctx, Leaf) && node !in root.nodes
    requires parent == Owner(ctx) && (parent != null ==> onLeft == ctx.LeftOf?)
    modifies root, node, root.nodes
    ensures root.Valid() && root.tree == Fill(ctx, Bin(Leaf, node, Red, Leaf)) && root.nodes == old(root.nodes) + {node}
  {
    hide Linked, CtxLinked, Distinct, CtxDistinct;
    ghost var S, leaf := root.nodes + {node}, Bin(Leaf, node, Red, Leaf);
    FocusHole(Snap(root.nodes), root.node, ctx, Leaf);
    RbSplice.NodesFill(ctx, Leaf);
    RbSplice.NodesFill(ctx, leaf);
    CtxLinkedFrame(Snap(root.nodes), Snap(S), root.node, ctx, null);
    LinkHolds(Snap(S), root.node, ctx, node);
    assert parent != null ==> parent in CtxNodes(ctx);
    LinkCells(node, parent, onLeft, root, S, ctx);
    FocusRoot(Snap(S), root.node, ctx, leaf);
    Adopt(root, Fill(ctx, leaf), S);
  }

  // Record the shape the heap now has.
  ghost method Adopt(root: Root, t: Tree, S: set<Node>)
    requires Nodes(t) == S && Holds(Snap(S), root.node, Top, t)
    modifies root`tree, root`nodes
    ensures root.tree == t && root.nodes == S && root.Valid()
  {
    ghost var h := Snap(S);
    root.tree, root.nodes := t, S;
    assert Snap(S) == h;
  }

  ghost function AfterLink(h: Store, ctx: Context, node: Node): Store
    requires node in h && (!ctx.Top? ==> ctx.node in h)
  {
    var h1 := RbSplice.Copied(h, Cell(null, null, Owner(ctx), Red), node);
    match ctx
    case Top => h1
    case LeftOf(_, n, _, _) => WithLeft(h1, n, node)
    case RightOf(_, _, n, _) => WithRight(h1, n, node)
  }

  lemma LinkHolds(h: Store, top: Node?, ctx: Context, node: Node)
    requires CtxDistinct(ctx) && CtxLinked(h, top, ctx, null) && node !in CtxNodes(ctx) && node in h
    ensures !ctx.Top? ==> ctx.node in h
    ensures Holds(AfterLink(h, ctx, node), if ctx.Top? then node else top, ctx, Bin(Leaf, node, Red, Leaf))
  {
    var h' := AfterLink(h, ctx, node);
    match ctx
    case Top =>
    case LeftOf(up, n, c, r) =>
      LinkedFrame(h, h', r, n);
      CtxLinkedFrame(h, h', top, up, n);
    case RightOf(up, l, n, c) =>
      LinkedFrame(h, h', l, n);
      CtxLinkedFrame(h, h', top, up, n);
  }

  // rb_insert_color on a freshly linked leaf.
  method InsertColor(node: Node, root: Root, ghost ctx: Context)
    requires root.Valid() && root.tree == Fill(ctx, Bin(Leaf, node, Red, Leaf)) && RedBlack(Fill(ctx, Leaf))
    modifies root, root.nodes
    ensures Tidy(root) && Inorder(root.tree) == old(Inorder(root.tree)) && root.nodes == old(root.nodes)
  {
    ghost var S := root.nodes;
    FocusHole(Snap(S), root.node, ctx, Bin(Leaf, node, Red, Leaf));
    NodesAreInorder(root.tree);
    ghost var result := RbInsert.InsertColor(node, root, S, ctx);
    NodesAreInorder(result);
    Adopt(root, result, S);
  }

  // rb_erase of the node at position i.
  method Erase(z: Node, root: Root, ghost i: nat)
    requires Tidy(root) && i < |Inorder(root.tree)| && Inorder(root.tree)[i] == z
    modifies root, root.nodes
    ensures Tidy(root) && Inorder(root.tree) == old(Inorder(root.tree))[..i] + old(Inorder(root.tree))[i + 1..]
    ensures root.nodes == old(root.nodes) - {z}
  {
    ghost var S := root.nodes;
    ghost var before := root.tree;
    ghost var ctx, t := Focus(root, i);
    ghost var result := RbErase.Erase(z, root, S, ctx, t);
    Regroup(Before(ctx), Inorder(t.left), Inorder(t.right), After(ctx));
    RemovedNodes(before, result, i);
    Narrow(Snap(S), Snap(S - {z}), root.node, result);
    Adopt(root, result, S - {z});
  }

  lemma Regroup(a: seq<Node>, b: seq<Node>, c: seq<Node>, d: seq<Node>)
    ensures a + (b + c) + d == (a + b) + (c + d)
  {
  }

  lemma RemovedNodes(t: Tree, t': Tree, i: nat)
    requires Distinct(t) && i < |Inorder(t)| && Inorder(t') == Inorder(t)[..i] + Inorder(t)[i + 1..]
    ensures Nodes(t') == Nodes(t) - {Inorder(t)[i]}
  {
    NodesAreInorder(t);
    NodesAreInorder(t');
    InorderDistinct(t);
    RemovedMembers(Inorder(t), i);
  }

  method ReplaceNode(victim: Node, other: Node, root: Root, ghost i: nat)
    requires root.Valid() && i < |Inorder(root.tree)| && Inorder(root.tree)[i] == victim && other !in root.nodes
    modifies root, other, root.nodes
    ensures root.Valid() && Inorder(root.tree) == old(Inorder(root.tree))[i := other]
    ensures SameShape(old(root.tree), root.tree) && root.nodes == old(root.nodes) - {victim} + {other}
  {
    hide Linked, CtxLinked, Distinct, CtxDistinct, SameShape, Inorder;
    ghost var S := root.nodes + {other};
    ghost var ctx, t := Focus(root, i);
    RbSplice.NodesFill(ctx, t);
    Widen(Snap(root.nodes), Snap(S), root.node, ctx, t);
    ReplacedOrder(root.tree, ctx, t, i, other);
    ReplacedShape(ctx, t, other);
    ghost var t' := Fill(ctx, t.(node := other));
    RbReplace.ReplaceAt(victim, other, root, S, ctx, t);
    Narrow(Snap(S), Snap(S - {victim}), root.node, t');
    Adopt(root, t', S - {victim});
  }

  lemma Widen(h: Store, h': Store, top: Node?, ctx: Context, t: Tree)
    requires Holds(h, top, ctx, t) && forall n :: n in h ==> n in h' && h'[n] == h[n]
    ensures Holds(h', top, ctx, t)
  {
    LinkedFrame(h, h', t, Owner(ctx));
    CtxLinkedFrame(h, h', top, ctx, Head(t));
  }

  lemma ReplacedAt(s: seq<Node>, i: nat, n: Node)
    requires i < |s|
    ensures s[..i] + [n] + s[i + 1..] == s[i := n]
  {
  }

  lemma ReplacedOrder(whole: Tree, ctx: Context, t: Tree, i: nat, other: Node)
    requires whole == Fill(ctx, t) && t.Bin? && i < |Inorder(whole)|
    requires Before(ctx) + Inorder(t.left) == Inorder(whole)[..i]
    requires Inorder(t.right) + After(ctx) == Inorder(whole)[i + 1..]
    ensures Inorder(Fill(ctx, t.(node := other))) == Inorder(whole)[i := other]
  {
    hide Fill, Before, After;
    InorderFill(ctx, t.(node := other));
    Regroup5(Before(ctx), Inorder(t.left), other, Inorder(t.right), After(ctx));
    ReplacedAt(Inorder(whole), i, other);
  }

  lemma ReplacedShape(ctx: Context, t: Tree, other: Node)
    requires t.Bin? && Distinct(Fill(ctx, t))
    ensures SameShape(Fill(ctx, t), Fill(ctx, t.(node := other)))
    ensures Nodes(Fill(ctx, t.(node := other))) == Nodes(Fill(ctx, t)) - {t.node} + {other}
  {
    ShapeRefl(t.left);
    ShapeRefl(t.right);
    SameShapeFill(ctx, t, t.(node := other));
    RbSplice.NodesFill(ctx, t);
    RbSplice.NodesFill(ctx, t.(node := other));
    RbReplace.NodeElsewhere(ctx, t);
  }

  lemma Regroup5(a: seq<Node>, b: seq<Node>, n: Node, c: seq<Node>, d: seq<Node>)
    ensures a + (b + [n] + c) + d == (a + b) + [n] + (c + d)
  {
  }

  predicate SameShape(t: Tree, t': Tree) {
    if t.Leaf? then t'.Leaf?
    else t'.Bin? && t.color == t'.color && SameShape(t.left, t'.left) && SameShape(t.right, t'.right)
  }

  lemma {:induction false} SameShapeFill(ctx: Context, t: Tree, t': Tree)
    requires SameShape(t, t')
    ensures SameShape(Fill(ctx, t), Fill(ctx, t'))
    decreases ctx
  {
    if !ctx.Top? {
      ShapeRefl(if ctx.LeftOf? then ctx.right else ctx.left);
      SameShapeFill(ctx.up, Parented(ctx, t), Parented(ctx, t'));
    }
  }

  lemma ShapeRefl(t: Tree)
    ensures SameShape(t, t)
  {
  }

  lemma {:induction false} SameShapeBalanced(t: Tree, t': Tree)
    requires SameShape(t, t')
    ensures Balanced(t) <==> Balanced(t')
    ensures BlackHeight(t) == BlackHeight(t') && IsRed(t) == IsRed(t') && Height(t) == Height(t')
  {
    if t.Bin? {
      SameShapeBalanced(t.left, t'.left);
      SameShapeBalanced(t.right, t'.right);
    }
  }
}
