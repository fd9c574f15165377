// Walking, searching and inserting: what the users of the tree write around the
// library, following the pattern documented in rbtree.h.
module RbOrder {
  import opened RbNodes
  import opened RbHeight
  import opened RbTree
  import RbWalk

  ghost predicate Sorted(s: seq<Node>) {
    forall i, j :: 0 <= i < j < |s| ==> s[i].key < s[j].key
  }

  // rb_first, rb_last, rb_next, rb_prev in terms of positions.
  method First(root: Root) returns (n: Node?)
    requires root.Valid()
    ensures if Inorder(root.tree) == [] then n == null else n == Inorder(root.tree)[0]
  {
    n := RbWalk.First(root, root.nodes, root.tree);
  }

  method Last(root: Root) returns (n: Node?)
    requires root.Valid()
    ensures if Inorder(root.tree) == [] then n == null else n == Inorder(root.tree)[|Inorder(root.tree)| - 1]
  {
    n := RbWalk.Last(root, root.nodes, root.tree);
  }

  method Next(node: Node, root: Root, ghost i: nat) returns (n: Node?)
    requires root.Valid() && i < |Inorder(root.tree)| && Inorder(root.tree)[i] == node
    ensures if i + 1 < |Inorder(root.tree)| then n == Inorder(root.tree)[i + 1] else n == null
  {
    ghost var ctx, t := Focus(root, i);
    n := RbWalk.Next(node, root, root.nodes, ctx, t);
  }

  method Prev(node: Node, root: Root, ghost i: nat) returns (n: Node?)
    requires root.Valid() && i < |Inorder(root.tree)| && Inorder(root.tree)[i] == node
    ensures if i > 0 then n == Inorder(root.tree)[i - 1] else n == null
  {
    ghost var ctx, t := Focus(root, i);
    n := RbWalk.Prev(node, root, root.nodes, ctx, t);
  }

  // The loop `for (r = rb_first(root); r; r = rb_next(r))` of dump_page_errors.
  method Walk(root: Root) returns (visited: seq<Node>)
    requires root.Valid()
    ensures visited == Inorder(root.tree)
  {
    visited := [];
    var r := First(root);
    while r != null
      invariant visited <= Inorder(root.tree)
      invariant r == if |visited| < |Inorder(root.tree)| then Inorder(root.tree)[|visited|] else null
      decreases |Inorder(root.tree)| - |visited|
    {
      ghost var i := |visited|;
      visited := visited + [r];
      r := Next(r, root, i);
    }
  }

  // rb_prev undoes rb_next.
  method NextThenPrev(node: Node, root: Root, ghost i: nat) returns (back: Node?)
    requires root.Valid() && i + 1 < |Inorder(root.tree)| && Inorder(root.tree)[i] == node
    ensures back == node
  {
    var n := Next(node, root, i);
    back := Prev(n, root, i + 1);
  }

  // Where a key belongs in a sorted order.
  ghost predicate Below(s: seq<Node>, key: int) {
    forall n :: n in s ==> n.key < key
  }

  ghost predicate Above(s: seq<Node>, key: int) {
    forall n :: n in s ==> key < n.key
  }

  lemma SortedSplit(a: seq<Node>, n: Node, b: seq<Node>)
    requires Sorted(a + [n] + b)
    ensures Below(a, n.key) && Above(b, n.key) && Sorted(a) && Sorted(b)
  {
    var s := a + [n] + b;
    assert s[|a|] == n;
    assert forall j :: 0 <= j < |a| ==> s[j] == a[j];
    assert forall j :: 0 <= j < |b| ==> s[|a| + 1 + j] == b[j];
  }

  lemma Extend(a: seq<Node>, n: Node, b: seq<Node>, key: int)
    requires Below(a, n.key) && Above(b, n.key)
    ensures n.key < key ==> Below(a + [n], key)
    ensures key < n.key ==> Above([n] + b, key)
  {
  }

  // One step of a descent: the same order, seen from either child, and what the
  // comparison with the node in between rules out.
  lemma Descend(ctx: Context, t: Tree, key: int)
    requires t.Bin? && Sorted(Before(ctx) + Inorder(t) + After(ctx))
    ensures var onLeft := LeftOf(ctx, t.node, t.color, t.right);
      && Before(onLeft) + Inorder(t.left) + After(onLeft) == Before(ctx) + Inorder(t) + After(ctx)
      && (key < t.node.key ==> Above(After(onLeft), key))
    ensures var onRight := RightOf(ctx, t.left, t.node, t.color);
      && Before(onRight) + Inorder(t.right) + After(onRight) == Before(ctx) + Inorder(t) + After(ctx)
      && (t.node.key < key ==> Below(Before(onRight), key))
  {
    hide Sorted, Below, Above;
    var a, b := Before(ctx) + Inorder(t.left), Inorder(t.right) + After(ctx);
    Regroup5(Before(ctx), Inorder(t.left), t.node, Inorder(t.right), After(ctx));
    SortedSplit(a, t.node, b);
    assert After(LeftOf(ctx, t.node, t.color, t.right)) == [t.node] + b;
    Extend(a, t.node, b, key);
  }

  // A descent for key has come to the subtree t of the whole tree.
  ghost predicate Seeking(h: Store, top: Node?, whole: Tree, ctx: Context, t: Tree, key: int) {
    && Holds(h, top, ctx, t) && whole == Fill(ctx, t) && Sorted(Inorder(whole))
    && Inorder(whole) == Before(ctx) + Inorder(t) + After(ctx)
    && Below(Before(ctx), key) && Above(After(ctx), key)
  }

  lemma SeekStart(h: Store, top: Node?, t: Tree, key: int)
    requires Holds(h, top, Top, t) && Sorted(Inorder(t))
    ensures Seeking(h, top, t, Top, t, key) && top == Head(t)
  {
  }

  // What the descent reads of the node it has come to.
  lemma SeekCell(h: Store, top: Node?, whole: Tree, ctx: Context, t: Tree, key: int)
    requires Seeking(h, top, whole, ctx, t, key) && t.Bin?
    ensures t.node in h && h[t.node].left == Head(t.left) && h[t.node].right == Head(t.right)
    ensures t.node in Inorder(whole)
  {
    hide Sorted, Below, Above, CtxLinked, Distinct, CtxDistinct;
    LinkedParts(h, t, Owner(ctx));
    assert Inorder(whole)[|Before(ctx)| + |Inorder(t.left)|] == t.node;
  }

  lemma SeekLeft(h: Store, top: Node?, whole: Tree, ctx: Context, t: Tree, key: int)
    requires Seeking(h, top, whole, ctx, t, key) && t.Bin? && key < t.node.key
    ensures Seeking(h, top, whole, LeftOf(ctx, t.node, t.color, t.right), t.left, key)
  {
    hide Holds, Inorder, Sorted, Below, Above, After;
    FocusLeft(h, top, ctx, t);
    Descend(ctx, t, key);
  }

  lemma SeekRight(h: Store, top: Node?, whole: Tree, ctx: Context, t: Tree, key: int)
    requires Seeking(h, top, whole, ctx, t, key) && t.Bin? && t.node.key < key
    ensures Seeking(h, top, whole, RightOf(ctx, t.left, t.node, t.color), t.right, key)
  {
    hide Holds, Inorder, Sorted, Below, Above, Before;
    FocusRight(h, top, ctx, t);
    Descend(ctx, t, key);
  }

  lemma SeekEnd(h: Store, top: Node?, whole: Tree, ctx: Context, key: int)
    requires Seeking(h, top, whole, ctx, Leaf, key)
    ensures whole == Fill(ctx, Leaf) && Inorder(whole) == Before(ctx) + After(ctx)
    ensures Below(Before(ctx), key) && Above(After(ctx), key)
    ensures forall m :: m in Inorder(whole) ==> m.key != key
  {
  }

  // rb_search_page_cache (and mempage_lookup): a descent that takes no more steps
  // than the tree is high.
  method Search(root: Root, key: int) returns (n: Node?, ghost steps: nat)
    requires root.Valid() && Sorted(Inorder(root.tree))
    ensures n != null ==> n in Inorder(root.tree) && n.key == key
    ensures n == null ==> forall m :: m in Inorder(root.tree) ==> m.key != key
    ensures steps <= Height(root.tree)
  {
    hide Seeking, Sorted, Holds, Inorder;
    ghost var h, ctx, t := Snap(root.nodes), Top, root.tree;
    n, steps := root.node, 0;
    SeekStart(h, root.node, root.tree, key);
    while n != null
      invariant Seeking(h, root.node, root.tree, ctx, t, key) && n == Head(t)
      invariant steps + Height(t) <= Height(root.tree)
      decreases t
    {
      SeekCell(h, root.node, root.tree, ctx, t, key);
      steps := steps + 1;
      if key < n.key {
        SeekLeft(h, root.node, root.tree, ctx, t, key);
        n := n.left;
        ctx, t := LeftOf(ctx, t.node, t.color, t.right), t.left;
      } else if key > n.key {
        SeekRight(h, root.node, root.tree, ctx, t, key);
        n := n.right;
        ctx, t := RightOf(ctx, t.left, t.node, t.color), t.right;
      } else {
        return;
      }
    }
    SeekEnd(h, root.node, root.tree, ctx, key);
  }
}
