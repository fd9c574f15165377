// Insertion by the documented protocol, and whole runs of insertions and erasures.
module RbRuns {
  import opened RbNodes
  import opened RbBalance
  import opened RbHeight
  import opened RbTree
  import opened RbOrder

  // The order after an insertion and after a removal.
  function Placed(s: seq<Node>, n: Node): seq<Node> {
    if s == [] then [n]
    else if n.key < s[0].key then [n] + s
    else if n.key == s[0].key then s
    else [s[0]] + Placed(s[1..], n)
  }

  function Removed(s: seq<Node>, n: Node): seq<Node> {
    if s == [] then []
    else if s[0] == n then s[1..]
    else [s[0]] + Removed(s[1..], n)
  }

  lemma {:induction false} PlacedBetween(a: seq<Node>, n: Node, b: seq<Node>)
    requires Below(a, n.key) && Above(b, n.key)
    ensures Placed(a + b, n) == a + [n] + b
  {
    if a == [] {
      assert a + b == b;
      assert b != [] ==> b[0] in b;
    } else {
      assert a[0] in a;
      assert (a + b)[1..] == a[1..] + b;
      PlacedBetween(a[1..], n, b);
    }
  }

  lemma {:induction false} PlacedPresent(s: seq<Node>, n: Node, i: nat)
    requires Sorted(s) && i < |s| && s[i].key == n.key
    ensures Placed(s, n) == s
  {
    if i > 0 {
      PlacedPresent(s[1..], n, i - 1);
    }
  }

  lemma SortedJoin(a: seq<Node>, n: Node, b: seq<Node>)
    requires Sorted(a) && Sorted(b) && Below(a, n.key) && Above(b, n.key)
    ensures Sorted(a + [n] + b)
  {
    var s := a + [n] + b;
    forall i, j | 0 <= i < j < |s|
      ensures s[i].key < s[j].key
    {
      if i < |a| {
        assert s[i] == a[i] && s[i] in a;
      }
      if j > |a| {
        assert s[j] == b[j - |a| - 1] && s[j] in b;
      }
    }
  }

  lemma {:induction false} RemovedAt(s: seq<Node>, i: nat)
    requires NoRepeats(s) && i < |s|
    ensures Removed(s, s[i]) == s[..i] + s[i + 1..]
  {
    if i > 0 {
      RemovedAt(s[1..], i - 1);
      assert s[1..][i - 1] == s[i];
      assert [s[0]] + s[1..][..i - 1] == s[..i];
    }
  }

  lemma SortedWithout(s: seq<Node>, i: nat)
    requires Sorted(s) && i < |s|
    ensures NoRepeats(s) && Sorted(s[..i] + s[i + 1..])
  {
    var s' := s[..i] + s[i + 1..];
    assert forall k :: 0 <= k < |s'| ==> s'[k] == s[if k < i then k else k + 1];
  }

  lemma {:induction false} RemovedAbsent(s: seq<Node>, n: Node)
    requires n !in s
    ensures Removed(s, n) == s
  {
    if s != [] {
      RemovedAbsent(s[1..], n);
    }
  }

  // The descent of __rb_insert_page_cache and mempage_insert_lookup: the node with
  // the key, or the empty link where it belongs.
  method FindLink(root: Root, key: int) returns (present: Node?, parent: Node?, onLeft: bool, ghost ctx: Context)
    requires root.Valid() && Sorted(Inorder(root.tree))
    ensures present != null ==> present in Inorder(root.tree) && present.key == key
    ensures present == null ==>
      && root.tree == Fill(ctx, Leaf) && parent == Owner(ctx) && (parent != null ==> onLeft == ctx.LeftOf?)
      && Inorder(root.tree) == Before(ctx) + After(ctx) && Below(Before(ctx), key) && Above(After(ctx), key)
  {
    hide Seeking, Sorted, Holds, Inorder, Below, Above, Fill;
    ghost var h, t := Snap(root.nodes), root.tree;
    ctx := Top;
    var p := root.node;
    parent, onLeft := null, false;
    SeekStart(h, root.node, root.tree, key);
    while p != null
      invariant Seeking(h, root.node, root.tree, ctx, t, key) && p == Head(t)
      invariant parent == Owner(ctx) && (parent != null ==> onLeft == ctx.LeftOf?)
      decreases t
    {
      SeekCell(h, root.node, root.tree, ctx, t, key);
      parent := p;
      if key < p.key {
        SeekLeft(h, root.node, root.tree, ctx, t, key);
        p, onLeft := p.left, true;
        ctx, t := LeftOf(ctx, t.node, t.color, t.right), t.left;
      } else if key > p.key {
        SeekRight(h, root.node, root.tree, ctx, t, key);
        p, onLeft := p.right, false;
        ctx, t := RightOf(ctx, t.left, t.node, t.color), t.right;
      } else {
        present := p;
        return;
      }
    }
    present := null;
    SeekEnd(h, root.node, root.tree, ctx, key);
  }

  // rb_insert_page_cache: search, link as a red leaf, rebalance.
  method Insert(node: Node, root: Root) returns (present: Node?)
    requires Tidy(root) && Sorted(Inorder(root.tree))
    modifies root, node, root.nodes
    ensures Tidy(root) && Sorted(Inorder(root.tree)) && Inorder(root.tree) == Placed(old(Inorder(root.tree)), node)
    ensures present == null <==> forall m :: m in old(Inorder(root.tree)) ==> m.key != node.key
    ensures present != null ==> present in old(Inorder(root.tree)) && present.key == node.key
    ensures root.nodes == if present == null then old(root.nodes) + {node} else old(root.nodes)
  {
    var parent, onLeft;
    ghost var ctx;
    present, parent, onLeft, ctx := FindLink(root, node.key);
    if present != null {
      ghost var i :| 0 <= i < |Inorder(root.tree)| && Inorder(root.tree)[i] == present;
      PlacedPresent(Inorder(root.tree), node, i);
      return;
    }
    ghost var a, b := Before(ctx), After(ctx);
    NewKey(a, node, b);
    NodesAreInorder(root.tree);
    LinkNode(node, parent, onLeft, root, ctx);
    LinkedOrder(ctx, node);
    InsertColor(node, root, ctx);
  }

  lemma LinkedOrder(ctx: Context, node: Node)
    ensures Inorder(Fill(ctx, Bin(Leaf, node, Red, Leaf))) == Before(ctx) + [node] + After(ctx)
  {
    InorderFill(ctx, Bin(Leaf, node, Red, Leaf));
  }

  lemma NewKey(a: seq<Node>, n: Node, b: seq<Node>)
    requires Sorted(a + b) && Below(a, n.key) && Above(b, n.key)
    ensures Placed(a + b, n) == a + [n] + b && Sorted(a + [n] + b)
    ensures n !in a + b && forall m :: m in a + b ==> m.key != n.key
  {
    PlacedBetween(a, n, b);
    assert forall i :: 0 <= i < |a| ==> (a + b)[i] == a[i];
    assert forall i :: 0 <= i < |b| ==> (a + b)[|a| + i] == b[i];
    SortedJoin(a, n, b);
  }

  datatype Op = Add(node: Node) | Drop(node: Node)

  function Applied(s: seq<Node>, ops: seq<Op>): seq<Node> {
    if ops == [] then s
    else
      var before := Applied(s, ops[..|ops| - 1]);
      match ops[|ops| - 1]
      case Add(n) => Placed(before, n)
      case Drop(n) => Removed(before, n)
  }

  // Any run of insertions and erasures keeps the tree red-black and its order equal
  // to the sorted sequence kept by the same run; Drop erases only a node the tree
  // holds, as rb_erase requires.
  method Run(root: Root, ops: seq<Op>)
    requires Tidy(root) && Sorted(Inorder(root.tree))
    modifies root, root.nodes, set op | op in ops :: op.node
    ensures Tidy(root) && Sorted(Inorder(root.tree))
    ensures Inorder(root.tree) == Applied(old(Inorder(root.tree)), ops)
    ensures Pow2(Height(root.tree)) <= (|Inorder(root.tree)| + 1) * (|Inorder(root.tree)| + 1)
  {
    ghost var members := set op | op in ops :: op.node;
    for k := 0 to |ops|
      invariant Tidy(root) && Sorted(Inorder(root.tree)) && root.nodes <= old(root.nodes) + members
      invariant Inorder(root.tree) == Applied(old(Inorder(root.tree)), ops[..k])
    {
      assert ops[..k + 1][..k] == ops[..k];
      assert ops[k].node in members;
      match ops[k] {
        case Add(n) =>
          var _ := Insert(n, root);
        case Drop(n) =>
          DropIfHeld(n, root);
      }
    }
    assert ops[..|ops|] == ops;
    HeightBound(root.tree);
  }

  method DropIfHeld(n: Node, root: Root)
    requires Tidy(root) && Sorted(Inorder(root.tree))
    modifies root, root.nodes
    ensures Tidy(root) && Sorted(Inorder(root.tree)) && Inorder(root.tree) == Removed(old(Inorder(root.tree)), n)
    ensures root.nodes <= old(root.nodes)
  {
    hide Inorder, Sorted, Removed;
    ghost var s := Inorder(root.tree);
    var held, _ := Search(root, n.key);
    if held == n {
      ghost var i :| 0 <= i < |s| && s[i] == n;
      SortedWithout(s, i);
      RemovedAt(s, i);
      Erase(n, root, i);
    } else {
      OneKeyOneNode(s, held, n);
      RemovedAbsent(s, n);
    }
  }

  lemma OneKeyOneNode(s: seq<Node>, held: Node?, n: Node)
    requires Sorted(s) && held != n && (held != null ==> held in s && held.key == n.key)
    requires held == null ==> forall m :: m in s ==> m.key != n.key
    ensures n !in s
  {
  }
}
