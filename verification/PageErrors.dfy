// page.c: error pages in a search tree.  A new page is linked and never rebalanced, so
// the tree stays a search tree but is not red-black.
module PageErrors {
  import opened Common
  import opened RbNodes
  import opened RbTree
  import opened RbOrder
  import opened PageHistory
  import RbBalance
  import RbHeight
  import RbRuns
  import LeakyBucket

  // ---- The shape that unbalanced linking gives ----

  // Linking a leaf by descent.
  function LinkAt(t: Tree, n: Node): Tree {
    if t.Leaf? then Bin(Leaf, n, Red, Leaf)
    else if n.key < t.node.key then t.(left := LinkAt(t.left, n))
    else t.(right := LinkAt(t.right, n))
  }

  predicate AllRed(t: Tree) {
    t.Leaf? || (t.color == Red && AllRed(t.left) && AllRed(t.right))
  }

  // The place a descent finds is where LinkAt links.
  lemma {:induction false} LinkedBelow(ctx: Context, t: Tree, n: Node)
    requires Below(Before(ctx), n.key) && Above(After(ctx), n.key)
    ensures LinkAt(Fill(ctx, t), n) == Fill(ctx, LinkAt(t, n))
    decreases ctx
  {
    match ctx
    case Top =>
    case LeftOf(up, m, c, r) =>
      assert m in After(ctx) && forall x :: x in After(up) ==> x in After(ctx);
      LinkedBelow(up, Bin(t, m, c, r), n);
    case RightOf(up, l, m, c) =>
      assert m in Before(ctx) && forall x :: x in Before(up) ==> x in Before(ctx);
      LinkedBelow(up, Bin(l, m, c, t), n);
  }

  lemma {:induction false} LinkKeepsRed(t: Tree, n: Node)
    requires AllRed(t)
    ensures AllRed(LinkAt(t, n))
  {
    if t.Bin? {
      LinkKeepsRed(t.left, n);
      LinkKeepsRed(t.right, n);
    }
  }

  // Never rebalanced, the tree is red-black only while it is empty.
  lemma RedBlackOnlyEmpty(t: Tree)
    requires AllRed(t)
    ensures RbBalance.RedBlack(t) <==> t.Leaf?
  {
  }

  function LinkAll(ns: seq<Node>): Tree {
    if ns == [] then Leaf else LinkAt(LinkAll(ns[..|ns| - 1]), ns[|ns| - 1])
  }

  function Keys(ns: seq<Node>): (ks: seq<int>)
    ensures |ks| == |ns| && forall i :: 0 <= i < |ns| ==> ks[i] == ns[i].key
  {
    seq(|ns|, i requires 0 <= i < |ns| => ns[i].key)
  }

  lemma LinkedNext(ns: seq<Node>, n: Node)
    ensures LinkAll(ns + [n]) == LinkAt(LinkAll(ns), n) && Keys(ns + [n]) == Keys(ns) + [n.key]
  {
    hide LinkAt;
    assert (ns + [n])[..|ns|] == ns;
  }

  predicate RightSpine(t: Tree) {
    t.Leaf? || (t.left.Leaf? && RightSpine(t.right))
  }

  lemma {:induction false} LinkLargest(t: Tree, n: Node)
    requires RightSpine(t) && Below(Inorder(t), n.key)
    ensures RightSpine(LinkAt(t, n)) && Inorder(LinkAt(t, n)) == Inorder(t) + [n]
    ensures RbHeight.Height(LinkAt(t, n)) == RbHeight.Height(t) + 1
  {
    if t.Bin? {
      assert t.node in Inorder(t) && forall x :: x in Inorder(t.right) ==> x in Inorder(t);
      LinkLargest(t.right, n);
    }
  }

  // Pages reported in ascending order make a list: the height is the number of pages.
  lemma {:induction false} AscendingIsList(ns: seq<Node>)
    requires Sorted(ns)
    ensures RightSpine(LinkAll(ns)) && Inorder(LinkAll(ns)) == ns && RbHeight.Height(LinkAll(ns)) == |ns|
  {
    if ns != [] {
      AscendingIsList(ns[..|ns| - 1]);
      LinkLargest(LinkAll(ns[..|ns| - 1]), ns[|ns| - 1]);
    }
  }

  lemma LinkFacts(ctx: Context, n: Node)
    requires Sorted(Before(ctx) + After(ctx)) && Below(Before(ctx), n.key) && Above(After(ctx), n.key)
    requires Inorder(Fill(ctx, Leaf)) == Before(ctx) + After(ctx) && AllRed(Fill(ctx, Leaf))
    ensures Fill(ctx, Bin(Leaf, n, Red, Leaf)) == LinkAt(Fill(ctx, Leaf), n)
    ensures AllRed(LinkAt(Fill(ctx, Leaf), n)) && Sorted(Inorder(LinkAt(Fill(ctx, Leaf), n)))
    ensures Inorder(LinkAt(Fill(ctx, Leaf), n)) == RbRuns.Placed(Inorder(Fill(ctx, Leaf)), n)
    ensures forall m :: m in Inorder(Fill(ctx, Leaf)) ==> m.key != n.key
  {
    LinkedBelow(ctx, Leaf, n);
    LinkKeepsRed(Fill(ctx, Leaf), n);
    RbRuns.NewKey(Before(ctx), n, After(ctx));
    RbRuns.LinkedOrder(ctx, n);
  }

  // ---- The table ----

  // The global mempage_root: a search tree of pages, none of them ever recoloured.
  ghost predicate Searchable(root: Root)
    reads root, root.nodes
  {
    root.Valid() && Sorted(Inorder(root.tree)) && AllRed(root.tree)
  }

  ghost predicate Holding(nodes: set<Node>, addr: nat) {
    exists n :: n in nodes && n.key == addr
  }

  // mempage_lookup.
  method Lookup(root: Root, addr: nat) returns (n: Node?)
    requires Searchable(root)
    ensures n != null <==> Holding(root.nodes, addr)
    ensures n != null ==> n in root.nodes && n.key == addr
  {
    ghost var steps;
    n, steps := Search(root, addr);
    NodesAreInorder(root.tree);
  }

  // mempage_insert_lookup: the page already there, or the link made.
  method InsertLookup(root: Root, addr: nat, node: Node) returns (mp: Node?)
    requires Searchable(root) && node.key == addr && node !in root.nodes
    modifies root, node, root.nodes
    ensures Searchable(root) && (mp != null <==> Holding(old(root.nodes), addr))
    ensures mp != null ==> mp in root.nodes && mp.key == addr && root.tree == old(root.tree)
    ensures mp == null ==> root.tree == LinkAt(old(root.tree), node) && root.nodes == old(root.nodes) + {node}
    ensures mp == null ==> Inorder(root.tree) == RbRuns.Placed(old(Inorder(root.tree)), node)
  {
    var parent, onLeft;
    ghost var ctx;
    mp, parent, onLeft, ctx := RbRuns.FindLink(root, addr);
    NodesAreInorder(root.tree);
    if mp != null {
      return;
    }
    LinkFacts(ctx, node);
    LinkNode(node, parent, onLeft, root, ctx);
  }

  // mempage_insert as account_page_error calls it, for a page the lookup missed.
  // The source calls rb_insert_color only when mp is not null, which is never here.
  method Insert(root: Root, addr: nat, node: Node) returns (mp: Node?)
    requires Searchable(root) && node.key == addr && node !in root.nodes && !Holding(root.nodes, addr)
    modifies root, node, root.nodes
    ensures mp == null && Searchable(root)
    ensures root.tree == LinkAt(old(root.tree), node) && root.nodes == old(root.nodes) + {node}
    ensures Inorder(root.tree) == RbRuns.Placed(old(Inorder(root.tree)), node)
  {
    mp := InsertLookup(root, addr, node);
  }

  // ---- The records ----

  // One record around each node, one node for each page of the book.
  ghost predicate Records(nodes: set<Node>, pages: map<Node, Page>, book: Book) {
    && pages.Keys == nodes
    && (forall n :: n in nodes ==> 0 <= n.key && n.key % PAGE_SIZE == 0 && n.key in book && book[n.key] == pages[n])
    && (forall a :: a in book ==> Holding(nodes, a))
    && (forall m, n :: m in nodes && n in nodes && m.key == n.key ==> m == n)
  }

  lemma RecordsNew(nodes: set<Node>, pages: map<Node, Page>, book: Book, mp: Node, page: Page)
    requires Records(nodes, pages, book) && mp !in nodes
    requires 0 <= mp.key && mp.key % PAGE_SIZE == 0 && !Holding(nodes, mp.key)
    ensures Records(nodes + {mp}, pages[mp := page], book[mp.key := page])
  {
    forall a | a in book[mp.key := page]
      ensures Holding(nodes + {mp}, a)
    {
      assert mp in nodes + {mp};
      if a != mp.key {
        var n :| n in nodes && n.key == a;
        assert n in nodes + {mp};
      }
    }
  }

  lemma RecordsSet(nodes: set<Node>, pages: map<Node, Page>, book: Book, mp: Node, page: Page)
    requires Records(nodes, pages, book) && 0 <= mp.key && mp.key % PAGE_SIZE == 0
    requires mp in nodes || !Holding(nodes, mp.key)
    ensures Records(nodes + {mp}, pages[mp := page], book[mp.key := page])
  {
    if mp !in nodes {
      RecordsNew(nodes, pages, book, mp, page);
    } else {
      assert nodes + {mp} == nodes;
    }
  }

  lemma RecordsFind(nodes: set<Node>, pages: map<Node, Page>, book: Book, addr: nat)
    requires Records(nodes, pages, book)
    ensures Holding(nodes, addr) <==> addr in book
  {
  }

  class PageTable {
    const root: Root
    const setup: Setup
    var pages: map<Node, Page>       // the record around each node (rb_entry)
    ghost var book: Book
    ghost var linked: seq<Node>      // the nodes in the order in which they were linked

    ghost predicate Valid()
      reads this, root, root.nodes
    {
      && Searchable(root) && LeakyBucket.Usable(setup.conf) && Records(root.nodes, pages, book)
      && root.tree == LinkAll(linked)
    }

    constructor (setup: Setup)
      requires LeakyBucket.Usable(setup.conf)
      ensures Valid() && fresh(root) && root.nodes == {} && this.setup == setup && book == map[] && linked == []
    {
      this.setup := setup;
      root := new Root();
      pages := map[];
      book, linked := map[], [];
    }

    // mempage_lookup finds a page exactly when it is in the book.
    method Find(addr: nat) returns (n: Node?)
      requires Valid()
      ensures n != null <==> addr in book
      ensures n != null ==> n in root.nodes && n.key == addr && pages[n] == book[addr]
    {
      n := Lookup(root, addr);
      RecordsFind(root.nodes, pages, book, addr);
    }

    // xalloc and mempage_insert: a page nobody has a record for yet is linked.
    method LinkPage(addr: nat) returns (mp: Node)
      requires Searchable(root) && !Holding(root.nodes, addr)
      modifies root, root.nodes
      ensures Searchable(root) && fresh(mp) && mp.key == addr
      ensures mp !in old(root.nodes) && root.nodes == old(root.nodes) + {mp}
      ensures root.tree == LinkAt(old(root.tree), mp)
    {
      mp := new Node(addr);
      var _ := Insert(root, addr, mp);
    }

    // The record around mp, new or not.
    method SetPage(mp: Node, page: Page, ghost nodes: set<Node>)
      requires Records(nodes, pages, book) && 0 <= mp.key && mp.key % PAGE_SIZE == 0
      requires mp in nodes || !Holding(nodes, mp.key)
      modifies `pages, `book
      ensures Records(nodes + {mp}, pages, book) && pages == old(pages)[mp := page]
      ensures book == old(book)[mp.key := page]
    {
      RecordsSet(nodes, pages, book, mp, page);
      pages, book := pages[mp := page], book[mp.key := page];
    }

    // A page without a record: link one and fill it in.
    method AddPage(addr: nat, page: Page) returns (mp: Node)
      requires Searchable(root) && Records(root.nodes, pages, book) && addr !in book && addr % PAGE_SIZE == 0
      modifies `pages, `book, root, root.nodes
      ensures Searchable(root) && Records(root.nodes, pages, book)
      ensures book == old(book)[addr := page] && mp.key == addr && root.tree == LinkAt(old(root.tree), mp)
      ensures fresh(mp) && root.nodes == old(root.nodes) + {mp}
    {
      hide Searchable, Records, LinkAt;
      ghost var nodes := root.nodes;
      RecordsFind(nodes, pages, book, addr);
      mp := LinkPage(addr);
      SetPage(mp, page, nodes);
    }

    // The record of a page, or what a new one would hold.
    method GetPage(addr: nat, now: int) returns (mp: Node?, page: Page)
      requires Valid()
      ensures mp != null <==> addr in book
      ensures mp != null ==> mp in root.nodes && mp.key == addr
      ensures page == Looked(book, addr, now)
    {
      mp := Find(addr);
      page := if mp != null then pages[mp] else Fresh(now);
    }

    // Store a record, linking its page if it is new.
    method PutPage(mp: Node?, addr: nat, page: Page)
      requires Valid() && addr % PAGE_SIZE == 0 && (mp != null <==> addr in book)
      requires mp != null ==> mp in root.nodes && mp.key == addr
      modifies this, root, root.nodes
      ensures Valid() && book == old(book)[addr := page] && fresh(root.nodes - old(root.nodes))
      ensures Keys(linked) == if mp == null then old(Keys(linked)) + [addr] else old(Keys(linked))
    {
      hide Searchable, Records, LinkAll, LinkAt, Keys;
      if mp == null {
        var added := AddPage(addr, page);
        LinkedNext(linked, added);
        linked := linked + [added];
        return;
      }
      SetPage(mp, page, root.nodes);
      assert root.nodes + {mp} == root.nodes;
      return;
    }

    // account_page_error: the book moves by one step, and the result says whether
    // offlining was attempted.
    method AccountPageError(e: Report) returns (attempted: bool)
      requires Valid()
      modifies this, root, root.nodes
      ensures Valid() && book == Step(setup, old(book), e)
      ensures attempted == Attempts(setup, old(book), e)
      ensures Keys(linked) == if Accepted(setup, e) && PageOf(e) !in old(book) then old(Keys(linked)) + [PageOf(e)]
                              else old(Keys(linked))
      ensures fresh(root.nodes - old(root.nodes))
    {
      hide Searchable, Records, LinkAll, Keys, Charge, Looked;
      if setup.policy == Off {
        return false;
      }
      if !e.addrValid || e.uncorrected {
        return false;
      }
      var addr := PageOf(e);
      var mp, page := GetPage(addr, e.now);
      page, attempted := ChargePage(setup, page, e);
      PutPage(mp, addr, page);
      return;
    }

    // dump_page_errors: every page of the book once, in ascending order of address.
    method Dump() returns (lines: seq<(int, Page)>)
      requires Valid()
      ensures |lines| == |Inorder(root.tree)|
      ensures forall i :: 0 <= i < |lines| ==> lines[i].0 == Inorder(root.tree)[i].key
      ensures forall i :: 0 <= i < |lines| ==> 0 <= lines[i].0 && lines[i].0 in book && lines[i].1 == book[lines[i].0]
    {
      var nodes := Walk(root);
      NodesAreInorder(root.tree);
      lines := [];
      for k := 0 to |nodes|
        invariant |lines| == k
        invariant forall i :: 0 <= i < k ==> nodes[i] in root.nodes && lines[i] == (nodes[i].key, pages[nodes[i]])
      {
        assert nodes[k] in Members(nodes);
        lines := lines + [(nodes[k].key, pages[nodes[k]])];
      }
    }
  }

  // A whole run from an empty table: the book is the one the reports alone determine.
  method Run(setup: Setup, es: seq<Report>) returns (table: PageTable, attempts: seq<bool>)
    requires LeakyBucket.Usable(setup.conf)
    ensures table.Valid() && table.setup == setup && table.book == BookAfter(setup, es)
    ensures attempts == AllAttempts(setup, es) && Keys(table.linked) == PagesSeen(setup, es)
  {
    hide Searchable, Records, LinkAll, Keys, Step, Attempts;
    table := new PageTable(setup);
    attempts := [];
    for k := 0 to |es|
      invariant fresh(table) && fresh(table.root) && fresh(table.root.nodes)
      invariant table.Valid() && table.setup == setup && table.book == BookAfter(setup, es[..k])
      invariant attempts == AllAttempts(setup, es[..k]) && Keys(table.linked) == PagesSeen(setup, es[..k])
    {
      assert es[..k + 1][..k] == es[..k];
      var attempted := table.AccountPageError(es[k]);
      attempts := attempts + [attempted];
    }
    assert es[..|es|] == es;
  }

  // Reports of ascending pages make a tree that is a list, as high as there are pages.
  method RunAscending(setup: Setup, es: seq<Report>) returns (table: PageTable, attempts: seq<bool>)
    requires LeakyBucket.Usable(setup.conf) && Ascending(setup, es)
    ensures table.Valid() && table.book == BookAfter(setup, es)
    ensures RightSpine(table.root.tree) && RbHeight.Height(table.root.tree) == |Inorder(table.root.tree)| == |es|
  {
    table, attempts := Run(setup, es);
    AscendingAllSeen(setup, es);
    AscendingKeys(table.linked, setup, es);
    AscendingIsList(table.linked);
  }

  lemma AscendingKeys(ns: seq<Node>, setup: Setup, es: seq<Report>)
    requires Ascending(setup, es) && |Keys(ns)| == |es|
    requires forall i :: 0 <= i < |es| ==> Keys(ns)[i] == PageOf(es[i])
    ensures Sorted(ns)
  {
    forall i, j | 0 <= i < j < |ns|
      ensures ns[i].key < ns[j].key
    {
      assert Keys(ns)[i] == ns[i].key && Keys(ns)[j] == ns[j].key;
    }
  }

  // The body of account_page_error once the page's record is at hand.
  method ChargePage(setup: Setup, p: Page, e: Report) returns (page: Page, attempted: bool)
    requires LeakyBucket.Usable(setup.conf)
    ensures (page, attempted) == Charge(setup, p, e)
  {
    page := p.(count := p.count + 1);
    var (bucket, overflow) := LeakyBucket.Accounted(setup.conf, page.bucket, 1, e.time);
    page := page.(bucket := bucket);
    if overflow {
      if page.offlined != Online {
        return page, false;
      }
      page := page.(triggered := true);
      if Offlines(setup) {
        return page.(offlined := OfflineResult(setup, e)), true;
      }
    }
    return page, false;
  }
}
