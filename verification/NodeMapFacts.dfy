// What the node map covers: no page is ever invented, and with disjoint inputs every
// page is kept, in disjoint regions.
module NodeMapFacts {
  import opened Common
  import opened NodeMap

  // ---- One registration ----

  // The pages of a new range that add_active_range fails to record: all of them when
  // the table is full, and those below an existing region that the range engulfs.
  predicate Lost(m: seq<Region>, nid: int, s: nat, t: nat, p: nat) {
    var k := FirstReacting(m, nid, s, t, 0);
    if k == |m| then k >= MAX_ACTIVE_REGIONS
    else !CoversRange(m[k], s, t) && MergesForward(m[k], s, t) && p < m[k].start
  }

  // The coverage after one registration, for every table and every range.
  lemma AddedExact(m: seq<Region>, nid: int, s: nat, t: nat, n: int, p: nat)
    ensures Has(Added(m, nid, s, t), n, p) <==>
            Has(m, n, p) || (n == nid && s <= p < t && !Lost(m, nid, s, t, p))
  {
    var k := FirstReacting(m, nid, s, t, 0);
    var m' := Added(m, nid, s, t);
    if k < |m| {
      assert forall j :: 0 <= j < |m| && j != k ==> m'[j] == m[j];
      assert m'[k].nid == m[k].nid == nid;
      if Has(m, n, p) {
        var j :| 0 <= j < |m| && m[j].nid == n && InRegion(m[j], p);
        assert InRegion(m'[j], p);
      }
      if n == nid && s <= p < t && !Lost(m, nid, s, t, p) {
        assert InRegion(m'[k], p);
      }
    } else if k < MAX_ACTIVE_REGIONS {
      assert m'[k] == Region(nid, s, t);
      assert forall j :: 0 <= j < k ==> m'[j] == m[j];
    }
  }

  // The table grows by a region exactly when there is room and no region of the node
  // meets or adjoins the range; it never shrinks.
  lemma AddedGrows(m: seq<Region>, nid: int, s: nat, t: nat)
    requires s <= t && forall k :: 0 <= k < |m| ==> m[k].start <= m[k].end
    ensures |Added(m, nid, s, t)| == |m| + 1 <==>
      |m| < MAX_ACTIVE_REGIONS && forall k :: 0 <= k < |m| && m[k].nid == nid ==> m[k].end < s || t < m[k].start
    ensures |Added(m, nid, s, t)| == |m| || |Added(m, nid, s, t)| == |m| + 1
  {
    var k := FirstReacting(m, nid, s, t, 0);
    if k < |m| {
      assert Reacts(m[k], nid, s, t);
    }
  }

  // A range that engulfs a region of its node loses its lower part.
  lemma EngulfingLosesPages()
    ensures !Has(Added([Region(0, 2, 3)], 0, 1, 5), 0, 1)
  {
    assert FirstReacting([Region(0, 2, 3)], 0, 1, 5, 0) == 0;
    AddedExact([Region(0, 2, 3)], 0, 1, 5, 0, 1);
  }

  // ---- A whole sequence of registrations ----

  // The pages that stay, for any ranges in any order: those of a range that did not lose
  // them when it was registered.
  lemma {:induction false} KeptExactly(ps: seq<Region>, n: int, p: nat)
    ensures Has(AddedAll([], ps), n, p) <==> exists k :: 0 <= k < |ps| && KeptAt(ps, k, n, p)
  {
    if ps != [] {
      var before, q := ps[..|ps| - 1], ps[|ps| - 1];
      KeptExactly(before, n, p);
      AddedExact(AddedAll([], before), q.nid, q.start, q.end, n, p);
      forall k | 0 <= k < |before|
        ensures KeptAt(before, k, n, p) == KeptAt(ps, k, n, p)
      {
        assert before[..k] == ps[..k];
      }
      assert ps[..|before|] == before;
      assert KeptAt(ps, |before|, n, p) <==>
        q.nid == n && InRegion(q, p) && !Lost(AddedAll([], before), n, q.start, q.end, p);
    }
  }

  ghost predicate KeptAt(ps: seq<Region>, k: nat, n: int, p: nat)
    requires k < |ps|
  {
    ps[k].nid == n && InRegion(ps[k], p) && !Lost(AddedAll([], ps[..k]), n, ps[k].start, ps[k].end, p)
  }

  // No page is invented, whatever the ranges and however they merge.
  lemma {:induction false} NothingInvented(ps: seq<Region>, n: int, p: nat)
    requires Has(AddedAll([], ps), n, p)
    ensures Has(ps, n, p)
  {
    if ps != [] {
      var before, q := ps[..|ps| - 1], ps[|ps| - 1];
      AddedExact(AddedAll([], before), q.nid, q.start, q.end, n, p);
      if Has(AddedAll([], before), n, p) {
        NothingInvented(before, n, p);
        var k :| 0 <= k < |before| && before[k].nid == n && InRegion(before[k], p);
        assert ps[k] == before[k];
      } else {
        assert InRegion(ps[|ps| - 1], p);
      }
    }
  }

  predicate Apart(a: Region, b: Region) {
    a.end <= b.start || b.end <= a.start
  }

  ghost predicate AllApart(m: seq<Region>) {
    forall i, j :: 0 <= i < j < |m| && m[i].start < m[i].end && m[j].start < m[j].end ==> Apart(m[i], m[j])
  }

  // The table m records exactly the ranges ps.
  ghost predicate Records(m: seq<Region>, ps: seq<Region>) {
    && (forall n, p :: Has(m, n, p) <==> Has(ps, n, p))
    && (forall k :: 0 <= k < |m| && m[k].start >= m[k].end ==> m[k] in ps)
    && AllApart(m)
  }

  ghost predicate Dropped(m: seq<Region>, q: Region) {
    FirstReacting(m, q.nid, q.start, q.end, 0) == |m| >= MAX_ACTIVE_REGIONS
  }

  lemma SharedPage(m: seq<Region>, q: Region, k: nat) returns (p: nat)
    requires k < |m| && m[k].start < m[k].end && q.start < q.end && !Apart(q, m[k])
    ensures InRegion(q, p) && Has(m, m[k].nid, p)
  {
    p := if q.start < m[k].start then m[k].start else q.start;
    assert InRegion(m[k], p);
  }

  lemma SharesNothing(m: seq<Region>, ps: seq<Region>, q: Region, k: nat)
    requires Records(m, ps) && k < |m| && q.start < q.end
    requires forall j :: 0 <= j < |ps| ==> Apart(q, ps[j])
    ensures Apart(q, m[k])
  {
    if m[k].start < m[k].end && !Apart(q, m[k]) {
      var p := SharedPage(m, q, k);
    }
  }

  lemma NothingLost(m: seq<Region>, ps: seq<Region>, q: Region, p: nat)
    requires Records(m, ps) && q.start <= q.end && !Dropped(m, q)
    requires forall j :: 0 <= j < |ps| ==> Apart(q, ps[j]) && ps[j].start <= ps[j].end
    requires InRegion(q, p)
    ensures !Lost(m, q.nid, q.start, q.end, p)
  {
    var k := FirstReacting(m, q.nid, q.start, q.end, 0);
    if k < |m| {
      SharesNothing(m, ps, q, k);
    }
  }

  lemma AddedApart(m: seq<Region>, ps: seq<Region>, q: Region)
    requires Records(m, ps) && q.start <= q.end
    requires forall j :: 0 <= j < |ps| ==> Apart(q, ps[j]) && ps[j].start <= ps[j].end
    ensures AllApart(Added(m, q.nid, q.start, q.end))
    ensures var m' := Added(m, q.nid, q.start, q.end);
      forall k :: 0 <= k < |m'| && m'[k].start >= m'[k].end ==> m'[k] in ps + [q]
  {
    hide Has;
    var m' := Added(m, q.nid, q.start, q.end);
    forall k | 0 <= k < |m| && q.start < q.end
      ensures Apart(q, m[k])
    {
      SharesNothing(m, ps, q, k);
    }
    var k := FirstReacting(m, q.nid, q.start, q.end, 0);
    assert forall j :: 0 <= j < |m| && j != k ==> m'[j] == m[j];
    assert forall j :: 0 <= j < |m| && m[j].start >= m[j].end ==> m[j] in ps && m[j].start == m[j].end;
    assert k < |m| && m'[k] != m[k] ==> m'[k].start < m'[k].end;
    assert k == |m| && |m'| > |m| ==> m'[k] == q;
  }

  // A range apart from all earlier ones is recorded in full.
  lemma RecordsNext(m: seq<Region>, ps: seq<Region>, q: Region)
    requires Records(m, ps) && q.start <= q.end && !Dropped(m, q)
    requires forall j :: 0 <= j < |ps| ==> Apart(q, ps[j]) && ps[j].start <= ps[j].end
    ensures Records(Added(m, q.nid, q.start, q.end), ps + [q])
  {
    var m' := Added(m, q.nid, q.start, q.end);
    AddedApart(m, ps, q);
    forall n, p: nat
      ensures Has(m', n, p) <==> Has(ps + [q], n, p)
    {
      AddedExact(m, q.nid, q.start, q.end, n, p);
      HasConcat(ps, q, n, p);
      if InRegion(q, p) {
        NothingLost(m, ps, q, p);
      }
    }
  }

  lemma HasConcat(ps: seq<Region>, q: Region, n: int, p: nat)
    ensures Has(ps + [q], n, p) <==> Has(ps, n, p) || (q.nid == n && InRegion(q, p))
  {
    var s := ps + [q];
    assert s[|ps|] == q && forall j :: 0 <= j < |ps| ==> s[j] == ps[j];
    if Has(ps, n, p) {
      var k :| 0 <= k < |ps| && ps[k].nid == n && InRegion(ps[k], p);
      assert InRegion(s[k], p);
    }
    if q.nid == n && InRegion(q, p) {
      assert InRegion(s[|ps|], p);
    }
  }

  ghost predicate NeverDropped(ps: seq<Region>) {
    ps == [] || (NeverDropped(ps[..|ps| - 1]) && !Dropped(AddedAll([], ps[..|ps| - 1]), ps[|ps| - 1]))
  }

  ghost predicate PiecesApart(ps: seq<Region>) {
    && (forall j :: 0 <= j < |ps| ==> ps[j].start <= ps[j].end)
    && (forall i, j :: 0 <= i < j < |ps| ==> Apart(ps[i], ps[j]))
  }

  // Pairwise disjoint ranges are recorded exactly, whatever the order of the merges.
  lemma {:induction false} RecordsAll(ps: seq<Region>)
    requires PiecesApart(ps) && NeverDropped(ps)
    ensures Records(AddedAll([], ps), ps)
  {
    if ps != [] {
      var before, q := ps[..|ps| - 1], ps[|ps| - 1];
      RecordsAll(before);
      RecordsNext(AddedAll([], before), before, q);
      assert before + [q] == ps;
    }
  }

  lemma {:induction false} TableGrowsByOne(ps: seq<Region>)
    ensures |AddedAll([], ps)| <= |ps|
  {
    if ps != [] {
      TableGrowsByOne(ps[..|ps| - 1]);
    }
  }

  // As many ranges as the table has room for are never dropped.
  lemma {:induction false} FewPiecesFit(ps: seq<Region>)
    requires |ps| <= MAX_ACTIVE_REGIONS
    ensures NeverDropped(ps)
  {
    if ps != [] {
      FewPiecesFit(ps[..|ps| - 1]);
      TableGrowsByOne(ps[..|ps| - 1]);
    }
  }

  // ---- The ranges that are registered ----

  lemma {:induction false} PiecesOfExact(e820: seq<Entry>, nid: int, lo: nat, hi: nat, n: int, p: nat)
    requires lo <= hi
    ensures Has(PiecesOf(e820, nid, lo, hi), n, p) <==>
            n == nid && lo <= p < hi && exists i :: 0 <= i < |e820| && InEntry(e820[i], p)
  {
    if e820 != [] {
      var before, e := e820[..|e820| - 1], e820[|e820| - 1];
      PiecesOfExact(before, nid, lo, hi, n, p);
      ClippedExact(e, lo, hi, p);
      var (found, s, t) := Clipped(e, lo, hi);
      if found {
        HasConcat(PiecesOf(before, nid, lo, hi), Region(nid, s, t), n, p);
      }
      assert (exists i :: 0 <= i < |e820| && InEntry(e820[i], p)) <==>
             (exists i :: 0 <= i < |before| && InEntry(before[i], p)) || InEntry(e, p) by {
        if i :| 0 <= i < |before| && InEntry(before[i], p) {
          assert InEntry(e820[i], p);
        }
        if InEntry(e, p) {
          assert InEntry(e820[|e820| - 1], p);
        }
        if i :| 0 <= i < |e820| && InEntry(e820[i], p) {
          assert i < |before| ==> InEntry(before[i], p);
        }
      }
    }
  }

  lemma {:induction false} HasAppend(a: seq<Region>, b: seq<Region>, n: int, p: nat)
    ensures Has(a + b, n, p) <==> Has(a, n, p) || Has(b, n, p)
  {
    if b == [] {
      assert a + b == a;
    } else {
      var c, q := b[..|b| - 1], b[|b| - 1];
      assert a + b == (a + c) + [q] && b == c + [q];
      HasAppend(a, c, n, p);
      HasConcat(a + c, q, n, p);
      HasConcat(c, q, n, p);
    }
  }

  // A page of node n in a whole RAM page of the map and in a block of that node.
  ghost predicate Wanted(e820: seq<Entry>, blocks: seq<Block>, n: int, p: nat) {
    && (exists i :: 0 <= i < |e820| && InEntry(e820[i], p))
    && (exists b :: 0 <= b < |blocks| && blocks[b].nid == n && InBlock(blocks[b], p))
  }

  ghost predicate Upright(blocks: seq<Block>) {
    forall b :: 0 <= b < |blocks| ==> blocks[b].start <= blocks[b].end
  }

  lemma {:induction false} AllPiecesExact(e820: seq<Entry>, blocks: seq<Block>, n: int, p: nat)
    requires Upright(blocks)
    ensures Has(AllPieces(e820, blocks), n, p) <==> Wanted(e820, blocks, n, p)
  {
    if blocks != [] {
      var before, b := blocks[..|blocks| - 1], blocks[|blocks| - 1];
      AllPiecesExact(e820, before, n, p);
      var lo, hi := b.start / PAGE_SIZE, b.end / PAGE_SIZE;
      PiecesOfExact(e820, b.nid, lo, hi, n, p);
      HasAppend(AllPieces(e820, before), PiecesOf(e820, b.nid, lo, hi), n, p);
      if i :| 0 <= i < |before| && before[i].nid == n && InBlock(before[i], p) {
        assert InBlock(blocks[i], p);
      }
      if i :| 0 <= i < |blocks| && blocks[i].nid == n && InBlock(blocks[i], p) {
        assert i < |before| ==> InBlock(before[i], p);
      }
    }
  }

  ghost predicate RamApart(e820: seq<Entry>) {
    forall i, j :: 0 <= i < j < |e820| ==> EntryApart(e820[j], e820[i])
  }

  ghost predicate BlocksApart(blocks: seq<Block>) {
    forall i, j :: 0 <= i < j < |blocks| ==>
      blocks[i].end <= blocks[j].start || blocks[j].end <= blocks[i].start
  }

  lemma PageMonotone(x: nat, y: nat)
    requires x <= y
    ensures x / PAGE_SIZE <= y / PAGE_SIZE
  {
  }

  lemma ClippedWithin(e: Entry, lo: nat, hi: nat)
    requires lo <= hi
    ensures var (found, s, t) := Clipped(e, lo, hi);
      found ==>
        lo <= s <= t <= hi && (e.addr + PAGE_SIZE - 1) / PAGE_SIZE <= s && t <= (e.addr + e.size) / PAGE_SIZE
  {
  }

  lemma EntriesGiveApart(e: Entry, f: Entry, lo: nat, hi: nat)
    requires lo <= hi && e.addr + e.size <= f.addr
    requires Clipped(e, lo, hi).0 && Clipped(f, lo, hi).0
    ensures Clipped(e, lo, hi).2 <= Clipped(f, lo, hi).1
  {
    ClippedWithin(e, lo, hi);
    ClippedWithin(f, lo, hi);
    PageMonotone(e.addr + e.size, f.addr + PAGE_SIZE - 1);
  }

  ghost predicate AllWithin(ps: seq<Region>, lo: nat, hi: nat) {
    forall j :: 0 <= j < |ps| ==> lo <= ps[j].start <= ps[j].end <= hi
  }

  lemma {:induction false} PieceFacts(e820: seq<Entry>, nid: int, lo: nat, hi: nat)
    requires lo <= hi
    ensures AllWithin(PiecesOf(e820, nid, lo, hi), lo, hi)
  {
    if e820 != [] {
      PieceFacts(e820[..|e820| - 1], nid, lo, hi);
      ClippedWithin(e820[|e820| - 1], lo, hi);
    }
  }

  ghost predicate EntryApart(e: Entry, f: Entry) {
    e.ram && f.ram ==> e.addr + e.size <= f.addr || f.addr + f.size <= e.addr
  }

  // A later entry's range is apart from those of the entries before it.
  lemma {:induction false} NewPieceApart(e820: seq<Entry>, e: Entry, nid: int, lo: nat, hi: nat)
    requires lo <= hi && Clipped(e, lo, hi).0
    requires forall i :: 0 <= i < |e820| ==> EntryApart(e, e820[i])
    ensures AllOutside(PiecesOf(e820, nid, lo, hi), Clipped(e, lo, hi).1, Clipped(e, lo, hi).2)
  {
    if e820 != [] {
      var before, f := e820[..|e820| - 1], e820[|e820| - 1];
      assert EntryApart(e, f);
      NewPieceApart(before, e, nid, lo, hi);
      if Clipped(f, lo, hi).0 {
        if e.addr + e.size <= f.addr {
          EntriesGiveApart(e, f, lo, hi);
        } else {
          EntriesGiveApart(f, e, lo, hi);
        }
      }
    }
  }

  lemma {:induction false} PiecesOfApart(e820: seq<Entry>, nid: int, lo: nat, hi: nat)
    requires RamApart(e820) && lo <= hi
    ensures PiecesApart(PiecesOf(e820, nid, lo, hi))
  {
    PieceFacts(e820, nid, lo, hi);
    if e820 != [] {
      var before, e := e820[..|e820| - 1], e820[|e820| - 1];
      PiecesOfApart(before, nid, lo, hi);
      if Clipped(e, lo, hi).0 {
        NewPieceApart(before, e, nid, lo, hi);
      }
    }
  }

  ghost predicate AllOutside(ps: seq<Region>, lo: nat, hi: nat) {
    forall j :: 0 <= j < |ps| ==> ps[j].end <= lo || hi <= ps[j].start
  }

  // Pieces of earlier blocks are outside a later block.
  lemma {:induction false} EarlierBlocksApart(e820: seq<Entry>, blocks: seq<Block>, lo: nat, hi: nat)
    requires Upright(blocks)
    requires forall b :: 0 <= b < |blocks| ==> blocks[b].end / PAGE_SIZE <= lo || hi <= blocks[b].start / PAGE_SIZE
    ensures AllOutside(AllPieces(e820, blocks), lo, hi)
  {
    if blocks != [] {
      var before, b := blocks[..|blocks| - 1], blocks[|blocks| - 1];
      EarlierBlocksApart(e820, before, lo, hi);
      PageMonotone(b.start, b.end);
      PieceFacts(e820, b.nid, b.start / PAGE_SIZE, b.end / PAGE_SIZE);
    }
  }

  lemma ApartConcat(a: seq<Region>, b: seq<Region>, lo: nat, hi: nat)
    requires PiecesApart(a) && PiecesApart(b)
    requires AllOutside(a, lo, hi) && AllWithin(b, lo, hi)
    ensures PiecesApart(a + b)
  {
    forall i, j | 0 <= i < j < |a + b|
      ensures Apart((a + b)[i], (a + b)[j])
    {
      if j < |a| {
        assert (a + b)[i] == a[i] && (a + b)[j] == a[j];
      } else if |a| <= i {
        assert (a + b)[i] == b[i - |a|] && (a + b)[j] == b[j - |a|];
      } else {
        assert (a + b)[i] == a[i] && (a + b)[j] == b[j - |a|];
      }
    }
  }

  lemma {:induction false} AllPiecesApart(e820: seq<Entry>, blocks: seq<Block>)
    requires RamApart(e820) && BlocksApart(blocks) && Upright(blocks)
    ensures PiecesApart(AllPieces(e820, blocks))
  {
    if blocks != [] {
      var before, b := blocks[..|blocks| - 1], blocks[|blocks| - 1];
      var lo, hi := b.start / PAGE_SIZE, b.end / PAGE_SIZE;
      AllPiecesApart(e820, before);
      PiecesOfApart(e820, b.nid, lo, hi);
      PieceFacts(e820, b.nid, lo, hi);
      forall i | 0 <= i < |before|
        ensures before[i].end / PAGE_SIZE <= lo || hi <= before[i].start / PAGE_SIZE
      {
        assert before[i] == blocks[i];
        if before[i].end <= b.start {
          PageMonotone(before[i].end, b.start);
        } else {
          PageMonotone(b.end, before[i].start);
        }
      }
      EarlierBlocksApart(e820, before, lo, hi);
      ApartConcat(AllPieces(e820, before), PiecesOf(e820, b.nid, lo, hi), lo, hi);
    }
  }

  // ---- Without an SRAT ----

  // No other entry reaches into a RAM entry.
  ghost predicate RamAlone(e820: seq<Entry>) {
    forall i, j :: 0 <= i < j < |e820| && (e820[i].ram || e820[j].ram) ==>
      e820[i].addr + e820[i].size <= e820[j].addr || e820[j].addr + e820[j].size <= e820[i].addr
  }

  // The whole pages of the RAM entries, one range for each that has any.
  function RamPieces(e820: seq<Entry>): (ps: seq<Region>)
    ensures |ps| <= |e820|
  {
    if e820 == [] then []
    else RamPieces(e820[..|e820| - 1]) + OwnPiece(e820[|e820| - 1])
  }

  function OwnPiece(e: Entry): (ps: seq<Region>)
    ensures |ps| <= 1
  {
    var s, t := (e.addr + PAGE_SIZE - 1) / PAGE_SIZE, (e.addr + e.size) / PAGE_SIZE;
    if e.ram && s < t then [Region(0, s, t)] else []
  }

  lemma ClipsNothingOf(e: Entry, f: Entry)
    requires f.ram ==> e.addr + e.size <= f.addr || f.addr + f.size <= e.addr
    ensures !Clipped(f, e.addr / PAGE_SIZE, (e.addr + e.size) / PAGE_SIZE).0
  {
    if f.ram {
      if e.addr + e.size <= f.addr {
        PageMonotone(e.addr + e.size, f.addr + PAGE_SIZE - 1);
      } else {
        PageMonotone(f.addr + f.size, e.addr);
      }
    }
  }

  lemma ClipsItself(e: Entry)
    ensures var (found, s, t) := Clipped(e, e.addr / PAGE_SIZE, (e.addr + e.size) / PAGE_SIZE);
      (if found then [Region(0, s, t)] else []) == OwnPiece(e)
  {
    PageMonotone(e.addr, e.addr + PAGE_SIZE - 1);
  }

  // An entry that serves as a block picks up its own pages and no others.
  lemma {:induction false} OwnPieces(e820: seq<Entry>, k: nat, m: nat)
    requires RamAlone(e820) && k < |e820| && m <= |e820|
    ensures var e := e820[k];
      PiecesOf(e820[..m], 0, e.addr / PAGE_SIZE, (e.addr + e.size) / PAGE_SIZE) == if k < m then OwnPiece(e) else []
  {
    hide Clipped, OwnPiece;
    if m > 0 {
      assert e820[..m][..m - 1] == e820[..m - 1];
      OwnPieces(e820, k, m - 1);
      if m - 1 == k {
        ClipsItself(e820[k]);
      } else {
        ClipsNothingOf(e820[k], e820[m - 1]);
      }
    }
  }

  lemma {:induction false} RegistersRam(e820: seq<Entry>, k: nat)
    requires RamAlone(e820) && k <= |e820|
    ensures AllPieces(e820, OwnBlocks(e820)[..k]) == RamPieces(e820[..k])
  {
    hide OwnPiece, PiecesOf;
    if k > 0 {
      var own := OwnBlocks(e820);
      assert own[..k][..k - 1] == own[..k - 1] && e820[..k][..k - 1] == e820[..k - 1];
      RegistersRam(e820, k - 1);
      OwnPieces(e820, k - 1, |e820|);
      assert e820[..|e820|] == e820;
    }
  }

  lemma OwnPieceOutside(e: Entry, f: Entry, r: Region, q: Region)
    requires (e.ram || f.ram) ==> e.addr + e.size <= f.addr || f.addr + f.size <= e.addr
    requires r in OwnPiece(e) && q in OwnPiece(f)
    ensures q.end <= r.start || r.end <= q.start
  {
    if e.addr + e.size <= f.addr {
      PageMonotone(e.addr + e.size, f.addr + PAGE_SIZE - 1);
    } else {
      PageMonotone(f.addr + f.size, e.addr + PAGE_SIZE - 1);
    }
  }

  lemma {:induction false} RamPiecesOutside(e820: seq<Entry>, e: Entry, r: Region)
    requires r in OwnPiece(e)
    requires forall i :: 0 <= i < |e820| && (e820[i].ram || e.ram) ==>
      e820[i].addr + e820[i].size <= e.addr || e.addr + e.size <= e820[i].addr
    ensures AllOutside(RamPieces(e820), r.start, r.end)
  {
    hide OwnPiece;
    if e820 != [] {
      var before, f := e820[..|e820| - 1], e820[|e820| - 1];
      RamPiecesOutside(before, e, r);
      if OwnPiece(f) != [] {
        OwnPieceOutside(e, f, r, OwnPiece(f)[0]);
      }
    }
  }

  lemma {:induction false} RamPiecesApart(e820: seq<Entry>)
    requires RamAlone(e820)
    ensures PiecesApart(RamPieces(e820))
    ensures forall k :: 0 <= k < |RamPieces(e820)| ==> RamPieces(e820)[k].start < RamPieces(e820)[k].end
  {
    if e820 != [] {
      var before, e := e820[..|e820| - 1], e820[|e820| - 1];
      RamPiecesApart(before);
      if OwnPiece(e) != [] {
        RamPiecesOutside(before, e, OwnPiece(e)[0]);
      }
    }
  }

  // ---- The sort ----

  function Insert(r: Region, m: seq<Region>): seq<Region> {
    if m == [] || r.start <= m[0].start then [r] + m else [m[0]] + Insert(r, m[1..])
  }

  // sort(early_node_map, ..., cmp_node_active_region): ascending by start.
  function SortedByStart(m: seq<Region>): seq<Region> {
    if m == [] then [] else Insert(m[0], SortedByStart(m[1..]))
  }

  ghost predicate Ascending(m: seq<Region>) {
    forall i, j :: 0 <= i < j < |m| ==> m[i].start <= m[j].start
  }

  lemma {:induction false} InsertPermutes(r: Region, m: seq<Region>)
    ensures multiset(Insert(r, m)) == multiset(m) + multiset{r}
  {
    if m != [] && r.start > m[0].start {
      InsertPermutes(r, m[1..]);
      assert m == [m[0]] + m[1..];
    }
  }

  // An inserted list's elements are the new one and the old ones.
  lemma {:induction false} InsertMembers(r: Region, m: seq<Region>, j: nat)
    requires j < |Insert(r, m)|
    ensures Insert(r, m)[j] == r || Insert(r, m)[j] in m
  {
    if m != [] && r.start > m[0].start && j > 0 {
      InsertMembers(r, m[1..], j - 1);
    }
  }

  lemma {:induction false} InsertKeeps(r: Region, m: seq<Region>)
    requires Ascending(m)
    ensures Ascending(Insert(r, m))
  {
    if m != [] && r.start > m[0].start {
      InsertKeeps(r, m[1..]);
      var rest := Insert(r, m[1..]);
      forall j | 0 <= j < |rest|
        ensures m[0].start <= rest[j].start
      {
        InsertMembers(r, m[1..], j);
      }
    }
  }

  lemma {:induction false} SortKeeps(m: seq<Region>)
    ensures Ascending(SortedByStart(m)) && multiset(SortedByStart(m)) == multiset(m)
  {
    if m != [] {
      SortKeeps(m[1..]);
      InsertKeeps(m[0], SortedByStart(m[1..]));
      InsertPermutes(m[0], SortedByStart(m[1..]));
      assert m == [m[0]] + m[1..];
    }
  }

  lemma PermutedHas(m: seq<Region>, m': seq<Region>, n: int, p: nat)
    requires multiset(m) == multiset(m') && Has(m, n, p)
    ensures Has(m', n, p)
  {
    var k :| 0 <= k < |m| && m[k].nid == n && InRegion(m[k], p);
    assert m[k] in multiset(m');
  }

  // ---- generate_node_map_from_e820_and_SRAT ----

  function GeneratedMap(e820: seq<Entry>, blocks: seq<Block>): seq<Region> {
    SortedByStart(AddedAll([], AllPieces(e820, Sources(e820, blocks))))
  }

  lemma SourcesUpright(e820: seq<Entry>, blocks: seq<Block>)
    requires Upright(blocks)
    ensures Upright(Sources(e820, blocks))
  {
  }

  // A whole RAM page of a block of node n; without any block, of node 0.
  ghost predicate Belongs(e820: seq<Entry>, blocks: seq<Block>, n: int, p: nat) {
    && (exists i :: 0 <= i < |e820| && InEntry(e820[i], p))
    && if blocks == [] then n == 0 else exists b :: 0 <= b < |blocks| && blocks[b].nid == n && InBlock(blocks[b], p)
  }

  lemma BelongsIsWanted(e820: seq<Entry>, blocks: seq<Block>, n: int, p: nat)
    ensures Belongs(e820, blocks, n, p) <==> Wanted(e820, Sources(e820, blocks), n, p)
  {
    if i :| 0 <= i < |e820| && InEntry(e820[i], p) {
      EntryHoldsBlock(e820[i], p);
      assert InBlock(OwnBlocks(e820)[i], p);
    }
  }

  lemma EntryHoldsBlock(e: Entry, p: nat)
    requires InEntry(e, p)
    ensures InBlock(Block(0, e.addr, e.addr + e.size), p)
  {
  }

  // Nothing in the inputs overlaps that should not.
  ghost predicate Disjoint(e820: seq<Entry>, blocks: seq<Block>) {
    Upright(blocks) && if blocks == [] then RamAlone(e820) else RamApart(e820) && BlocksApart(blocks)
  }

  // The table never has to drop a range.
  ghost predicate TableFits(e820: seq<Entry>, blocks: seq<Block>) {
    NeverDropped(AllPieces(e820, Sources(e820, blocks)))
  }

  lemma SourcesApart(e820: seq<Entry>, blocks: seq<Block>)
    requires Disjoint(e820, blocks)
    ensures PiecesApart(AllPieces(e820, Sources(e820, blocks)))
  {
    if blocks == [] {
      OwnRegistered(e820);
      RamPiecesApart(e820);
    } else {
      AllPiecesApart(e820, blocks);
    }
  }

  lemma OwnRegistered(e820: seq<Entry>)
    requires RamAlone(e820)
    ensures AllPieces(e820, Sources(e820, [])) == RamPieces(e820)
  {
    RegistersRam(e820, |e820|);
    assert OwnBlocks(e820)[..|e820|] == OwnBlocks(e820) && e820[..|e820|] == e820;
  }

  // Safety, on all inputs: every page in the map is a whole RAM page of a block of its
  // node, or of node 0 when there is no block.
  lemma MapIsWanted(e820: seq<Entry>, blocks: seq<Block>, n: int, p: nat)
    requires Upright(blocks) && Has(GeneratedMap(e820, blocks), n, p)
    ensures Belongs(e820, blocks, n, p)
  {
    BelongsIsWanted(e820, blocks, n, p);
    var ps := AllPieces(e820, Sources(e820, blocks));
    SourcesUpright(e820, blocks);
    SortKeeps(AddedAll([], ps));
    PermutedHas(GeneratedMap(e820, blocks), AddedAll([], ps), n, p);
    NothingInvented(ps, n, p);
    AllPiecesExact(e820, Sources(e820, blocks), n, p);
  }

  // Exactness: with disjoint inputs and room in the table, the map covers exactly those
  // pages, in ascending and disjoint regions.
  lemma MapIsExact(e820: seq<Entry>, blocks: seq<Block>, n: int, p: nat)
    requires Disjoint(e820, blocks) && TableFits(e820, blocks)
    ensures Has(GeneratedMap(e820, blocks), n, p) <==> Belongs(e820, blocks, n, p)
    ensures Ascending(GeneratedMap(e820, blocks)) && AllApart(GeneratedMap(e820, blocks))
  {
    var ps := AllPieces(e820, Sources(e820, blocks));
    BelongsIsWanted(e820, blocks, n, p);
    SourcesUpright(e820, blocks);
    SourcesApart(e820, blocks);
    RecordsAll(ps);
    AllPiecesExact(e820, Sources(e820, blocks), n, p);
    SortKeeps(AddedAll([], ps));
    if Has(AddedAll([], ps), n, p) {
      PermutedHas(AddedAll([], ps), GeneratedMap(e820, blocks), n, p);
    }
    if Has(GeneratedMap(e820, blocks), n, p) {
      PermutedHas(GeneratedMap(e820, blocks), AddedAll([], ps), n, p);
    }
    SortApart(AddedAll([], ps));
  }

  // A machine without an SRAT: its RAM pages are those of node 0, and no other node has any.
  lemma NoSratExact(e820: seq<Entry>, n: int, p: nat)
    requires RamAlone(e820) && |e820| <= MAX_ACTIVE_REGIONS
    ensures Has(GeneratedMap(e820, []), n, p) <==>
      n == 0 && exists i :: 0 <= i < |e820| && InEntry(e820[i], p)
  {
    OwnRegistered(e820);
    FewPiecesFit(RamPieces(e820));
    MapIsExact(e820, [], n, p);
  }

  // An entry of another type that reaches into RAM and comes first can cost pages.
  lemma ReservedInRamLosesPages()
    ensures var e820 := [Entry(0x2000, 0x1000, false), Entry(0x1000, 0x4000, true)];
      InEntry(e820[1], 1) && !Has(GeneratedMap(e820, []), 0, 1)
  {
    hide PiecesOf, AddedAll, SortedByStart;
    var f, e := Entry(0x2000, 0x1000, false), Entry(0x1000, 0x4000, true);
    var e820, own := [f, e], OwnBlocks([f, e]);
    assert own == [Block(0, 0x2000, 0x3000), Block(0, 0x1000, 0x5000)];
    assert own[..1] == [own[0]] && own[..1][..0] == [];
    PiecesOfTwo(f, e, 2, 3);
    PiecesOfTwo(f, e, 1, 5);
    assert AllPieces(e820, []) == [];
    assert AllPieces(e820, own[..1]) == [Region(0, 2, 3)];
    assert AllPieces(e820, own) == [Region(0, 2, 3), Region(0, 1, 5)];
    TwoEngulfed();
  }

  lemma PiecesOfTwo(f: Entry, e: Entry, lo: nat, hi: nat)
    requires f == Entry(0x2000, 0x1000, false) && e == Entry(0x1000, 0x4000, true) && 1 <= lo < hi <= 5
    ensures PiecesOf([f, e], 0, lo, hi) == [Region(0, lo, hi)]
  {
    assert [f, e][..1] == [f] && [f][..0] == [];
    assert PiecesOf([f], 0, lo, hi) == [];
  }

  lemma TwoEngulfed()
    ensures !Has(SortedByStart(AddedAll([], [Region(0, 2, 3), Region(0, 1, 5)])), 0, 1)
  {
    var r, q := Region(0, 2, 3), Region(0, 1, 5);
    assert [r, q][..1] == [r] && [r][..0] == [];
    assert AddedAll([], [r]) == Added([], 0, 2, 3) == [r];
    EngulfingLosesPages();
    var m := AddedAll([], [r, q]);
    assert m == Added([r], 0, 1, 5);
    SortKeeps(m);
    if Has(SortedByStart(m), 0, 1) {
      PermutedHas(SortedByStart(m), m, 0, 1);
    }
  }

  lemma {:induction false} SortApart(m: seq<Region>)
    requires AllApart(m)
    ensures AllApart(SortedByStart(m))
  {
    if m != [] {
      SortApart(m[1..]);
      SortKeeps(m[1..]);
      var rest := SortedByStart(m[1..]);
      forall j | 0 <= j < |rest| && m[0].start < m[0].end && rest[j].start < rest[j].end
        ensures Apart(m[0], rest[j])
      {
        assert rest[j] in multiset(m[1..]);
        var k :| 0 <= k < |m[1..]| && m[1..][k] == rest[j];
        assert m[k + 1] == rest[j];
      }
      InsertApart(m[0], rest);
    }
  }

  lemma {:induction false} InsertApart(r: Region, m: seq<Region>)
    requires AllApart(m)
    requires forall j :: 0 <= j < |m| && r.start < r.end && m[j].start < m[j].end ==> Apart(r, m[j])
    ensures AllApart(Insert(r, m))
  {
    if m != [] && r.start > m[0].start {
      InsertApart(r, m[1..]);
      var rest := Insert(r, m[1..]);
      forall j | 0 <= j < |rest| && m[0].start < m[0].end && rest[j].start < rest[j].end
        ensures Apart(m[0], rest[j])
      {
        InsertMembers(r, m[1..], j);
        if rest[j] != r {
          var k :| 0 <= k < |m[1..]| && m[1..][k] == rest[j];
          assert m[k + 1] == rest[j];
        }
      }
    }
  }
}
