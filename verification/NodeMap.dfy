// From BIOS e820 entries and NUMA memory blocks to the node map: e820_kernel.c and
// the first half of numa.c.  Addresses are byte addresses, pfns are page numbers.
module NodeMap {
  import opened Common

  const MAX_ACTIVE_REGIONS: nat := 256

  datatype Entry = Entry(addr: nat, size: nat, ram: bool)         // struct e820entry
  datatype Block = Block(nid: int, start: nat, end: nat)          // node_memblk_range + memblk_nodeid
  datatype Region = Region(nid: int, start: nat, end: nat)        // struct node_active_region, in pfns

  // Page p lies wholly inside a RAM entry.
  predicate InEntry(e: Entry, p: nat) {
    e.ram && e.addr <= p * PAGE_SIZE && (p + 1) * PAGE_SIZE <= e.addr + e.size
  }

  predicate InRegion(r: Region, p: nat) {
    r.start <= p < r.end
  }

  predicate InBlock(b: Block, p: nat) {
    b.start / PAGE_SIZE <= p < b.end / PAGE_SIZE
  }

  ghost predicate Has(m: seq<Region>, nid: int, p: nat) {
    exists k :: 0 <= k < |m| && m[k].nid == nid && InRegion(m[k], p)
  }

  // ---- e820_find_active_region ----

  // The whole pages of an entry that lie in [lo, hi), if any may.
  function Clipped(e: Entry, lo: nat, hi: nat): (r: (bool, nat, nat)) {
    var s := (e.addr + PAGE_SIZE - 1) / PAGE_SIZE;
    var t := (e.addr + e.size) / PAGE_SIZE;
    if s >= t || !e.ram || t <= lo || s >= hi then (false, s, t)
    else (true, if s < lo then lo else s, if t > hi then hi else t)
  }

  lemma WholePages(e: Entry, p: nat)
    requires e.ram
    ensures InEntry(e, p) <==> (e.addr + PAGE_SIZE - 1) / PAGE_SIZE <= p < (e.addr + e.size) / PAGE_SIZE
  {
  }

  // Exactly the whole RAM pages of the entry in [lo, hi).
  lemma ClippedExact(e: Entry, lo: nat, hi: nat, p: nat)
    requires lo <= hi
    ensures var (found, s, t) := Clipped(e, lo, hi);
      && (found && s <= p < t <==> InEntry(e, p) && lo <= p < hi)
      && (found ==> s <= t && (lo < hi ==> s < t))
  {
    if e.ram {
      WholePages(e, p);
    }
  }

  method FindActiveRegion(e: Entry, lo: nat, hi: nat) returns (found: bool, s: nat, t: nat)
    ensures (found, s, t) == Clipped(e, lo, hi)
    ensures lo <= hi ==> forall p: nat :: found && s <= p < t <==> InEntry(e, p) && lo <= p < hi
  {
    if lo <= hi {
      ghost var c := Clipped(e, lo, hi);
      forall p: nat
        ensures c.0 && c.1 <= p < c.2 <==> InEntry(e, p) && lo <= p < hi
      {
        ClippedExact(e, lo, hi, p);
      }
    }
    s := (e.addr + PAGE_SIZE - 1) / PAGE_SIZE;
    t := (e.addr + e.size) / PAGE_SIZE;
    if s >= t {
      return false, s, t;
    }
    if !e.ram || t <= lo || s >= hi {
      return false, s, t;
    }
    if s < lo {
      s := lo;
    }
    if t > hi {
      t := hi;
    }
    return true, s, t;
  }

  // ---- add_active_range ----

  predicate CoversRange(r: Region, s: nat, t: nat) { s >= r.start && t <= r.end }
  predicate MergesForward(r: Region, s: nat, t: nat) { s <= r.end && t > r.end }
  predicate MergesBackward(r: Region, s: nat, t: nat) { s < r.end && t >= r.start }

  predicate Reacts(r: Region, nid: int, s: nat, t: nat) {
    r.nid == nid && (CoversRange(r, s, t) || MergesForward(r, s, t) || MergesBackward(r, s, t))
  }

  // The first entry from i on that reacts to the new range.
  function FirstReacting(m: seq<Region>, nid: int, s: nat, t: nat, i: nat): (k: nat)
    requires i <= |m|
    ensures i <= k <= |m|
    ensures forall j :: i <= j < k ==> !Reacts(m[j], nid, s, t)
    ensures k < |m| ==> Reacts(m[k], nid, s, t)
    decreases |m| - i
  {
    if i == |m| || Reacts(m[i], nid, s, t) then i else FirstReacting(m, nid, s, t, i + 1)
  }

  function Added(m: seq<Region>, nid: int, s: nat, t: nat): seq<Region> {
    var k := FirstReacting(m, nid, s, t, 0);
    if k == |m| then (if k >= MAX_ACTIVE_REGIONS then m else m + [Region(nid, s, t)])
    else if CoversRange(m[k], s, t) then m
    else if MergesForward(m[k], s, t) then m[k := m[k].(end := t)]
    else m[k := m[k].(start := s)]
  }

  class Table {
    var entries: seq<Region>  // early_node_map[0..nr_nodemap_entries)

    constructor ()
      ensures entries == []
    {
      entries := [];
    }

    method AddActiveRange(nid: int, s: nat, t: nat)
      modifies this
      ensures entries == Added(old(entries), nid, s, t)
    {
      var i := 0;
      while i < |entries|
        invariant i <= |entries| && entries == old(entries)
        invariant FirstReacting(entries, nid, s, t, i) == FirstReacting(entries, nid, s, t, 0)
      {
        if entries[i].nid == nid {
          if s >= entries[i].start && t <= entries[i].end {
            return;
          }
          if s <= entries[i].end && t > entries[i].end {
            entries := entries[i := entries[i].(end := t)];
            return;
          }
          if s < entries[i].end && t >= entries[i].start {
            entries := entries[i := entries[i].(start := s)];
            return;
          }
        }
        i := i + 1;
      }
      if i >= MAX_ACTIVE_REGIONS {
        return;
      }
      entries := entries + [Region(nid, s, t)];
    }

    // e820_register_active_regions.
    method RegisterActiveRegions(e820: seq<Entry>, nid: int, lo: nat, hi: nat)
      modifies this
      ensures entries == AddedAll(old(entries), PiecesOf(e820, nid, lo, hi))
    {
      hide Clipped, Added;
      var i := 0;
      while i < |e820|
        invariant i <= |e820| && entries == AddedAll(old(entries), PiecesOf(e820[..i], nid, lo, hi))
      {
        var found, s, t := FindActiveRegion(e820[i], lo, hi);
        assert e820[..i + 1][..i] == e820[..i];
        if found {
          AddActiveRange(nid, s, t);
        }
        i := i + 1;
      }
      assert e820[..i] == e820;
    }

    // The loops of generate_node_map_from_e820_and_SRAT, before the sort.
    method Generate(e820: seq<Entry>, blocks: seq<Block>)
      modifies this
      ensures entries == AddedAll(old(entries), AllPieces(e820, Sources(e820, blocks)))
    {
      assert AddedAll(entries, []) == entries;
      hide PiecesOf, AddedAll;
      var i := 0;
      while i < |blocks|
        invariant i <= |blocks| && entries == AddedAll(old(entries), AllPieces(e820, blocks[..i]))
      {
        ghost var before := entries;
        RegisterActiveRegions(e820, blocks[i].nid, blocks[i].start / PAGE_SIZE, blocks[i].end / PAGE_SIZE);
        assert blocks[..i + 1][..i] == blocks[..i];
        AddedAllConcat(old(entries), AllPieces(e820, blocks[..i]),
          PiecesOf(e820, blocks[i].nid, blocks[i].start / PAGE_SIZE, blocks[i].end / PAGE_SIZE));
        i := i + 1;
      }
      assert blocks[..i] == blocks;
      if |blocks| == 0 {
        i := 0;
        ghost var own := OwnBlocks(e820);
        while i < |e820|
          invariant i <= |e820| && entries == AddedAll(old(entries), AllPieces(e820, own[..i]))
        {
          RegisterActiveRegions(e820, 0, e820[i].addr / PAGE_SIZE, (e820[i].addr + e820[i].size) / PAGE_SIZE);
          assert own[..i + 1][..i] == own[..i];
          AddedAllConcat(old(entries), AllPieces(e820, own[..i]),
            PiecesOf(e820, 0, e820[i].addr / PAGE_SIZE, (e820[i].addr + e820[i].size) / PAGE_SIZE));
          i := i + 1;
        }
        assert own[..i] == own;
      }
    }
  }

  // The ranges registered for one block, and for a list of blocks, in order.
  function PiecesOf(e820: seq<Entry>, nid: int, lo: nat, hi: nat): seq<Region> {
    if e820 == [] then []
    else
      var before := PiecesOf(e820[..|e820| - 1], nid, lo, hi);
      var (found, s, t) := Clipped(e820[|e820| - 1], lo, hi);
      if found then before + [Region(nid, s, t)] else before
  }

  function AllPieces(e820: seq<Entry>, blocks: seq<Block>): seq<Region> {
    if blocks == [] then []
    else
      var b := blocks[|blocks| - 1];
      AllPieces(e820, blocks[..|blocks| - 1]) + PiecesOf(e820, b.nid, b.start / PAGE_SIZE, b.end / PAGE_SIZE)
  }

  // Without an SRAT every e820 entry serves as a block of node 0.
  function OwnBlocks(e820: seq<Entry>): (bs: seq<Block>)
    ensures |bs| == |e820|
    ensures forall i :: 0 <= i < |bs| ==> bs[i] == Block(0, e820[i].addr, e820[i].addr + e820[i].size)
  {
    seq(|e820|, i requires 0 <= i < |e820| => Block(0, e820[i].addr, e820[i].addr + e820[i].size))
  }

  function Sources(e820: seq<Entry>, blocks: seq<Block>): seq<Block> {
    if blocks == [] then OwnBlocks(e820) else blocks
  }

  function AddedAll(m: seq<Region>, ps: seq<Region>): seq<Region> {
    if ps == [] then m
    else
      var p := ps[|ps| - 1];
      Added(AddedAll(m, ps[..|ps| - 1]), p.nid, p.start, p.end)
  }

  lemma {:induction false} AddedAllConcat(m: seq<Region>, a: seq<Region>, b: seq<Region>)
    ensures AddedAll(m, a + b) == AddedAll(AddedAll(m, a), b)
  {
    if b == [] {
      assert a + b == a;
    } else {
      assert (a + b)[..|a + b| - 1] == a + b[..|b| - 1];
      AddedAllConcat(m, a, b[..|b| - 1]);
    }
  }
}
