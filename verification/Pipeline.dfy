// End to end: from the BIOS memory map to the slices that the tests write.
module Pipeline {
  import opened Common
  import opened NodeMap
  import opened NodeMapFacts
  import opened BootMap
  import opened TaskSlices
  import MovInv
  import TestPolicy

  // A byte interval of physical memory.
  predicate Holds(s: Slice, x: int) {
    s.phyStart <= x < s.phyStart + (s.end - s.start)
  }

  function BootList(e820: seq<Entry>, blocks: seq<Block>, memLimit: nat): seq<Boot> {
    Kept(Boots(GeneratedMap(e820, blocks), memLimit / PAGE_SIZE))
  }

  // Registration keeps start <= end.
  ghost predicate UprightMap(m: seq<Region>) {
    forall k :: 0 <= k < |m| ==> m[k].start <= m[k].end
  }

  lemma {:induction false} AddedAllUpright(ps: seq<Region>)
    requires UprightMap(ps)
    ensures UprightMap(AddedAll([], ps))
  {
    if ps != [] {
      AddedAllUpright(ps[..|ps| - 1]);
    }
  }

  lemma {:induction false} AllPiecesUpright(e820: seq<Entry>, blocks: seq<Block>)
    requires Upright(blocks)
    ensures UprightMap(AllPieces(e820, blocks))
  {
    if blocks != [] {
      var b := blocks[|blocks| - 1];
      AllPiecesUpright(e820, blocks[..|blocks| - 1]);
      PageMonotone(b.start, b.end);
      PieceFacts(e820, b.nid, b.start / PAGE_SIZE, b.end / PAGE_SIZE);
    }
  }

  lemma {:induction false} SortUpright(m: seq<Region>)
    requires UprightMap(m)
    ensures UprightMap(SortedByStart(m))
  {
    SortKeeps(m);
    forall k | 0 <= k < |SortedByStart(m)|
      ensures SortedByStart(m)[k].start <= SortedByStart(m)[k].end
    {
      assert SortedByStart(m)[k] in multiset(m);
    }
  }

  lemma {:induction false} BootsOrdered(m: seq<Region>, limit: nat)
    requires UprightMap(m)
    ensures Ordered(Boots(m, limit))
  {
    if m != [] {
      BootsOrdered(m[..|m| - 1], limit);
    }
  }

  lemma BootListOrdered(e820: seq<Entry>, blocks: seq<Block>, memLimit: nat)
    requires Upright(blocks)
    ensures Ordered(BootList(e820, blocks, memLimit))
  {
    SourcesUpright(e820, blocks);
    AllPiecesUpright(e820, Sources(e820, blocks));
    AddedAllUpright(AllPieces(e820, Sources(e820, blocks)));
    SortUpright(AddedAll([], AllPieces(e820, Sources(e820, blocks))));
    BootsOrdered(GeneratedMap(e820, blocks), memLimit / PAGE_SIZE);
  }

  // A page of a kept writable region is a whole RAM page at or above the limit.
  lemma WritablePageIsSafe(e820: seq<Entry>, blocks: seq<Block>, memLimit: nat, k: nat, p: nat)
    requires Upright(blocks) && k < |BootList(e820, blocks, memLimit)|
    requires var b := BootList(e820, blocks, memLimit)[k]; b.writable && b.start <= p < b.end
    ensures memLimit / PAGE_SIZE <= p && exists i :: 0 <= i < |e820| && InEntry(e820[i], p)
  {
    var m, limit := GeneratedMap(e820, blocks), memLimit / PAGE_SIZE;
    var b := Boots(m, limit)[k];
    assert HasBoot(Boots(m, limit), b.nid, p, true);
    BootsExact(m, limit, b.nid, p, true);
    MapIsWanted(e820, blocks, b.nid, p);
  }

  lemma WholeBetween(a: nat, b: nat)
    requires a < b && a % PAGE_SIZE == 0 && b % PAGE_SIZE == 0
    ensures TestPolicy.WholePages(b - a)
  {
  }

  // The range is a positive number of whole pages inside the region, and meets the window.
  ghost predicate ComesFrom(r: RwRange, b: Boot, w: Window) {
    && b.writable && b.start * PAGE_SIZE <= r.phyStart && r.phyEnd <= b.end * PAGE_SIZE
    && r.start <= r.end && r.end - r.start == r.phyEnd - r.phyStart
    && TestPolicy.WholePages(r.phyEnd - r.phyStart)
    && w.start < r.phyEnd && r.phyStart < w.end
  }

  lemma OwnRange(b: Boot, w: Window, mapping: Option<nat>)
    requires b.start <= b.end && w.start <= w.end
    ensures RwOf(b, w, mapping) == [] || (|RwOf(b, w, mapping)| == 1 && ComesFrom(RwOf(b, w, mapping)[0], b, w))
  {
    if RwOf(b, w, mapping) != [] {
      AlignedInside(b, w);
      CutExact(b.start * PAGE_SIZE, (b.end - b.start) * PAGE_SIZE, w, 0);
      WholeBetween(Aligned(b, w).value.start, Aligned(b, w).value.end);
    }
  }

  // Every listed range comes from one of the regions.
  lemma {:induction false} RangeHasRegion(bs: seq<Boot>, w: Window, maps: seq<Option<nat>>, i: nat, j: nat)
    returns (k: nat)
    requires Ordered(bs) && |maps| == |bs| && i <= |bs| && w.start <= w.end
    requires j < |RwFrom(bs, w, maps, i)|
    ensures i <= k < |bs| && ComesFrom(RwFrom(bs, w, maps, i)[j], bs[k], w)
    decreases |bs| - i
  {
    hide RwOf, ComesFrom;
    OwnRange(bs[i], w, maps[i]);
    var here := RwOf(bs[i], w, maps[i]);
    if j < |here| {
      k := i;
    } else {
      k := RangeHasRegion(bs, w, maps, i + 1, j - |here|);
    }
  }

  // Some slice of the range holds physical byte x.
  ghost predicate Writes(rw: RwRange, cores: nat, specific: Option<int>, x: int)
    requires cores > 0 && rw.start <= rw.end
  {
    exists n :: 0 <= n < |TestPolicy.Slices(rw, cores, specific)| && Holds(TestPolicy.Slices(rw, cores, specific)[n], x)
  }

  lemma SliceInRange(rw: RwRange, cores: nat, specific: Option<int>, n: nat, x: nat)
    requires cores > 0 && rw.start <= rw.end && rw.end - rw.start == rw.phyEnd - rw.phyStart
    requires TestPolicy.WholePages(rw.end - rw.start) && n < |TestPolicy.Slices(rw, cores, specific)|
    requires Holds(TestPolicy.Slices(rw, cores, specific)[n], x)
    ensures rw.phyStart <= x < rw.phyEnd
  {
    TestPolicy.SlicesContiguous(rw, cores, specific, n);
    TestPolicy.SlicesPartition(rw, cores, specific, rw.start + (x - rw.phyStart));
  }

  lemma ByteHasSlice(rw: RwRange, cores: nat, specific: Option<int>, x: nat)
    requires cores > 0 && rw.start <= rw.end && rw.end - rw.start == rw.phyEnd - rw.phyStart
    requires TestPolicy.WholePages(rw.end - rw.start) && rw.phyStart <= x < rw.phyEnd
    ensures Writes(rw, cores, specific, x)
  {
    var s, y := TestPolicy.Slices(rw, cores, specific), rw.start + (x - rw.phyStart);
    TestPolicy.SlicesPartition(rw, cores, specific, y);
    var n :| 0 <= n < |s| && s[n].start <= y < s[n].end;
    TestPolicy.SlicesContiguous(rw, cores, specific, n);
    assert Holds(s[n], x);
  }

  // The slices of a range of whole pages hold exactly its bytes.
  lemma WritesExactly(rw: RwRange, cores: nat, specific: Option<int>, x: nat)
    requires cores > 0 && rw.start <= rw.end && rw.end - rw.start == rw.phyEnd - rw.phyStart
    requires TestPolicy.WholePages(rw.end - rw.start)
    ensures Writes(rw, cores, specific, x) <==> rw.phyStart <= x < rw.phyEnd
  {
    if rw.phyStart <= x < rw.phyEnd {
      ByteHasSlice(rw, cores, specific, x);
    } else if Writes(rw, cores, specific, x) {
      var n :| 0 <= n < |TestPolicy.Slices(rw, cores, specific)| && Holds(TestPolicy.Slices(rw, cores, specific)[n], x);
      SliceInRange(rw, cores, specific, n, x);
    }
  }

  lemma PageOf(lo: nat, hi: nat, x: nat)
    requires lo * PAGE_SIZE <= x < hi * PAGE_SIZE
    ensures lo <= x / PAGE_SIZE < hi
  {
  }

  lemma RangeIsWholePages(bs: seq<Boot>, w: Window, maps: seq<Option<nat>>, i: nat, j: nat)
    requires Ordered(bs) && |maps| == |bs| && i <= |bs| && w.start <= w.end
    requires j < |RwFrom(bs, w, maps, i)|
    ensures var r := RwFrom(bs, w, maps, i)[j];
      r.start <= r.end && r.end - r.start == r.phyEnd - r.phyStart && TestPolicy.WholePages(r.end - r.start)
  {
    hide RwFrom;
    var k := RangeHasRegion(bs, w, maps, i, j);
  }

  // A page in the kept list of writable regions.
  ghost predicate Writable(bs: seq<Boot>, p: nat) {
    exists k :: 0 <= k < |bs| && bs[k].writable && bs[k].start <= p < bs[k].end
  }

  lemma RangeIsWritable(bs: seq<Boot>, w: Window, maps: seq<Option<nat>>, i: nat, j: nat, x: nat)
    requires Ordered(bs) && |maps| == |bs| && i <= |bs| && w.start <= w.end
    requires j < |RwFrom(bs, w, maps, i)|
    requires RwFrom(bs, w, maps, i)[j].phyStart <= x < RwFrom(bs, w, maps, i)[j].phyEnd
    ensures Writable(bs, x / PAGE_SIZE)
  {
    var k := RangeHasRegion(bs, w, maps, i, j);
    PageOf(bs[k].start, bs[k].end, x);
  }

  // The safety of the whole tool: whatever the memory map, the NUMA blocks, the limit,
  // the window, the mappings and the CPU choice, every byte of every read/write slice
  // is in a page at or above the limit, in a RAM entry that holds the whole page, and
  // in a writable region.
  lemma SlicesAreSafe(e820: seq<Entry>, blocks: seq<Block>, memLimit: nat, w: Window, maps: seq<Option<nat>>,
                      stop: nat, j: nat, cores: nat, specific: Option<int>, x: nat)
    requires Upright(blocks) && w.start <= w.end && cores > 0
    requires Ordered(BootList(e820, blocks, memLimit)) && |maps| == |BootList(e820, blocks, memLimit)|
    requires stop <= |maps| && j < |RwFrom(BootList(e820, blocks, memLimit), w, maps, stop)|
    requires var rw := RwFrom(BootList(e820, blocks, memLimit), w, maps, stop)[j];
      rw.start <= rw.end && Writes(rw, cores, specific, x)
    ensures memLimit / PAGE_SIZE <= x / PAGE_SIZE
    ensures exists i :: 0 <= i < |e820| && InEntry(e820[i], x / PAGE_SIZE)
    ensures Writable(BootList(e820, blocks, memLimit), x / PAGE_SIZE)
  {
    hide BootList, RwFrom, Writes, InEntry, Ordered;
    var bs := BootList(e820, blocks, memLimit);
    RangeIsWholePages(bs, w, maps, stop, j);
    WritesExactly(RwFrom(bs, w, maps, stop)[j], cores, specific, x);
    RangeIsWritable(bs, w, maps, stop, j, x);
    var k :| 0 <= k < |bs| && bs[k].writable && bs[k].start <= x / PAGE_SIZE < bs[k].end;
    WritablePageIsSafe(e820, blocks, memLimit, k, x / PAGE_SIZE);
  }

  lemma WordsNeverSkip(size: nat)
    requires TestPolicy.WholePages(size)
    ensures size / 8 * 8 == size && !MovInv.Skips(size / 8)
  {
    MovInv.WholePagesNeverSkip(size / 8);
  }

  // Every slice is a whole number of pages, so its number of 64-bit words is one for
  // which the moving-inversion tests skip nothing.
  lemma SlicesNeverSkip(bs: seq<Boot>, w: Window, maps: seq<Option<nat>>, stop: nat, j: nat,
                        cores: nat, specific: Option<int>, n: nat)
    requires w.start <= w.end && cores > 0 && Ordered(bs) && |maps| == |bs|
    requires stop <= |maps| && j < |RwFrom(bs, w, maps, stop)|
    requires var rw := RwFrom(bs, w, maps, stop)[j];
      rw.start <= rw.end && n < |TestPolicy.Slices(rw, cores, specific)|
    ensures var s := TestPolicy.Slices(RwFrom(bs, w, maps, stop)[j], cores, specific)[n];
      s.start <= s.end && !MovInv.Skips((s.end - s.start) / 8) && (s.end - s.start) / 8 * 8 == s.end - s.start
  {
    hide RwFrom, TestPolicy.Slices;
    RangeIsWholePages(bs, w, maps, stop, j);
    var rw := RwFrom(bs, w, maps, stop)[j];
    TestPolicy.SliceIsWholePages(rw, cores, specific, n);
    WordsNeverSkip(TestPolicy.Slices(rw, cores, specific)[n].end - TestPolicy.Slices(rw, cores, specific)[n].start);
  }

  // Completeness: when no mapping fails, every byte of every writable region inside the
  // window is in some slice.
  lemma {:induction false} WindowIsTested(bs: seq<Boot>, w: Window, maps: seq<Option<nat>>, i: nat, k: nat, x: nat)
    returns (j: nat)
    requires Ordered(bs) && |maps| == |bs| && i <= k < |bs| && w.start <= w.end
    requires forall a :: 0 <= a < |bs| ==> !MapFails(bs, w, maps, a)
    requires bs[k].writable && bs[k].start * PAGE_SIZE <= x < bs[k].end * PAGE_SIZE && w.start <= x < w.end
    ensures j < |RwFrom(bs, w, maps, i)|
    ensures RwFrom(bs, w, maps, i)[j].phyStart <= x < RwFrom(bs, w, maps, i)[j].phyEnd
    decreases k - i
  {
    var here := RwOf(bs[i], w, maps[i]);
    if i == k {
      CutExact(bs[i].start * PAGE_SIZE, (bs[i].end - bs[i].start) * PAGE_SIZE, w, x);
      AlignedInside(bs[i], w);
      assert !MapFails(bs, w, maps, i);
      j := 0;
    } else {
      var j' := WindowIsTested(bs, w, maps, i + 1, k, x);
      j := |here| + j';
    }
  }

  lemma WritableAbove(e820: seq<Entry>, blocks: seq<Block>, memLimit: nat, n: int, p: nat) returns (k: nat)
    requires Disjoint(e820, blocks) && TableFits(e820, blocks)
    requires Belongs(e820, blocks, n, p) && memLimit / PAGE_SIZE <= p
    ensures k < |Boots(GeneratedMap(e820, blocks), memLimit / PAGE_SIZE)|
    ensures var b := Boots(GeneratedMap(e820, blocks), memLimit / PAGE_SIZE)[k];
      b.writable && b.start <= p < b.end
  {
    MapIsExact(e820, blocks, n, p);
    var bs := Boots(GeneratedMap(e820, blocks), memLimit / PAGE_SIZE);
    BootsExact(GeneratedMap(e820, blocks), memLimit / PAGE_SIZE, n, p, true);
    k :| 0 <= k < |bs| && bs[k].writable && bs[k].start <= p < bs[k].end;
  }

  lemma PageHolds(lo: nat, hi: nat, x: nat)
    requires lo <= x / PAGE_SIZE < hi
    ensures lo * PAGE_SIZE <= x < hi * PAGE_SIZE
  {
  }

  lemma RegionIsTested(bs: seq<Boot>, w: Window, maps: seq<Option<nat>>, cores: nat, specific: Option<int>,
                       k: nat, x: nat)
    returns (j: nat)
    requires Ordered(bs) && |maps| == |bs| && k < |bs| && w.start <= x < w.end && cores > 0
    requires forall a :: 0 <= a < |bs| ==> !MapFails(bs, w, maps, a)
    requires bs[k].writable && bs[k].start <= x / PAGE_SIZE < bs[k].end
    ensures j < |RwFrom(bs, w, maps, 0)| && RwFrom(bs, w, maps, 0)[j].start <= RwFrom(bs, w, maps, 0)[j].end
    ensures Writes(RwFrom(bs, w, maps, 0)[j], cores, specific, x)
  {
    hide RwFrom, Writes, MapFails;
    PageHolds(bs[k].start, bs[k].end, x);
    j := WindowIsTested(bs, w, maps, 0, k, x);
    RangeIsWholePages(bs, w, maps, 0, j);
    WritesExactly(RwFrom(bs, w, maps, 0)[j], cores, specific, x);
  }

  // What the window holds of a wanted page at or above the limit is in some range, with
  // disjoint inputs, room in both tables and no failed mapping.
  lemma WantedIsTested(e820: seq<Entry>, blocks: seq<Block>, memLimit: nat, w: Window, maps: seq<Option<nat>>,
                       cores: nat, specific: Option<int>, n: int, x: nat) returns (j: nat)
    requires Disjoint(e820, blocks) && TableFits(e820, blocks)
    requires |Boots(GeneratedMap(e820, blocks), memLimit / PAGE_SIZE)| <= MAX_BOOTMEM_REGIONS
    requires Ordered(BootList(e820, blocks, memLimit)) && |maps| == |BootList(e820, blocks, memLimit)|
    requires w.start <= x < w.end && cores > 0
    requires forall a :: 0 <= a < |maps| ==> !MapFails(BootList(e820, blocks, memLimit), w, maps, a)
    requires Belongs(e820, blocks, n, x / PAGE_SIZE) && memLimit / PAGE_SIZE <= x / PAGE_SIZE
    ensures j < |RwFrom(BootList(e820, blocks, memLimit), w, maps, 0)|
    ensures var rw := RwFrom(BootList(e820, blocks, memLimit), w, maps, 0)[j];
      rw.start <= rw.end && Writes(rw, cores, specific, x)
  {
    var bs := BootList(e820, blocks, memLimit);
    var k := WritableAbove(e820, blocks, memLimit, n, x / PAGE_SIZE);
    j := RegionIsTested(bs, w, maps, cores, specific, k, x);
  }

  // On a sorted disjoint region list no byte belongs to two ranges.
  lemma {:induction false} RangesDisjoint(bs: seq<Boot>, w: Window, maps: seq<Option<nat>>, i: nat, j: nat, j': nat)
    requires BootChain(bs) && Ordered(bs) && |maps| == |bs| && i <= |bs| && w.start <= w.end
    requires j < j' < |RwFrom(bs, w, maps, i)|
    ensures RwFrom(bs, w, maps, i)[j].phyEnd <= RwFrom(bs, w, maps, i)[j'].phyStart
    decreases |bs| - i
  {
    hide RwOf, CutOf, Aligned;
    var here := RwOf(bs[i], w, maps[i]);
    if j < |here| {
      OwnRange(bs[i], w, maps[i]);
      var k := RangeHasRegion(bs, w, maps, i + 1, j' - |here|);
      RegionsApart(bs[i].end, bs[k].start);
    } else {
      RangesDisjoint(bs, w, maps, i + 1, j - |here|, j' - |here|);
    }
  }

  lemma RegionsApart(a: nat, b: nat)
    requires a <= b
    ensures a * PAGE_SIZE <= b * PAGE_SIZE
  {
  }

  ghost predicate Nonempty(m: seq<Region>) {
    forall k :: 0 <= k < |m| ==> m[k].start < m[k].end
  }

  lemma {:induction false} PiecesNonempty(e820: seq<Entry>, nid: int, lo: nat, hi: nat)
    requires lo < hi
    ensures Nonempty(PiecesOf(e820, nid, lo, hi))
  {
    if e820 != [] {
      PiecesNonempty(e820[..|e820| - 1], nid, lo, hi);
      ClippedExact(e820[|e820| - 1], lo, hi, 0);
    }
  }

  // Every block holds a page boundary, so none is empty in pages.
  ghost predicate BlocksHavePages(blocks: seq<Block>) {
    forall b :: 0 <= b < |blocks| ==> blocks[b].start / PAGE_SIZE < blocks[b].end / PAGE_SIZE
  }

  lemma {:induction false} AllPiecesNonempty(e820: seq<Entry>, blocks: seq<Block>)
    requires BlocksHavePages(blocks)
    ensures Nonempty(AllPieces(e820, blocks))
  {
    if blocks != [] {
      var b := blocks[|blocks| - 1];
      AllPiecesNonempty(e820, blocks[..|blocks| - 1]);
      PiecesNonempty(e820, b.nid, b.start / PAGE_SIZE, b.end / PAGE_SIZE);
    }
  }

  // Disjoint inputs give a sorted disjoint boot list, with one region more than the map
  // at most.
  lemma BootListChain(e820: seq<Entry>, blocks: seq<Block>, memLimit: nat)
    requires Disjoint(e820, blocks) && TableFits(e820, blocks) && BlocksHavePages(blocks)
    ensures BootChain(BootList(e820, blocks, memLimit))
    ensures |Boots(GeneratedMap(e820, blocks), memLimit / PAGE_SIZE)| <= |GeneratedMap(e820, blocks)| + 1
  {
    hide GeneratedMap, Boots, TableFits, Disjoint, BlocksHavePages;
    MapIsNonempty(e820, blocks);
    MapIsExact(e820, blocks, 0, 0);
    SortedApartIsChain(GeneratedMap(e820, blocks));
    BootsChain(GeneratedMap(e820, blocks), memLimit / PAGE_SIZE);
  }

  lemma MapIsNonempty(e820: seq<Entry>, blocks: seq<Block>)
    requires Disjoint(e820, blocks) && TableFits(e820, blocks) && BlocksHavePages(blocks)
    ensures Nonempty(GeneratedMap(e820, blocks))
  {
    var ps := AllPieces(e820, Sources(e820, blocks));
    SourcesApart(e820, blocks);
    if blocks == [] {
      OwnRegistered(e820);
      RamPiecesApart(e820);
    } else {
      AllPiecesNonempty(e820, blocks);
    }
    RecordsAll(ps);
    var m := AddedAll([], ps);
    SortKeeps(m);
    forall k | 0 <= k < |GeneratedMap(e820, blocks)|
      ensures GeneratedMap(e820, blocks)[k].start < GeneratedMap(e820, blocks)[k].end
    {
      assert GeneratedMap(e820, blocks)[k] in multiset(m);
    }
  }

  // Every byte the slice lists hold is in a safe page.
  ghost predicate AllSafe(e820: seq<Entry>, memLimit: nat, lists: seq<seq<Slice>>) {
    forall k, n, x: nat :: 0 <= k < |lists| && 0 <= n < |lists[k]| && Holds(lists[k][n], x) ==>
      SafePage(e820, memLimit, x / PAGE_SIZE)
  }

  ghost predicate SafePage(e820: seq<Entry>, memLimit: nat, p: nat) {
    memLimit / PAGE_SIZE <= p && exists i :: 0 <= i < |e820| && InEntry(e820[i], p)
  }

  // Each list holds the slices of its range, the last slice first.
  ghost predicate CutsOf(rws: seq<RwRange>, lists: seq<seq<Slice>>, cores: nat, specific: Option<int>)
    requires cores > 0
  {
    && |lists| == |rws|
    && (forall k :: 0 <= k < |rws| ==> rws[k].start <= rws[k].end)
    && (forall k :: 0 <= k < |rws| ==> TestPolicy.Reverse(lists[k]) == TestPolicy.Slices(rws[k], cores, specific))
  }

  lemma ListsAreSafe(e820: seq<Entry>, blocks: seq<Block>, memLimit: nat, w: Window, maps: seq<Option<nat>>,
                     stop: nat, cores: nat, specific: Option<int>, lists: seq<seq<Slice>>)
    requires Upright(blocks) && w.start <= w.end && cores > 0
    requires Ordered(BootList(e820, blocks, memLimit)) && |maps| == |BootList(e820, blocks, memLimit)|
    requires stop <= |maps|
    requires CutsOf(RwFrom(BootList(e820, blocks, memLimit), w, maps, stop), lists, cores, specific)
    ensures AllSafe(e820, memLimit, lists)
  {
    forall k, n, x: nat | 0 <= k < |lists| && 0 <= n < |lists[k]| && Holds(lists[k][n], x)
      ensures SafePage(e820, memLimit, x / PAGE_SIZE)
    {
      var rw := RwFrom(BootList(e820, blocks, memLimit), w, maps, stop)[k];
      var s := TestPolicy.Slices(rw, cores, specific);
      assert s[|lists[k]| - 1 - n] == lists[k][n];
      assert Holds(s[|lists[k]| - 1 - n], x);
      SlicesAreSafe(e820, blocks, memLimit, w, maps, stop, k, cores, specific, x);
    }
  }

  function Mappings(mmap: nat -> Option<nat>, n: nat): (maps: seq<Option<nat>>)
    ensures |maps| == n
  {
    seq(n, i requires 0 <= i < n => mmap(i))
  }

  // The driver's and the tool's steps in order.  The kernel's sort and its answers to
  // mmap are given; -1 from the region table is ignored, as the driver does.
  method Prepare(e820: seq<Entry>, blocks: seq<Block>, memLimit: nat, w: Window, mmap: nat -> Option<nat>,
                 cores: nat, mode: TestPolicy.Mode, cpu: int) returns (status: ReturnCode, lists: seq<seq<Slice>>)
    requires Upright(blocks)
    ensures AllSafe(e820, memLimit, lists) && Ordered(BootList(e820, blocks, memLimit))
    ensures var bs := BootList(e820, blocks, memLimit);
      var (code, rws, _) := Initialised(bs, w, Mappings(mmap, |bs|));
      && status == (if code != Success then code else if TestPolicy.CpuFits(cores, cpu) then Success else ErrTestPolicy)
      && (status == Success ==> cores > 0 && CutsOf(rws, lists, cores, TestPolicy.Chosen(mode, cpu)))
      && (status != Success ==> lists == [])
  {
    hide Initialised, BootList, RwFrom, CutsOf;
    var table := new Table();
    table.Generate(e820, blocks);
    var m := SortedByStart(table.entries);
    var boot := new BootTable();
    var _ := boot.Generate(m, memLimit);
    var bs := boot.slots[..boot.count];
    ListIs(e820, blocks, memLimit);
    BootListOrdered(e820, blocks, memLimit);
    var config := new TestConfig();
    var maps := Mappings(mmap, |bs|);
    status := config.InitModule(bs, w, maps);
    lists := [];
    if status == Success {
      ghost var stop := SuccessMeans(bs, w, maps);
      RangesOrdered(bs, w, maps, stop);
      status, lists := TestPolicy.Policy(config.rw, cores, mode, cpu);
      if status == Success {
        CutsAre(config.rw, lists, cores, TestPolicy.Chosen(mode, cpu));
        ListsAreSafe(e820, blocks, memLimit, w, maps, stop, cores, TestPolicy.Chosen(mode, cpu), lists);
      } else {
        status := ErrTestPolicy;
      }
    }
  }

  lemma ListIs(e820: seq<Entry>, blocks: seq<Block>, memLimit: nat)
    ensures BootList(e820, blocks, memLimit) == Kept(Boots(GeneratedMap(e820, blocks), memLimit / PAGE_SIZE))
  {
  }

  lemma CutsAre(rws: seq<RwRange>, lists: seq<seq<Slice>>, cores: nat, specific: Option<int>)
    requires cores > 0 && |lists| == |rws| && forall k :: 0 <= k < |rws| ==> rws[k].start <= rws[k].end
    requires forall k :: 0 <= k < |rws| ==> TestPolicy.Reverse(lists[k]) == TestPolicy.Slices(rws[k], cores, specific)
    ensures CutsOf(rws, lists, cores, specific)
  {
  }

  lemma SuccessMeans(bs: seq<Boot>, w: Window, maps: seq<Option<nat>>) returns (stop: nat)
    requires Ordered(bs) && |maps| == |bs| && Initialised(bs, w, maps).0 == Success
    ensures w.start <= w.end && stop <= |bs| && Initialised(bs, w, maps).1 == RwFrom(bs, w, maps, stop)
  {
    stop := 0;
    SucceedsExactly(bs, w, maps);
  }

  lemma RangesOrdered(bs: seq<Boot>, w: Window, maps: seq<Option<nat>>, i: nat)
    requires Ordered(bs) && |maps| == |bs| && i <= |bs| && w.start <= w.end
    ensures forall j :: 0 <= j < |RwFrom(bs, w, maps, i)| ==>
      RwFrom(bs, w, maps, i)[j].start <= RwFrom(bs, w, maps, i)[j].end
  {
    forall j | 0 <= j < |RwFrom(bs, w, maps, i)|
      ensures RwFrom(bs, w, maps, i)[j].start <= RwFrom(bs, w, maps, i)[j].end
    {
      RangeIsWholePages(bs, w, maps, i, j);
    }
  }

  // ---- Exactly what is tested ----

  // Physical byte x is in some slice that comes out of init_module and test_policy.
  ghost predicate Tested(bs: seq<Boot>, w: Window, maps: seq<Option<nat>>, cores: nat, mode: TestPolicy.Mode,
                         cpu: int, x: int)
    requires Ordered(bs) && |maps| == |bs|
  {
    var (code, rws, _) := Initialised(bs, w, maps);
    code == Success && TestPolicy.CpuFits(cores, cpu) && InSlice(rws, cores, TestPolicy.Chosen(mode, cpu), x)
  }

  ghost predicate InSlice(rws: seq<RwRange>, cores: nat, specific: Option<int>, x: int)
    requires cores > 0
  {
    exists j :: 0 <= j < |rws| && rws[j].start <= rws[j].end && Writes(rws[j], cores, specific, x)
  }

  // A page that the inputs ask to be tested.
  ghost predicate Asked(e820: seq<Entry>, blocks: seq<Block>, memLimit: nat, p: nat) {
    && memLimit / PAGE_SIZE <= p && (exists i :: 0 <= i < |e820| && InEntry(e820[i], p))
    && (blocks == [] || exists b :: 0 <= b < |blocks| && InBlock(blocks[b], p))
  }

  lemma AskedBelongs(e820: seq<Entry>, blocks: seq<Block>, memLimit: nat, p: nat)
    ensures Asked(e820, blocks, memLimit, p) <==> memLimit / PAGE_SIZE <= p && exists n :: Belongs(e820, blocks, n, p)
  {
    if Asked(e820, blocks, memLimit, p) {
      if blocks == [] {
        assert Belongs(e820, blocks, 0, p);
      } else {
        var b :| 0 <= b < |blocks| && InBlock(blocks[b], p);
        assert Belongs(e820, blocks, blocks[b].nid, p);
      }
    }
  }

  ghost predicate Room(e820: seq<Entry>, blocks: seq<Block>, memLimit: nat) {
    && TableFits(e820, blocks)
    && |Boots(GeneratedMap(e820, blocks), memLimit / PAGE_SIZE)| <= MAX_BOOTMEM_REGIONS
  }

  lemma WritableIsAsked(e820: seq<Entry>, blocks: seq<Block>, memLimit: nat, p: nat)
    requires Upright(blocks) && Writable(BootList(e820, blocks, memLimit), p)
    ensures Asked(e820, blocks, memLimit, p)
  {
    var bs, limit := BootList(e820, blocks, memLimit), memLimit / PAGE_SIZE;
    var k :| 0 <= k < |bs| && bs[k].writable && bs[k].start <= p < bs[k].end;
    var all := Boots(GeneratedMap(e820, blocks), limit);
    assert all[k] == bs[k] && HasBoot(all, bs[k].nid, p, true);
    BootsExact(GeneratedMap(e820, blocks), limit, bs[k].nid, p, true);
    MapIsWanted(e820, blocks, bs[k].nid, p);
    AskedBelongs(e820, blocks, memLimit, p);
  }

  // Nothing is tested that was not asked for, whatever the inputs ...
  lemma TestedIsAsked(e820: seq<Entry>, blocks: seq<Block>, memLimit: nat, w: Window, maps: seq<Option<nat>>,
                      cores: nat, mode: TestPolicy.Mode, cpu: int, x: nat)
    requires Upright(blocks)
    requires Ordered(BootList(e820, blocks, memLimit)) && |maps| == |BootList(e820, blocks, memLimit)|
    requires Tested(BootList(e820, blocks, memLimit), w, maps, cores, mode, cpu, x)
    ensures Asked(e820, blocks, memLimit, x / PAGE_SIZE) && w.start <= w.end
    ensures Completes(BootList(e820, blocks, memLimit), w, maps) && TestPolicy.CpuFits(cores, cpu)
  {
    hide Initialised, BootList, RwFrom, Asked, Writable, Ordered, Writes, RoFrom, TestPolicy.Chosen;
    var bs := BootList(e820, blocks, memLimit);
    var stop := SuccessMeans(bs, w, maps);
    SucceedsExactly(bs, w, maps);
    var rws := Initialised(bs, w, maps).1;
    var j :| 0 <= j < |rws| && rws[j].start <= rws[j].end && Writes(rws[j], cores, TestPolicy.Chosen(mode, cpu), x);
    RangeIsWholePages(bs, w, maps, stop, j);
    WritesExactly(rws[j], cores, TestPolicy.Chosen(mode, cpu), x);
    RangeIsWritable(bs, w, maps, stop, j, x);
    WritableIsAsked(e820, blocks, memLimit, x / PAGE_SIZE);
  }

  // ... and with disjoint inputs and room in the two tables of the driver, a byte of the
  // window is tested exactly when its page is asked for, the loop of init_module gets to
  // its end and the CPU arguments fit.
  lemma TestedExactly(e820: seq<Entry>, blocks: seq<Block>, memLimit: nat, w: Window, maps: seq<Option<nat>>,
                      cores: nat, mode: TestPolicy.Mode, cpu: int, x: nat)
    requires Disjoint(e820, blocks) && Room(e820, blocks, memLimit) && w.start <= x < w.end
    requires Ordered(BootList(e820, blocks, memLimit)) && |maps| == |BootList(e820, blocks, memLimit)|
    ensures Tested(BootList(e820, blocks, memLimit), w, maps, cores, mode, cpu, x) <==>
      && Asked(e820, blocks, memLimit, x / PAGE_SIZE)
      && Completes(BootList(e820, blocks, memLimit), w, maps) && TestPolicy.CpuFits(cores, cpu)
  {
    hide Tested, Asked, Completes, BootList, Room, Ordered, TestPolicy.CpuFits;
    if Tested(BootList(e820, blocks, memLimit), w, maps, cores, mode, cpu, x) {
      TestedIsAsked(e820, blocks, memLimit, w, maps, cores, mode, cpu, x);
    } else if Asked(e820, blocks, memLimit, x / PAGE_SIZE)
      && Completes(BootList(e820, blocks, memLimit), w, maps) && TestPolicy.CpuFits(cores, cpu)
    {
      AskedIsTested(e820, blocks, memLimit, w, maps, cores, mode, cpu, x);
    }
  }

  lemma AskedIsTested(e820: seq<Entry>, blocks: seq<Block>, memLimit: nat, w: Window, maps: seq<Option<nat>>,
                      cores: nat, mode: TestPolicy.Mode, cpu: int, x: nat)
    requires Disjoint(e820, blocks) && Room(e820, blocks, memLimit) && w.start <= x < w.end
    requires Ordered(BootList(e820, blocks, memLimit)) && |maps| == |BootList(e820, blocks, memLimit)|
    requires Asked(e820, blocks, memLimit, x / PAGE_SIZE) && TestPolicy.CpuFits(cores, cpu)
    requires Completes(BootList(e820, blocks, memLimit), w, maps)
    ensures Tested(BootList(e820, blocks, memLimit), w, maps, cores, mode, cpu, x)
  {
    hide Initialised, BootList, RwFrom, RoFrom, Belongs, Ordered, Writes, TestPolicy.Chosen, NodesFit, Touches;
    hide Asked, Boots, GeneratedMap, TableFits, Disjoint, Completes;
    var bs := BootList(e820, blocks, memLimit);
    CompletesExactly(bs, w, maps);
    AskedBelongs(e820, blocks, memLimit, x / PAGE_SIZE);
    var n :| Belongs(e820, blocks, n, x / PAGE_SIZE);
    var j := WantedIsTested(e820, blocks, memLimit, w, maps, cores, TestPolicy.Chosen(mode, cpu), n, x);
    assert RwFrom(bs, w, maps, 0) != [];
    SucceedsExactly(bs, w, maps);
  }

  // Every region is of a node that test_config has.
  ghost predicate OneNode(m: seq<Region>) {
    forall k :: 0 <= k < |m| ==> 0 <= m[k].nid < NODE_COUNT
  }

  ghost predicate BlocksOneNode(blocks: seq<Block>) {
    forall b :: 0 <= b < |blocks| ==> 0 <= blocks[b].nid < NODE_COUNT
  }

  lemma {:induction false} PiecesOneNode(e820: seq<Entry>, nid: int, lo: nat, hi: nat)
    requires 0 <= nid < NODE_COUNT
    ensures OneNode(PiecesOf(e820, nid, lo, hi))
  {
    hide Clipped;
    if e820 != [] {
      PiecesOneNode(e820[..|e820| - 1], nid, lo, hi);
    }
  }

  lemma {:induction false} AllPiecesOneNode(e820: seq<Entry>, blocks: seq<Block>)
    requires BlocksOneNode(blocks)
    ensures OneNode(AllPieces(e820, blocks))
  {
    hide PiecesOf;
    if blocks != [] {
      var b := blocks[|blocks| - 1];
      AllPiecesOneNode(e820, blocks[..|blocks| - 1]);
      PiecesOneNode(e820, b.nid, b.start / PAGE_SIZE, b.end / PAGE_SIZE);
    }
  }

  lemma {:induction false} AddedAllOneNode(ps: seq<Region>)
    requires OneNode(ps)
    ensures OneNode(AddedAll([], ps))
  {
    if ps != [] {
      AddedAllOneNode(ps[..|ps| - 1]);
    }
  }

  lemma {:induction false} BootsOneNode(m: seq<Region>, limit: nat)
    requires OneNode(m)
    ensures forall k :: 0 <= k < |Boots(m, limit)| ==> NodeFits(Boots(m, limit)[k])
  {
    if m != [] {
      BootsOneNode(m[..|m| - 1], limit);
    }
  }

  lemma MapOneNode(e820: seq<Entry>, blocks: seq<Block>)
    requires BlocksOneNode(blocks)
    ensures OneNode(GeneratedMap(e820, blocks))
  {
    hide AllPieces, SortedByStart, AddedAll;
    var ps := AllPieces(e820, Sources(e820, blocks));
    AllPiecesOneNode(e820, Sources(e820, blocks));
    AddedAllOneNode(ps);
    SortKeeps(AddedAll([], ps));
    forall k | 0 <= k < |GeneratedMap(e820, blocks)|
      ensures 0 <= GeneratedMap(e820, blocks)[k].nid < NODE_COUNT
    {
      assert GeneratedMap(e820, blocks)[k] in multiset(AddedAll([], ps));
    }
  }

  // On a machine with one node whose blocks each hold a page, the loop of init_module
  // gets to its end exactly when no mapping fails and raw_reg has room.
  lemma OneNodeCompletes(e820: seq<Entry>, blocks: seq<Block>, memLimit: nat, w: Window, maps: seq<Option<nat>>)
    requires Disjoint(e820, blocks) && TableFits(e820, blocks) && w.start <= w.end
    requires BlocksOneNode(blocks) && BlocksHavePages(blocks)
    requires Ordered(BootList(e820, blocks, memLimit)) && |maps| == |BootList(e820, blocks, memLimit)|
    ensures var bs := BootList(e820, blocks, memLimit);
      Completes(bs, w, maps) <==> MapsSucceed(bs, w, maps) && Touches(bs, w, 0) <= MAX_REGION
  {
    hide Completes, MapsSucceed, Touches, GeneratedMap, TableFits, CutOf, NodeFits;
    var bs := BootList(e820, blocks, memLimit);
    MapOneNode(e820, blocks);
    BootsOneNode(GeneratedMap(e820, blocks), memLimit / PAGE_SIZE);
    BootListChain(e820, blocks, memLimit);
    CompletesExactly(bs, w, maps);
  }

  // ---- Inputs on which nothing is tested ----

  // The same RAM for both.
  const RAM: seq<Entry> := [Entry(0, 0x100000, true)]

  lemma PiecesOfRam(nid: int, lo: nat, hi: nat)
    requires lo <= hi < 256
    ensures PiecesOf(RAM, nid, lo, hi) == if lo < 256 && 0 < hi then [Region(nid, lo, hi)] else []
  {
    assert RAM[..|RAM| - 1] == [];
    assert PiecesOf([], nid, lo, hi) == [];
  }

  // A machine whose memory is on node 1: the range is asked for, but it is linked through
  // a node that test_config does not have.
  lemma SecondNodeInput(a: nat)
    ensures Disjoint(RAM, [Block(1, 0, 0x80000)]) && Asked(RAM, [Block(1, 0, 0x80000)], 0, 0)
    ensures BootList(RAM, [Block(1, 0, 0x80000)], 0) == [Boot(1, 0, 128, true)]
    ensures Initialised([Boot(1, 0, 128, true)], Window(0, 0x80000), [Some(a)]).0 == Undefined
  {
    hide PiecesOf, SortedByStart, AddedAll, Boots, Initialised;
    var blocks := [Block(1, 0, 0x80000)];
    PiecesOfRam(1, 0, 128);
    assert blocks[..|blocks| - 1] == [];
    assert AllPieces(RAM, blocks) == [Region(1, 0, 128)];
    OnePiece(Region(1, 0, 128));
    OneBoot(Region(1, 0, 128));
    assert InEntry(RAM[0], 0) && InBlock(blocks[0], 0);
    SecondNodeStops(a);
  }

  lemma SecondNodeStops(a: nat)
    ensures Initialised([Boot(1, 0, 128, true)], Window(0, 0x80000), [Some(a)]).0 == Undefined
  {
    hide RwFrom, RoFrom;
    var bs, w, maps := [Boot(1, 0, 128, true)], Window(0, 0x80000), [Some(a)];
    assert ExitAt(bs, w, maps, 0) == Some(Undefined);
    assert Stop(bs, w, maps, 1) == 1;
  }

  lemma OnePiece(r: Region)
    ensures SortedByStart(AddedAll([], [r])) == [r]
  {
    assert [r][..|[r]| - 1] == [];
    assert AddedAll([], [r]) == Added([], r.nid, r.start, r.end) == [r];
    assert SortedByStart([r]) == Insert(r, SortedByStart([])) == [r];
  }

  lemma OneBoot(r: Region)
    requires 0 < r.end
    ensures Boots([r], 0) == [Boot(r.nid, r.start, r.end, true)]
  {
    assert [r][..|[r]| - 1] == [];
  }

  // A NUMA block without a page leaves an empty region: the device is closed for it, and
  // the walk ends at the region below.
  lemma EmptyRegionInput(a: nat, b: nat)
    ensures var blocks := [Block(0, 0x2000, 0x4000), Block(0, 0x5000, 0x5000)];
      && Disjoint(RAM, blocks) && Asked(RAM, blocks, 0, 2)
      && BootList(RAM, blocks, 0) == [Boot(0, 2, 4, true), Boot(0, 5, 5, true)]
    ensures var bs := [Boot(0, 2, 4, true), Boot(0, 5, 5, true)];
      Initialised(bs, Window(0, 0x80000), [Some(a), Some(b)]).0 == ErrDevice
  {
    hide Disjoint, Asked, BootList, Initialised;
    EmptyRegionAsked();
    EmptyRegionListed();
    EmptyRegionStops(a, b);
  }

  lemma EmptyRegionAsked()
    ensures var blocks := [Block(0, 0x2000, 0x4000), Block(0, 0x5000, 0x5000)];
      Disjoint(RAM, blocks) && Asked(RAM, blocks, 0, 2)
  {
    var blocks := [Block(0, 0x2000, 0x4000), Block(0, 0x5000, 0x5000)];
    assert InEntry(RAM[0], 2) && InBlock(blocks[0], 2);
  }

  lemma EmptyRegionListed()
    ensures var blocks := [Block(0, 0x2000, 0x4000), Block(0, 0x5000, 0x5000)];
      BootList(RAM, blocks, 0) == [Boot(0, 2, 4, true), Boot(0, 5, 5, true)]
  {
    hide PiecesOf, SortedByStart, AddedAll, Boots;
    var blocks := [Block(0, 0x2000, 0x4000), Block(0, 0x5000, 0x5000)];
    PiecesOfRam(0, 2, 4);
    PiecesOfRam(0, 5, 5);
    assert blocks[..|blocks| - 1] == [blocks[0]] && [blocks[0]][..0] == [];
    assert AllPieces(RAM, [blocks[0]]) == [Region(0, 2, 4)];
    assert AllPieces(RAM, blocks) == [Region(0, 2, 4), Region(0, 5, 5)];
    TwoPieces();
    TwoBoots();
  }

  lemma EmptyRegionStops(a: nat, b: nat)
    ensures var bs := [Boot(0, 2, 4, true), Boot(0, 5, 5, true)];
      Initialised(bs, Window(0, 0x80000), [Some(a), Some(b)]).0 == ErrDevice
  {
    hide RwFrom, RoFrom, Aligned;
    var bs, w, maps := [Boot(0, 2, 4, true), Boot(0, 5, 5, true)], Window(0, 0x80000), [Some(a), Some(b)];
    assert ExitAt(bs, w, maps, 1) == None;
    assert ExitAt(bs, w, maps, 0) == Some(ErrDevice);
    assert Stop(bs, w, maps, 2) == Stop(bs, w, maps, 1) == 1;
  }

  lemma TwoPieces()
    ensures var r, q := Region(0, 2, 4), Region(0, 5, 5); SortedByStart(AddedAll([], [r, q])) == [r, q]
  {
    var r, q := Region(0, 2, 4), Region(0, 5, 5);
    assert [r, q][..1] == [r] && [r][..0] == [];
    assert AddedAll([], [r]) == Added([], 0, 2, 4) == [r];
    assert FirstReacting([r], 0, 5, 5, 0) == 1;
    assert AddedAll([], [r, q]) == Added([r], 0, 5, 5) == [r, q];
    assert [r, q][1..] == [q] && SortedByStart([q]) == Insert(q, SortedByStart([])) == [q];
    assert SortedByStart([r, q]) == Insert(r, [q]) == [r, q];
  }

  lemma TwoBoots()
    ensures Boots([Region(0, 2, 4), Region(0, 5, 5)], 0) == [Boot(0, 2, 4, true), Boot(0, 5, 5, true)]
  {
    var r, q := Region(0, 2, 4), Region(0, 5, 5);
    assert [r, q][..1] == [r];
    OneBoot(r);
  }
}
