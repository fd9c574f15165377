// task_generator.c: the user's window cut out of each region, rounded to whole pages,
// and every read/write range cut into one slice per CPU.
module TaskSlices {
  import opened Common
  import opened BootMap

  const MIN_BLOCK_SIZE: nat := PAGE_SIZE
  const CORE_COUNT: nat := 32

  datatype Window = Window(start: nat, end: nat)
  datatype Bytes = Bytes(start: nat, end: nat)
  datatype RwRange = RwRange(start: nat, end: nat, phyStart: nat, phyEnd: nat)
  datatype Slice = Slice(start: nat, end: nat, phyStart: nat, cpu: int)

  // pfn_start_roundup and pfn_end_roundup with mask 0xfff.
  function RoundDown(a: nat): (r: nat)
    ensures r % PAGE_SIZE == 0 && r <= a < r + PAGE_SIZE
  {
    a / PAGE_SIZE * PAGE_SIZE
  }

  function RoundUp(a: nat): (r: nat)
    ensures r % PAGE_SIZE == 0 && a <= r < a + PAGE_SIZE
  {
    (a + PAGE_SIZE - 1) / PAGE_SIZE * PAGE_SIZE
  }

  // ---- The window ----

  // The chain of cases of init_module for a region at [offset, offset + len); None is
  // `continue`, and falling through every case leaves the cleared range.
  function Cut(offset: nat, len: nat, w: Window): Option<Bytes> {
    var end, cleared := offset + len, Bytes(0, 0);
    if end < w.start then None
    else if offset <= w.start && w.start <= end && end <= w.end then Some(Bytes(w.start, end))
    else if offset > w.start && end < w.end then Some(Bytes(offset, end))
    else if offset <= w.start && end >= w.end then Some(Bytes(w.start, w.end))
    else if w.start <= offset && offset <= w.end && end >= w.end then Some(Bytes(offset, w.end))
    else if offset > w.end then None
    else Some(cleared)
  }

  // The cases are exhaustive and each yields the intersection.
  lemma CutExact(offset: nat, len: nat, w: Window, x: nat)
    requires w.start <= w.end
    ensures offset <= x < offset + len && w.start <= x < w.end <==>
            Cut(offset, len, w).Some? && Cut(offset, len, w).value.start <= x < Cut(offset, len, w).value.end
    ensures Cut(offset, len, w).Some? ==>
            offset <= Cut(offset, len, w).value.start <= Cut(offset, len, w).value.end <= offset + len
    ensures Cut(offset, len, w).Some? ==>
            w.start <= Cut(offset, len, w).value.start <= Cut(offset, len, w).value.end <= w.end
  {
  }

  function CutOf(b: Boot, w: Window): Option<Bytes>
    requires b.start <= b.end
  {
    var cut := Cut(b.start * PAGE_SIZE, (b.end - b.start) * PAGE_SIZE, w);
    if cut.Some? && cut.value.start == cut.value.end then None else cut
  }

  // The page-aligned range of a writable region, None when the region yields none.
  function Aligned(b: Boot, w: Window): Option<Bytes>
    requires b.start <= b.end
  {
    var cut := CutOf(b, w);
    if cut.None? || !b.writable then None
    else
      var s, e := RoundDown(cut.value.start), RoundUp(cut.value.end);
      if e < s + MIN_BLOCK_SIZE then None else Some(Bytes(s, e))
  }

  // Enlarged to whole pages the range is still inside its region, holds every byte of
  // the region that the window holds, and is never too small to test.
  lemma AlignedInside(b: Boot, w: Window)
    requires b.start <= b.end && w.start <= w.end
    ensures b.writable ==> (Aligned(b, w).None? <==> CutOf(b, w).None?)
    ensures Aligned(b, w).Some? ==>
      var r, c := Aligned(b, w).value, CutOf(b, w).value;
      && b.writable && CutOf(b, w).Some?
      && b.start * PAGE_SIZE <= r.start <= c.start < c.end <= r.end <= b.end * PAGE_SIZE
      && r.start % PAGE_SIZE == 0 && r.end % PAGE_SIZE == 0 && r.start + PAGE_SIZE <= r.end
      && c.start < r.start + PAGE_SIZE && r.end < c.end + PAGE_SIZE
  {
    CutExact(b.start * PAGE_SIZE, (b.end - b.start) * PAGE_SIZE, w, 0);
    if CutOf(b, w).Some? {
      var c := CutOf(b, w).value;
      RoundsInside(b.start, b.end, c.start, c.end);
    }
  }

  lemma RoundsInside(lo: nat, hi: nat, s: nat, e: nat)
    requires lo * PAGE_SIZE <= s < e <= hi * PAGE_SIZE
    ensures lo * PAGE_SIZE <= RoundDown(s) && RoundUp(e) <= hi * PAGE_SIZE && RoundDown(s) + PAGE_SIZE <= RoundUp(e)
  {
  }

  // ---- init_module's loop over the regions ----

  // A mapped range; the kernel's answer to mmap is a parameter.
  function Mapped(r: Bytes, addr: nat): RwRange
    requires r.start <= r.end
  {
    RwRange(addr, addr + (r.end - r.start), r.start, r.end)
  }

  ghost predicate Ordered(bs: seq<Boot>) {
    forall k :: 0 <= k < |bs| ==> bs[k].start <= bs[k].end
  }

  ghost predicate MapFails(bs: seq<Boot>, w: Window, maps: seq<Option<nat>>, i: nat)
    requires Ordered(bs) && |maps| == |bs| && i < |bs|
  {
    Aligned(bs[i], w).Some? && maps[i].None?
  }

  function RwOf(b: Boot, w: Window, mapping: Option<nat>): seq<RwRange>
    requires b.start <= b.end && w.start <= w.end
  {
    var r := Aligned(b, w);
    AlignedInside(b, w);
    if r.Some? && mapping.Some? then [Mapped(r.value, mapping.value)] else []
  }

  function RoOf(b: Boot, w: Window): seq<Bytes>
    requires b.start <= b.end
  {
    var c := CutOf(b, w);
    if c.Some? && !b.writable then [c.value] else []
  }

  // The lists after the regions from i on.
  function RwFrom(bs: seq<Boot>, w: Window, maps: seq<Option<nat>>, i: nat): seq<RwRange>
    requires Ordered(bs) && |maps| == |bs| && i <= |bs| && w.start <= w.end
    decreases |bs| - i
  {
    if i == |bs| then [] else RwOf(bs[i], w, maps[i]) + RwFrom(bs, w, maps, i + 1)
  }

  function RoFrom(bs: seq<Boot>, w: Window, i: nat): seq<Bytes>
    requires Ordered(bs) && i <= |bs|
    decreases |bs| - i
  {
    if i == |bs| then [] else RoOf(bs[i], w) + RoFrom(bs, w, i + 1)
  }

  // ---- What the two lists hold ----

  // Byte x is in the region and in the window.
  predicate InBoth(b: Boot, w: Window, x: nat) {
    b.start * PAGE_SIZE <= x < b.end * PAGE_SIZE && w.start <= x < w.end
  }

  // The range is where mmap put the pages that the window shares with region k.
  ghost predicate MapsRegion(bs: seq<Boot>, w: Window, maps: seq<Option<nat>>, r: RwRange, k: nat)
    requires k < |bs| == |maps|
  {
    && bs[k].writable && maps[k] == Some(r.start) && r.end - r.start == r.phyEnd - r.phyStart
    && (forall x: nat :: InBoth(bs[k], w, x) ==> r.phyStart <= x < r.phyEnd)
    && r.phyStart % PAGE_SIZE == r.phyEnd % PAGE_SIZE == 0
    && (exists x: nat :: InBoth(bs[k], w, x) && x < r.phyStart + PAGE_SIZE)
    && (exists x: nat :: InBoth(bs[k], w, x) && r.phyEnd <= x + PAGE_SIZE)
  }

  ghost predicate AllMapped(bs: seq<Boot>, w: Window, maps: seq<Option<nat>>, rw: seq<RwRange>)
    requires |bs| == |maps|
  {
    forall j :: 0 <= j < |rw| ==> MapsSome(bs, w, maps, rw[j])
  }

  ghost predicate MapsSome(bs: seq<Boot>, w: Window, maps: seq<Option<nat>>, r: RwRange)
    requires |bs| == |maps|
  {
    exists k :: 0 <= k < |bs| && MapsRegion(bs, w, maps, r, k)
  }

  // The read-only ranges hold exactly what the window shares with read-only regions.
  ghost predicate ReadOnlyBytes(bs: seq<Boot>, w: Window, ro: seq<Bytes>) {
    forall x: nat :: Listed(ro, x) <==> SharedReadOnly(bs, w, 0, x)
  }

  ghost predicate Listed(ro: seq<Bytes>, x: nat) {
    exists j :: 0 <= j < |ro| && ro[j].start <= x < ro[j].end
  }

  ghost predicate SharedReadOnly(bs: seq<Boot>, w: Window, i: nat, x: nat) {
    exists k :: i <= k < |bs| && !bs[k].writable && InBoth(bs[k], w, x)
  }

  lemma OwnMapped(b: Boot, w: Window, mapping: Option<nat>)
    requires b.start <= b.end && w.start <= w.end && RwOf(b, w, mapping) != []
    ensures |RwOf(b, w, mapping)| == 1 && MapsRegion([b], w, [mapping], RwOf(b, w, mapping)[0], 0)
  {
    AlignedInside(b, w);
    var c := CutOf(b, w).value;
    forall x: nat
      ensures InBoth(b, w, x) <==> c.start <= x < c.end
    {
      CutExact(b.start * PAGE_SIZE, (b.end - b.start) * PAGE_SIZE, w, x);
    }
    assert InBoth(b, w, c.start) && InBoth(b, w, c.end - 1);
  }

  lemma {:induction false} RangeMapped(bs: seq<Boot>, w: Window, maps: seq<Option<nat>>, i: nat, j: nat)
    returns (k: nat)
    requires Ordered(bs) && |maps| == |bs| && i <= |bs| && w.start <= w.end && j < |RwFrom(bs, w, maps, i)|
    ensures i <= k < |bs| && MapsRegion(bs, w, maps, RwFrom(bs, w, maps, i)[j], k)
    decreases |bs| - i
  {
    hide RwOf, InBoth;
    var here := RwOf(bs[i], w, maps[i]);
    if j < |here| {
      OwnMapped(bs[i], w, maps[i]);
      k := i;
    } else {
      k := RangeMapped(bs, w, maps, i + 1, j - |here|);
    }
  }

  lemma OwnReadOnly(b: Boot, w: Window, x: nat)
    requires b.start <= b.end && w.start <= w.end
    ensures |RoOf(b, w)| <= 1
    ensures RoOf(b, w) != [] && RoOf(b, w)[0].start <= x < RoOf(b, w)[0].end <==> !b.writable && InBoth(b, w, x)
  {
    CutExact(b.start * PAGE_SIZE, (b.end - b.start) * PAGE_SIZE, w, x);
  }

  lemma {:induction false} ReadOnlyExact(bs: seq<Boot>, w: Window, i: nat, x: nat)
    requires Ordered(bs) && i <= |bs| && w.start <= w.end
    ensures Listed(RoFrom(bs, w, i), x) <==> SharedReadOnly(bs, w, i, x)
    decreases |bs| - i
  {
    hide RoOf, InBoth;
    if i < |bs| {
      ReadOnlyExact(bs, w, i + 1, x);
      OwnReadOnly(bs[i], w, x);
      ListedAppend(RoOf(bs[i], w), RoFrom(bs, w, i + 1), x);
    }
  }

  lemma ListedAppend(here: seq<Bytes>, rest: seq<Bytes>, x: nat)
    requires |here| <= 1
    ensures Listed(here + rest, x) <==>
      (here != [] && here[0].start <= x < here[0].end) || Listed(rest, x)
  {
    var all := here + rest;
    if j :| 0 <= j < |rest| && rest[j].start <= x < rest[j].end {
      assert all[|here| + j] == rest[j];
    }
    if here != [] && here[0].start <= x < here[0].end {
      assert all[0] == here[0];
    }
  }

  lemma ListsMean(bs: seq<Boot>, w: Window, maps: seq<Option<nat>>, stop: nat)
    requires Ordered(bs) && |maps| == |bs| && stop <= |bs| && w.start <= w.end
    ensures AllMapped(bs, w, maps, RwFrom(bs, w, maps, stop))
    ensures stop == 0 ==> ReadOnlyBytes(bs, w, RoFrom(bs, w, 0))
  {
    hide RwFrom, RoFrom, MapsRegion, InBoth;
    forall j | 0 <= j < |RwFrom(bs, w, maps, stop)|
      ensures MapsSome(bs, w, maps, RwFrom(bs, w, maps, stop)[j])
    {
      var k := RangeMapped(bs, w, maps, stop, j);
    }
    forall x: nat
      ensures Listed(RoFrom(bs, w, 0), x) <==> SharedReadOnly(bs, w, 0, x)
    {
      ReadOnlyExact(bs, w, 0, x);
    }
  }

  // ---- The ways out of the loop ----

  const NODE_COUNT: nat := 1
  const MAX_REGION: nat := 20

  // Undefined stands for the places where the C code writes past an array.
  datatype ReturnCode = Success | ErrInputAddress | ErrMap | ErrDevice | Undefined | ErrCoreNum | ErrTestPolicy

  // An empty region makes the loop close the device, so that the next region's ioctl fails.
  predicate Empty(b: Boot) {
    b.start == b.end
  }

  // The window meets the region, which takes an entry of raw_reg.
  predicate Touched(b: Boot, w: Window)
    requires b.start <= b.end
  {
    Cut(b.start * PAGE_SIZE, (b.end - b.start) * PAGE_SIZE, w).Some?
  }

  function Touches(bs: seq<Boot>, w: Window, i: nat): nat
    requires Ordered(bs) && i <= |bs|
    decreases |bs| - i
  {
    if i == |bs| then 0 else Touches(bs, w, i + 1) + if Touched(bs[i], w) then 1 else 0
  }

  // test_config has NODE_COUNT nodes.
  predicate NodeFits(b: Boot) {
    0 <= b.nid < NODE_COUNT
  }

  // Why a region ends the loop, if it does.
  function RegionExit(b: Boot, w: Window, mapping: Option<nat>, closed: bool, rawNum: nat): Option<ReturnCode>
    requires b.start <= b.end
  {
    if closed then Some(ErrDevice)
    else if Touched(b, w) && rawNum >= MAX_REGION then Some(Undefined)
    else if CutOf(b, w).None? then None
    else if b.writable && Aligned(b, w).None? then None
    else if b.writable && mapping.None? then Some(ErrMap)
    else if !NodeFits(b) then Some(Undefined)
    else None
  }

  function ExitAt(bs: seq<Boot>, w: Window, maps: seq<Option<nat>>, i: nat): Option<ReturnCode>
    requires Ordered(bs) && |maps| == |bs| && i < |bs|
  {
    RegionExit(bs[i], w, maps[i], i + 1 < |bs| && Empty(bs[i + 1]), Touches(bs, w, i + 1))
  }

  // How far down from region i the loop gets.
  function Stop(bs: seq<Boot>, w: Window, maps: seq<Option<nat>>, i: nat): (stop: nat)
    requires Ordered(bs) && |maps| == |bs| && i <= |bs|
    ensures stop <= i && (stop > 0 ==> ExitAt(bs, w, maps, stop - 1).Some?)
    ensures forall k :: stop <= k < i ==> ExitAt(bs, w, maps, k).None?
  {
    if i == 0 || ExitAt(bs, w, maps, i - 1).Some? then i else Stop(bs, w, maps, i - 1)
  }

  // One region further down.
  lemma NextDown(bs: seq<Boot>, w: Window, maps: seq<Option<nat>>, i: nat)
    requires Ordered(bs) && |maps| == |bs| && 0 < i <= |bs| && w.start <= w.end
    ensures RwFrom(bs, w, maps, i - 1) == RwOf(bs[i - 1], w, maps[i - 1]) + RwFrom(bs, w, maps, i)
    ensures RoFrom(bs, w, i - 1) == RoOf(bs[i - 1], w) + RoFrom(bs, w, i)
    ensures Touches(bs, w, i - 1) == Touches(bs, w, i) + if Touched(bs[i - 1], w) then 1 else 0
    ensures ExitAt(bs, w, maps, i - 1) ==
      RegionExit(bs[i - 1], w, maps[i - 1], i < |bs| && Empty(bs[i]), Touches(bs, w, i))
    ensures Stop(bs, w, maps, i) == if ExitAt(bs, w, maps, i - 1).Some? then i else Stop(bs, w, maps, i - 1)
  {
    hide RwOf, RoOf, Touched, Empty, RegionExit;
  }

  // What init_module returns, and its two lists.
  function Initialised(bs: seq<Boot>, w: Window, maps: seq<Option<nat>>): (ReturnCode, seq<RwRange>, seq<Bytes>)
    requires Ordered(bs) && |maps| == |bs|
  {
    if w.end < w.start then (ErrInputAddress, [], [])
    else
      var stop := Stop(bs, w, maps, |bs|);
      var rw, ro := RwFrom(bs, w, maps, stop), RoFrom(bs, w, stop);
      if stop > 0 then (ExitAt(bs, w, maps, stop - 1).value, rw, ro)
      else if rw == [] && ro == [] then (ErrInputAddress, rw, ro)
      else (Success, rw, ro)
  }

  class TestConfig {
    var rw: seq<RwRange>  // RW_list
    var ro: seq<Bytes>    // RD_list

    constructor ()
      ensures rw == [] && ro == []
    {
      rw, ro := [], [];
    }

    // One region: nothing, a read-only range, a read/write range if mmap succeeds, or a
    // way out.
    method AddRegion(b: Boot, w: Window, mapping: Option<nat>, closed: bool, rawNum: nat)
      returns (exit: Option<ReturnCode>, closed': bool, rawNum': nat)
      requires b.start <= b.end && w.start <= w.end
      modifies this
      ensures exit == RegionExit(b, w, mapping, closed, rawNum)
      ensures exit.Some? ==> rw == old(rw) && ro == old(ro)
      ensures exit.None? ==> rw == RwOf(b, w, mapping) + old(rw) && ro == RoOf(b, w) + old(ro)
      ensures exit.None? ==> closed' == Empty(b) && rawNum' == rawNum + if Touched(b, w) then 1 else 0
    {
      closed', rawNum' := closed, rawNum;
      if closed {
        return Some(ErrDevice), closed', rawNum';
      }
      if (b.end - b.start) * PAGE_SIZE <= 0 {
        closed' := true;
      }
      var cut := Cut(b.start * PAGE_SIZE, (b.end - b.start) * PAGE_SIZE, w);
      if cut.None? {
        return None, closed', rawNum';
      }
      if rawNum >= MAX_REGION {
        return Some(Undefined), closed', rawNum';
      }
      rawNum' := rawNum + 1;
      if cut.value.start == cut.value.end {
        return None, closed', rawNum';
      }
      exit := AddRange(b, w, mapping, cut.value);
    }

    // The part of the loop for a range that is not empty.
    method AddRange(b: Boot, w: Window, mapping: Option<nat>, cut: Bytes) returns (exit: Option<ReturnCode>)
      requires b.start <= b.end && w.start <= w.end && CutOf(b, w) == Some(cut)
      modifies this
      ensures exit == RegionExit(b, w, mapping, false, 0)
      ensures exit.Some? ==> rw == old(rw) && ro == old(ro)
      ensures exit.None? ==> rw == RwOf(b, w, mapping) + old(rw) && ro == RoOf(b, w) + old(ro)
    {
      if !b.writable {
        if !NodeFits(b) {
          return Some(Undefined);
        }
        ro := [cut] + ro;
        return None;
      }
      var s, e := RoundDown(cut.start), RoundUp(cut.end);
      if e < s + MIN_BLOCK_SIZE {
        return None;
      }
      if mapping.None? {
        return Some(ErrMap);
      }
      if !NodeFits(b) {
        return Some(Undefined);
      }
      rw := [Mapped(Bytes(s, e), mapping.value)] + rw;
      return None;
    }

    // One round of the loop, for region i - 1.
    method AddNext(bs: seq<Boot>, w: Window, maps: seq<Option<nat>>, i: nat, closed: bool, rawNum: nat)
      returns (exit: Option<ReturnCode>, closed': bool, rawNum': nat)
      requires Ordered(bs) && |maps| == |bs| && w.start <= w.end && 0 < i <= |bs|
      requires closed == (i < |bs| && Empty(bs[i])) && rawNum == Touches(bs, w, i)
      requires rw == RwFrom(bs, w, maps, i) && ro == RoFrom(bs, w, i)
      modifies this
      ensures exit == ExitAt(bs, w, maps, i - 1)
      ensures Stop(bs, w, maps, i) == if exit.Some? then i else Stop(bs, w, maps, i - 1)
      ensures exit.Some? ==> rw == RwFrom(bs, w, maps, i) && ro == RoFrom(bs, w, i)
      ensures exit.None? ==> rw == RwFrom(bs, w, maps, i - 1) && ro == RoFrom(bs, w, i - 1)
      ensures exit.None? ==> closed' == Empty(bs[i - 1]) && rawNum' == Touches(bs, w, i - 1)
    {
      hide RwOf, RoOf, RegionExit, Empty, Touched, RwFrom, RoFrom, Touches, Stop, ExitAt;
      NextDown(bs, w, maps, i);
      exit, closed', rawNum' := AddRegion(bs[i - 1], w, maps[i - 1], closed, rawNum);
    }

    // The regions are visited from the last to the first and each range is put at the
    // head of its list; stop is how far the walk got.
    method AddRegions(bs: seq<Boot>, w: Window, maps: seq<Option<nat>>)
      returns (exit: Option<ReturnCode>, ghost stop: nat)
      requires Ordered(bs) && |maps| == |bs| && w.start <= w.end && rw == [] && ro == []
      modifies this
      ensures stop == Stop(bs, w, maps, |bs|)
      ensures rw == RwFrom(bs, w, maps, stop) && ro == RoFrom(bs, w, stop)
      ensures exit == if stop > 0 then ExitAt(bs, w, maps, stop - 1) else None
    {
      hide ExitAt, RwOf, RoOf, Touched;
      var i: nat := |bs|;
      var closed, rawNum := false, 0;
      while i > 0
        invariant i <= |bs| && rw == RwFrom(bs, w, maps, i) && ro == RoFrom(bs, w, i)
        invariant closed == (i < |bs| && Empty(bs[i])) && rawNum == Touches(bs, w, i)
        invariant Stop(bs, w, maps, |bs|) == Stop(bs, w, maps, i)
      {
        hide RwFrom, RoFrom, Touches, Stop, Empty;
        exit, closed, rawNum := AddNext(bs, w, maps, i, closed, rawNum);
        if exit.Some? {
          return exit, i;
        }
        i := i - 1;
      }
      return None, 0;
    }

    // init_module from the check of the window to the check for empty lists.
    method InitModule(bs: seq<Boot>, w: Window, maps: seq<Option<nat>>) returns (code: ReturnCode)
      requires Ordered(bs) && |maps| == |bs|
      modifies this
      ensures (code, rw, ro) == Initialised(bs, w, maps)
      ensures AllMapped(bs, w, maps, rw) && (code == Success ==> ReadOnlyBytes(bs, w, ro))
    {
      rw, ro := [], [];
      if w.end < w.start {
        return ErrInputAddress;
      }
      hide ExitAt, RwFrom, RoFrom, AllMapped, ReadOnlyBytes;
      var exit, stop := AddRegions(bs, w, maps);
      ListsMean(bs, w, maps, stop);
      if exit.Some? {
        return exit.value;
      }
      if |rw| == 0 && |ro| == 0 {
        return ErrInputAddress;
      }
      return Success;
    }
  }

  // ---- When the loop gets to its end ----

  ghost predicate Completes(bs: seq<Boot>, w: Window, maps: seq<Option<nat>>)
    requires Ordered(bs) && |maps| == |bs|
  {
    forall i :: 0 <= i < |bs| ==> ExitAt(bs, w, maps, i).None?
  }

  lemma StopsAtEnd(bs: seq<Boot>, w: Window, maps: seq<Option<nat>>)
    requires Ordered(bs) && |maps| == |bs|
    ensures Stop(bs, w, maps, |bs|) == 0 <==> Completes(bs, w, maps)
  {
    hide ExitAt;
  }

  // Every region but the first holds a page.
  ghost predicate NoneEmptyAbove(bs: seq<Boot>) {
    forall i :: 0 < i < |bs| ==> !Empty(bs[i])
  }

  // Every range the window cuts out is of a node that test_config has.
  ghost predicate NodesFit(bs: seq<Boot>, w: Window)
    requires Ordered(bs)
  {
    forall i :: 0 <= i < |bs| && CutOf(bs[i], w).Some? ==> NodeFits(bs[i])
  }

  ghost predicate MapsSucceed(bs: seq<Boot>, w: Window, maps: seq<Option<nat>>)
    requires Ordered(bs) && |maps| == |bs|
  {
    forall i :: 0 <= i < |bs| ==> !MapFails(bs, w, maps, i)
  }

  lemma {:induction false} TouchesGrow(bs: seq<Boot>, w: Window, i: nat, j: nat)
    requires Ordered(bs) && i <= j <= |bs|
    ensures Touches(bs, w, j) <= Touches(bs, w, i)
    decreases j - i
  {
    if i < j {
      TouchesGrow(bs, w, i + 1, j);
    }
  }

  // More than MAX_REGION regions touched: some region finds raw_reg full.
  lemma {:induction false} FindOverrun(bs: seq<Boot>, w: Window, i: nat) returns (k: nat)
    requires Ordered(bs) && i <= |bs| && Touches(bs, w, i) > MAX_REGION
    ensures i <= k < |bs| && Touched(bs[k], w) && Touches(bs, w, k + 1) >= MAX_REGION
    decreases |bs| - i
  {
    if Touched(bs[i], w) {
      k := i;
    } else {
      k := FindOverrun(bs, w, i + 1);
    }
  }

  // A region is passed exactly under four conditions on it.
  lemma PassedExactly(b: Boot, w: Window, mapping: Option<nat>, closed: bool, rawNum: nat)
    requires b.start <= b.end && w.start <= w.end
    ensures RegionExit(b, w, mapping, closed, rawNum).None? <==>
      && !closed && !(Touched(b, w) && rawNum >= MAX_REGION)
      && (CutOf(b, w).Some? ==> NodeFits(b)) && !(Aligned(b, w).Some? && mapping.None?)
  {
    AlignedInside(b, w);
  }

  // The loop gets to its end exactly when no region above the first is empty, every range
  // is of a node there is, no mapping fails, and the window meets no more regions than
  // raw_reg has room for.
  lemma CompletesExactly(bs: seq<Boot>, w: Window, maps: seq<Option<nat>>)
    requires Ordered(bs) && |maps| == |bs| && w.start <= w.end
    ensures Completes(bs, w, maps) <==>
      NoneEmptyAbove(bs) && NodesFit(bs, w) && MapsSucceed(bs, w, maps) && Touches(bs, w, 0) <= MAX_REGION
  {
    hide Cut, Aligned, CutOf, Touched, RegionExit, NodeFits, Empty;
    if Completes(bs, w, maps) {
      forall i | 0 <= i < |bs|
        ensures (CutOf(bs[i], w).Some? ==> NodeFits(bs[i])) && !MapFails(bs, w, maps, i)
      {
        assert ExitAt(bs, w, maps, i).None?;
        Passed(bs, w, maps, i);
      }
      forall i | 0 < i < |bs|
        ensures !Empty(bs[i])
      {
        assert ExitAt(bs, w, maps, i - 1).None?;
        Passed(bs, w, maps, i - 1);
      }
      if Touches(bs, w, 0) > MAX_REGION {
        var k := FindOverrun(bs, w, 0);
        assert ExitAt(bs, w, maps, k).None?;
        Passed(bs, w, maps, k);
      }
    }
    if NoneEmptyAbove(bs) && NodesFit(bs, w) && MapsSucceed(bs, w, maps) && Touches(bs, w, 0) <= MAX_REGION {
      forall i | 0 <= i < |bs|
        ensures ExitAt(bs, w, maps, i).None?
      {
        assert !MapFails(bs, w, maps, i);
        TouchesGrow(bs, w, 0, i);
        Passed(bs, w, maps, i);
      }
    }
  }

  lemma Passed(bs: seq<Boot>, w: Window, maps: seq<Option<nat>>, i: nat)
    requires Ordered(bs) && |maps| == |bs| && i < |bs| && w.start <= w.end
    ensures ExitAt(bs, w, maps, i).None? <==>
      && !(i + 1 < |bs| && Empty(bs[i + 1])) && !(Touched(bs[i], w) && Touches(bs, w, i + 1) >= MAX_REGION)
      && (CutOf(bs[i], w).Some? ==> NodeFits(bs[i])) && !MapFails(bs, w, maps, i)
    ensures Touches(bs, w, i) == Touches(bs, w, i + 1) + if Touched(bs[i], w) then 1 else 0
  {
    hide Cut, Aligned, CutOf, Touched, RegionExit, NodeFits, Empty;
    PassedExactly(bs[i], w, maps[i], i + 1 < |bs| && Empty(bs[i + 1]), Touches(bs, w, i + 1));
  }

  // init_module succeeds exactly when the loop gets to its end with some range.
  lemma SucceedsExactly(bs: seq<Boot>, w: Window, maps: seq<Option<nat>>)
    requires Ordered(bs) && |maps| == |bs| && w.start <= w.end
    ensures Initialised(bs, w, maps).0 == Success <==>
      Completes(bs, w, maps) && (RwFrom(bs, w, maps, 0) != [] || RoFrom(bs, w, 0) != [])
    ensures Initialised(bs, w, maps).0 == Success ==> Initialised(bs, w, maps).1 == RwFrom(bs, w, maps, 0)
    ensures Initialised(bs, w, maps).1 == RwFrom(bs, w, maps, Stop(bs, w, maps, |bs|))
  {
    hide RwFrom, RoFrom, Aligned, CutOf, Touched;
    StopsAtEnd(bs, w, maps);
  }

  // A failed mapping, with nothing wrong in the regions above: the loop ends with its
  // error, and with what was mapped for the regions above.
  lemma FailedMapping(bs: seq<Boot>, w: Window, maps: seq<Option<nat>>, i: nat)
    requires Ordered(bs) && |maps| == |bs| && w.start <= w.end && i < |bs| && MapFails(bs, w, maps, i)
    requires forall k :: i < k < |bs| ==> ExitAt(bs, w, maps, k).None?
    requires Touches(bs, w, i) <= MAX_REGION && !(i + 1 < |bs| && Empty(bs[i + 1]))
    ensures Initialised(bs, w, maps).0 == ErrMap
    ensures Initialised(bs, w, maps).1 == RwFrom(bs, w, maps, i + 1)
  {
    hide RwFrom, RoFrom, Cut;
    Passed(bs, w, maps, i);
    AlignedInside(bs[i], w);
    StopsAt(bs, w, maps, i, |bs|);
  }

  lemma {:induction false} StopsAt(bs: seq<Boot>, w: Window, maps: seq<Option<nat>>, i: nat, n: nat)
    requires Ordered(bs) && |maps| == |bs| && i < n <= |bs| && ExitAt(bs, w, maps, i).Some?
    requires forall k :: i < k < n ==> ExitAt(bs, w, maps, k).None?
    ensures Stop(bs, w, maps, n) == i + 1
    decreases n
  {
    hide ExitAt;
    if i + 1 < n {
      StopsAt(bs, w, maps, i, n - 1);
    }
  }

  lemma {:induction false} NothingFrom(bs: seq<Boot>, w: Window, maps: seq<Option<nat>>, i: nat)
    requires Ordered(bs) && |maps| == |bs| && w.start <= w.end && i <= |bs|
    requires forall k :: 0 <= k < |bs| ==> CutOf(bs[k], w).None?
    ensures RwFrom(bs, w, maps, i) == [] && RoFrom(bs, w, i) == []
    decreases |bs| - i
  {
    hide Cut, CutOf;
    if i < |bs| {
      NothingFrom(bs, w, maps, i + 1);
    }
  }

  // Where nothing but the size of raw_reg is in the way, the C code writes past it.
  lemma OverrunIsUndefined(bs: seq<Boot>, w: Window, maps: seq<Option<nat>>)
    requires Ordered(bs) && |maps| == |bs| && w.start <= w.end
    requires NoneEmptyAbove(bs) && NodesFit(bs, w) && MapsSucceed(bs, w, maps) && Touches(bs, w, 0) > MAX_REGION
    ensures Initialised(bs, w, maps).0 == Undefined
  {
    hide RwFrom, RoFrom, Cut;
    CompletesExactly(bs, w, maps);
    StopsAtEnd(bs, w, maps);
    var i := Stop(bs, w, maps, |bs|) - 1;
    assert !MapFails(bs, w, maps, i);
    AlignedInside(bs[i], w);
  }

  // A window that meets no region is an error, as soon as the loop gets to its end.
  lemma NothingToTest(bs: seq<Boot>, w: Window, maps: seq<Option<nat>>)
    requires Ordered(bs) && |maps| == |bs| && w.start <= w.end && Completes(bs, w, maps)
    requires forall k :: 0 <= k < |bs| ==> CutOf(bs[k], w).None?
    ensures Initialised(bs, w, maps).0 == ErrInputAddress
  {
    hide CutOf, ExitAt;
    StopsAtEnd(bs, w, maps);
    NothingFrom(bs, w, maps, 0);
  }
}
