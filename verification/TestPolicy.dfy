// test_policy in task_generator.c: one slice of each read/write range per CPU.
module TestPolicy {
  import opened Common
  import opened TaskSlices

  datatype Mode = Local | Remote | Specific

  // How a range is cut: count slices of step bytes, the last one longer by remain.
  datatype Plan = Plan(count: nat, step: nat, remain: nat)

  function PlanOf(size: nat, cores: nat, specific: bool): Plan
    requires cores > 0
  {
    if specific then Plan(1, size, 0)
    else if size / MIN_BLOCK_SIZE > cores then
      var step := RoundDown(size / cores);
      StepFits(size, cores);
      Plan(cores, step, size - step * cores)
    else Plan(size / MIN_BLOCK_SIZE, MIN_BLOCK_SIZE, size % MIN_BLOCK_SIZE)
  }

  lemma StepFits(size: nat, cores: nat)
    requires cores > 0
    ensures RoundDown(size / cores) * cores <= size
  {
    var step, q := RoundDown(size / cores), size / cores;
    assert step * cores <= q * cores by {
      assert (q - step) * cores >= 0;
    }
  }

  // The slices tile the range.
  lemma PlanTiles(size: nat, cores: nat, specific: bool)
    requires cores > 0
    ensures var p := PlanOf(size, cores, specific);
      && (p.count == 0 <==> !specific && size < MIN_BLOCK_SIZE)
      && p.count <= cores && (specific ==> p.count == 1)
      && p.count * p.step + p.remain == size
      && (!specific ==> p.step >= MIN_BLOCK_SIZE && p.step % MIN_BLOCK_SIZE == 0)
  {
    if !specific && size / MIN_BLOCK_SIZE > cores {
      StepFits(size, cores);
      QuotientAtLeast(size, cores, MIN_BLOCK_SIZE);
    }
  }

  lemma LessThanAPageEach(step: nat, rest: nat, r: nat, cores: nat)
    requires rest < PAGE_SIZE && r < cores
    ensures (step + rest) * cores + r - step * cores < cores * PAGE_SIZE
  {
    Distribute(step, rest, cores);
    MulMonotone(rest, PAGE_SIZE - 1, cores);
  }

  lemma Distribute(a: nat, b: nat, c: nat)
    ensures (a + b) * c == a * c + b * c
  {
  }

  // What the last slice gets on top is less than one page for each core.
  lemma RemainBound(size: nat, cores: nat)
    requires cores > 0 && size % MIN_BLOCK_SIZE == 0
    ensures PlanOf(size, cores, false).remain % MIN_BLOCK_SIZE == 0
    ensures PlanOf(size, cores, false).remain <= (cores - 1) * MIN_BLOCK_SIZE
  {
    if size / MIN_BLOCK_SIZE > cores {
      var q := size / cores;
      StepFits(size, cores);
      LessThanAPageEach(RoundDown(q), q - RoundDown(q), size % cores, cores);
      WholePagesLeft(size / PAGE_SIZE, q / PAGE_SIZE, cores);
    }
  }

  lemma WholePagesLeft(pages: nat, s: nat, cores: nat)
    ensures pages * PAGE_SIZE - s * PAGE_SIZE * cores == (pages - s * cores) * PAGE_SIZE
  {
    assert s * PAGE_SIZE * cores == s * cores * PAGE_SIZE;
  }

  // ---- The CPU tables ----

  // create_LOCAL_table: row i holds 0..i and -1 after that.
  method CreateLocalTable(num: nat) returns (p: array2<int>)
    ensures fresh(p) && p.Length0 == num && p.Length1 == num
    ensures forall i, j :: 0 <= i < num && 0 <= j < num ==> p[i, j] == if i >= j then j else -1
  {
    p := new int[num, num]((i, j) => -1);
    for i := 0 to num
      invariant forall a, j :: 0 <= a < num && 0 <= j < num ==>
        p[a, j] == if a < i && a >= j then j else -1
    {
      for j := 0 to num
        invariant forall a, b :: 0 <= a < num && 0 <= b < num ==>
          p[a, b] == if (a < i || (a == i && b < j)) && a >= b then b else -1
      {
        if i >= j {
          p[i, j] := j;
        }
      }
    }
  }

  // create_SPECIFIC_table: the chosen CPU everywhere.
  method CreateSpecificTable(num: nat, specId: int) returns (p: array2<int>)
    ensures fresh(p) && p.Length0 == num && p.Length1 == num
    ensures forall i, j :: 0 <= i < num && 0 <= j < num ==> p[i, j] == specId
  {
    p := new int[num, num]((i, j) => -1);
    for i := 0 to num
      invariant forall a, j :: 0 <= a < i && 0 <= j < num ==> p[a, j] == specId
    {
      for j := 0 to num
        invariant forall a, b :: 0 <= a < num && 0 <= b < num && (a < i || (a == i && b < j)) ==> p[a, b] == specId
      {
        p[i, j] := specId;
      }
    }
  }

  // ---- The slices of one range ----

  function SliceAt(rw: RwRange, p: Plan, n: nat, cpu: int): Slice
    requires n < p.count
  {
    var start := rw.start + n * p.step;
    Slice(start, start + p.step + (if n == p.count - 1 then p.remain else 0), rw.phyStart + n * p.step, cpu)
  }

  // The CPU of slice n: its own number, or the chosen CPU.
  function CpuAt(specific: Option<int>, n: nat): int {
    if specific.Some? then specific.value else n
  }

  // The slices in order of address.
  function Slices(rw: RwRange, cores: nat, specific: Option<int>): (s: seq<Slice>)
    requires cores > 0 && rw.start <= rw.end
  {
    var p := PlanOf(rw.end - rw.start, cores, specific.Some?);
    seq(p.count, n requires 0 <= n < p.count => SliceAt(rw, p, n, CpuAt(specific, n)))
  }

  function Reverse<T>(s: seq<T>): (r: seq<T>)
    ensures |r| == |s| && forall i :: 0 <= i < |s| ==> r[i] == s[|s| - 1 - i]
  {
    if s == [] then [] else Reverse(s[1..]) + [s[0]]
  }

  method MakePlan(size: nat, cores: nat, specific: bool) returns (sliceNum: nat, stepSize: nat, remain: nat)
    requires cores > 0
    ensures Plan(sliceNum, stepSize, remain) == PlanOf(size, cores, specific)
  {
    if specific {
      return 1, size, 0;
    }
    sliceNum, stepSize, remain := size / MIN_BLOCK_SIZE, MIN_BLOCK_SIZE, size % MIN_BLOCK_SIZE;
    if sliceNum > cores {
      sliceNum := cores;
      stepSize := RoundDown(size / cores);
      StepFits(size, cores);
      remain := size - stepSize * cores;
    }
  }

  // list_add puts each slice in front of the ones before it.
  method CutRange(rw: RwRange, cores: nat, specific: Option<int>, table: array2<int>) returns (list: seq<Slice>)
    requires cores > 0 && rw.start <= rw.end
    requires table.Length0 == table.Length1 == cores
    requires forall i, j :: 0 <= j <= i < cores ==> table[i, j] == CpuAt(specific, j)
    ensures Reverse(list) == Slices(rw, cores, specific)
  {
    hide PlanOf, Slices, Reverse, CpuAt;
    var sliceNum, stepSize, remain := MakePlan(rw.end - rw.start, cores, specific.Some?);
    ghost var p := Plan(sliceNum, stepSize, remain);
    PlanTiles(rw.end - rw.start, cores, specific.Some?);
    list := [];
    for n := 0 to sliceNum
      invariant |list| == n
      invariant forall k :: 0 <= k < n ==> list[n - 1 - k] == SliceAt(rw, p, k, CpuAt(specific, k))
    {
      var start := rw.start + n * stepSize;
      var end := start + stepSize;
      if n == sliceNum - 1 {
        end := end + remain;
      }
      list := [Slice(start, end, rw.phyStart + n * stepSize, table[sliceNum - 1, n])] + list;
    }
    AreSlices(list, rw, cores, specific);
  }

  lemma AreSlices(list: seq<Slice>, rw: RwRange, cores: nat, specific: Option<int>)
    requires cores > 0 && rw.start <= rw.end
    requires |list| == PlanOf(rw.end - rw.start, cores, specific.Some?).count
    requires forall k :: 0 <= k < |list| ==>
      list[|list| - 1 - k] == SliceAt(rw, PlanOf(rw.end - rw.start, cores, specific.Some?), k, CpuAt(specific, k))
    ensures Reverse(list) == Slices(rw, cores, specific)
  {
    hide SliceAt, PlanOf, CpuAt;
  }

  // ---- What the slices are ----

  // Each slice begins where the one before it ends, in both address spaces; the first
  // begins and the last ends with the range.
  lemma SlicesContiguous(rw: RwRange, cores: nat, specific: Option<int>, n: nat)
    requires cores > 0 && rw.start <= rw.end && n < |Slices(rw, cores, specific)|
    ensures var s := Slices(rw, cores, specific);
      && (n == 0 ==> s[n].start == rw.start && s[n].phyStart == rw.phyStart)
      && (n + 1 < |s| ==> s[n].end == s[n + 1].start)
      && (n + 1 == |s| ==> s[n].end == rw.end)
      && s[n].phyStart - rw.phyStart == s[n].start - rw.start
      && s[n].start <= s[n].end
  {
    var p := PlanOf(rw.end - rw.start, cores, specific.Some?);
    PlanTiles(rw.end - rw.start, cores, specific.Some?);
    assert (n + 1) * p.step == n * p.step + p.step;
  }

  lemma {:induction false} SlicesAscend(rw: RwRange, cores: nat, specific: Option<int>, m: nat, n: nat)
    requires cores > 0 && rw.start <= rw.end && m < n < |Slices(rw, cores, specific)|
    ensures Slices(rw, cores, specific)[m].end <= Slices(rw, cores, specific)[n].start
    decreases n
  {
    SlicesContiguous(rw, cores, specific, n - 1);
    if m < n - 1 {
      SlicesAscend(rw, cores, specific, m, n - 1);
    }
  }

  lemma {:induction false} FindSlice(rw: RwRange, cores: nat, specific: Option<int>, x: nat, n: nat) returns (k: nat)
    requires cores > 0 && rw.start <= rw.end && n < |Slices(rw, cores, specific)|
    requires rw.start <= x < Slices(rw, cores, specific)[n].end
    ensures k <= n && Slices(rw, cores, specific)[k].start <= x < Slices(rw, cores, specific)[k].end
    decreases n
  {
    SlicesContiguous(rw, cores, specific, n);
    if Slices(rw, cores, specific)[n].start <= x {
      k := n;
    } else {
      SlicesContiguous(rw, cores, specific, n - 1);
      k := FindSlice(rw, cores, specific, x, n - 1);
    }
  }

  lemma SomeSlice(rw: RwRange, cores: nat, specific: Option<int>)
    requires cores > 0 && rw.start <= rw.end && (specific.Some? || rw.start + MIN_BLOCK_SIZE <= rw.end)
    ensures |Slices(rw, cores, specific)| > 0
  {
    PlanTiles(rw.end - rw.start, cores, specific.Some?);
  }

  // A partition: every byte of a range of at least a page is in exactly one slice.
  lemma SlicesPartition(rw: RwRange, cores: nat, specific: Option<int>, x: nat)
    requires cores > 0 && rw.start <= rw.end && (specific.Some? || rw.start + MIN_BLOCK_SIZE <= rw.end)
    ensures var s := Slices(rw, cores, specific);
      rw.start <= x < rw.end <==> exists k :: 0 <= k < |s| && s[k].start <= x < s[k].end
    ensures var s := Slices(rw, cores, specific);
      forall j, k :: 0 <= j < k < |s| ==> s[j].end <= s[k].start
  {
    hide Slices;
    var s := Slices(rw, cores, specific);
    SomeSlice(rw, cores, specific);
    SlicesContiguous(rw, cores, specific, |s| - 1);
    forall j, k | 0 <= j < k < |s|
      ensures s[j].end <= s[k].start
    {
      SlicesAscend(rw, cores, specific, j, k);
    }
    if rw.start <= x < rw.end {
      var k := FindSlice(rw, cores, specific, x, |s| - 1);
    }
    if k :| 0 <= k < |s| && s[k].start <= x < s[k].end {
      SliceInside(rw, cores, specific, k);
    }
  }

  lemma SliceInside(rw: RwRange, cores: nat, specific: Option<int>, k: nat)
    requires cores > 0 && rw.start <= rw.end && k < |Slices(rw, cores, specific)|
    ensures rw.start <= Slices(rw, cores, specific)[k].start && Slices(rw, cores, specific)[k].end <= rw.end
  {
    var n := |Slices(rw, cores, specific)| - 1;
    SlicesContiguous(rw, cores, specific, 0);
    SlicesContiguous(rw, cores, specific, k);
    SlicesContiguous(rw, cores, specific, n);
    if k > 0 {
      SlicesAscend(rw, cores, specific, 0, k);
    }
    if k < n {
      SlicesAscend(rw, cores, specific, k, n);
    }
  }

  predicate WholePages(size: int) {
    size > 0 && size % MIN_BLOCK_SIZE == 0
  }

  lemma PlanIsWholePages(size: nat, cores: nat, specific: bool)
    requires cores > 0 && WholePages(size)
    ensures WholePages(PlanOf(size, cores, specific).step)
    ensures PlanOf(size, cores, specific).remain % MIN_BLOCK_SIZE == 0
  {
    PlanTiles(size, cores, specific);
    if !specific {
      RemainBound(size, cores);
    }
  }

  lemma SliceAtIsWholePages(rw: RwRange, p: Plan, n: nat, cpu: int)
    requires n < p.count && WholePages(p.step) && p.remain % MIN_BLOCK_SIZE == 0
    ensures WholePages(SliceAt(rw, p, n, cpu).end - SliceAt(rw, p, n, cpu).start)
  {
  }

  // Each slice is a positive whole number of pages.
  lemma SliceIsWholePages(rw: RwRange, cores: nat, specific: Option<int>, n: nat)
    requires cores > 0 && rw.start <= rw.end && n < |Slices(rw, cores, specific)|
    requires WholePages(rw.end - rw.start)
    ensures WholePages(Slices(rw, cores, specific)[n].end - Slices(rw, cores, specific)[n].start)
  {
    PlanIsWholePages(rw.end - rw.start, cores, specific.Some?);
    SliceAtIsWholePages(rw, PlanOf(rw.end - rw.start, cores, specific.Some?), n, CpuAt(specific, n));
  }

  // ---- How many slices, how long, and on which CPU ----

  // A product by name, so that the solver does not multiply out what it need not.
  function Times(a: nat, b: nat): nat {
    a * b
  }

  lemma TimesGrows(a: nat, b: nat, c: nat)
    requires a <= b
    ensures Times(a, c) <= Times(b, c)
  {
    MulMonotone(a, b, c);
  }

  lemma TimesRegroups(r: nat, a: nat, b: nat)
    ensures Times(Times(r, b), a) == Times(r, Times(a, b)) && Times(a, b) == Times(b, a)
    ensures a > 0 && b > 0 ==> Times(a, b) > 0
  {
  }

  lemma QuotientBounds(n: nat, d: nat)
    requires d > 0
    ensures Times(n / d, d) <= n < Times(n / d + 1, d)
  {
  }

  lemma QuotientIs(n: nat, d: nat, k: nat)
    requires d > 0 && Times(k, d) <= n < Times(k + 1, d)
    ensures n / d == k
  {
    hide Times;
    QuotientBounds(n, d);
    if n / d < k {
      TimesGrows(n / d + 1, k, d);
    } else if n / d > k {
      TimesGrows(k + 1, n / d, d);
    }
  }

  lemma DivideTwice(n: nat, a: nat, b: nat)
    requires a > 0 && b > 0
    ensures Times(a, b) > 0 && n / a / b == n / Times(a, b)
  {
    hide Times;
    var q := n / a;
    var r := q / b;
    TimesRegroups(r, a, b);
    TimesRegroups(r + 1, a, b);
    QuotientBounds(n, a);
    QuotientBounds(q, b);
    TimesGrows(Times(r, b), q, a);
    TimesGrows(q + 1, Times(r + 1, b), a);
    QuotientIs(n, Times(a, b), r);
  }

  lemma PagesEach(size: nat, cores: nat)
    requires cores > 0
    ensures size / cores / PAGE_SIZE == size / PAGE_SIZE / cores
  {
    hide Times;
    DivideTwice(size, cores, PAGE_SIZE);
    DivideTwice(size, PAGE_SIZE, cores);
    TimesRegroups(0, cores, PAGE_SIZE);
  }

  function Fewer(a: nat, b: nat): nat {
    if a < b then a else b
  }

  // Without a chosen CPU a range gets a slice for every CPU, or for every page when
  // there are fewer; slice n runs on CPU n, and all but the last are the same whole
  // number of pages, as many as each can have.
  lemma SliceForEachCpu(rw: RwRange, cores: nat)
    requires cores > 0 && rw.start <= rw.end
    ensures var s, pages := Slices(rw, cores, None), (rw.end - rw.start) / PAGE_SIZE;
      && |s| == Fewer(cores, pages)
      && (forall n :: 0 <= n < |s| ==> s[n].cpu == n)
      && (forall n :: 0 <= n < |s| - 1 ==> s[n].end - s[n].start == pages / |s| * PAGE_SIZE)
  {
    var size := rw.end - rw.start;
    PagesEach(size, cores);
    if 0 < size / PAGE_SIZE <= cores {
      Itself(size / PAGE_SIZE);
    }
  }

  lemma Itself(n: nat)
    requires n > 0
    ensures n / n == 1
  {
  }

  // With a chosen CPU the range is one slice.
  lemma OneSlice(rw: RwRange, cores: nat, cpu: int)
    requires cores > 0 && rw.start <= rw.end
    ensures Slices(rw, cores, Some(cpu)) == [Slice(rw.start, rw.end, rw.phyStart, cpu)]
  {
  }

  // The last slice is the longest, by less than one page
  // for each core.
  lemma SlicesBalanced(rw: RwRange, cores: nat, j: nat, k: nat)
    requires cores > 0 && rw.start <= rw.end && (rw.end - rw.start) % MIN_BLOCK_SIZE == 0
    requires j < k < |Slices(rw, cores, None)|
    ensures var s := Slices(rw, cores, None);
      && 0 <= s[j].cpu < s[k].cpu < cores
      && (s[j].end - s[j].start) <= (s[k].end - s[k].start)
      && (s[k].end - s[k].start) - (s[j].end - s[j].start) <= (cores - 1) * MIN_BLOCK_SIZE
  {
    RemainBound(rw.end - rw.start, cores);
    PlanTiles(rw.end - rw.start, cores, false);
  }

  // ---- test_policy ----

  const NO_SPECIFY_CPU: int := -1

  function Chosen(mode: Mode, cpu: int): Option<int> {
    if cpu != NO_SPECIFY_CPU then Some(cpu) else if mode == Specific then Some(0) else None
  }

  predicate CpuFits(cores: nat, cpu: int) {
    0 < cores <= CORE_COUNT && (cpu == NO_SPECIFY_CPU || 0 <= cpu < cores)
  }

  // The slices of one range, the last one first: one slice on the CPU given, or on CPU 0
  // in specific mode, and otherwise slice n on CPU n for as many CPUs as have a page.
  ghost predicate RunsOn(list: seq<Slice>, rw: RwRange, cores: nat, mode: Mode, cpu: int)
    requires rw.start <= rw.end
  {
    if cpu != NO_SPECIFY_CPU then list == [Slice(rw.start, rw.end, rw.phyStart, cpu)]
    else match mode
      case Specific => list == [Slice(rw.start, rw.end, rw.phyStart, 0)]
      case Local | Remote =>
        && |list| == Fewer(cores, (rw.end - rw.start) / PAGE_SIZE)
        && forall n :: 0 <= n < |list| ==> list[n].cpu == |list| - 1 - n
  }

  lemma RunsAsChosen(list: seq<Slice>, rw: RwRange, cores: nat, mode: Mode, cpu: int)
    requires cores > 0 && rw.start <= rw.end && Reverse(list) == Slices(rw, cores, Chosen(mode, cpu))
    ensures RunsOn(list, rw, cores, mode, cpu)
  {
    hide Slices;
    if Chosen(mode, cpu).Some? {
      OneSlice(rw, cores, Chosen(mode, cpu).value);
      assert Reverse(list)[0] == list[0];
    } else {
      SliceForEachCpu(rw, cores);
      forall n | 0 <= n < |list|
        ensures list[n].cpu == |list| - 1 - n
      {
        assert Reverse(list)[|list| - 1 - n] == list[n];
      }
    }
  }

  // The slice lists of all ranges, or the error for a bad core count or CPU.
  method Policy(rws: seq<RwRange>, cores: nat, mode: Mode, cpu: int)
    returns (status: ReturnCode, lists: seq<seq<Slice>>)
    requires forall k :: 0 <= k < |rws| ==> rws[k].start <= rws[k].end
    ensures status == Success <==> CpuFits(cores, cpu)
    ensures status != Success ==> status == ErrCoreNum && lists == []
    ensures status == Success ==> |lists| == |rws|
    ensures status == Success ==>
      forall k :: 0 <= k < |rws| ==> Reverse(lists[k]) == Slices(rws[k], cores, Chosen(mode, cpu))
    ensures status == Success ==> forall k :: 0 <= k < |rws| ==> RunsOn(lists[k], rws[k], cores, mode, cpu)
  {
    lists := [];
    if cores == 0 || cores > CORE_COUNT {
      return ErrCoreNum, lists;
    }
    if cpu != NO_SPECIFY_CPU {
      // The comparison is unsigned: a negative cpu counts as too large.
      if cpu < 0 || cpu >= cores {
        return ErrCoreNum, lists;
      }
    }
    var table;
    var chosen := Chosen(mode, cpu);
    if chosen.Some? {
      table := CreateSpecificTable(cores, chosen.value);
    } else {
      table := CreateLocalTable(cores);
    }
    for i := 0 to |rws|
      invariant |lists| == i && table.Length0 == table.Length1 == cores
      invariant forall a, b :: 0 <= b <= a < cores ==> table[a, b] == CpuAt(chosen, b)
      invariant forall k :: 0 <= k < i ==> Reverse(lists[k]) == Slices(rws[k], cores, chosen)
      invariant forall k :: 0 <= k < i ==> RunsOn(lists[k], rws[k], cores, mode, cpu)
    {
      hide Reverse, Slices, RunsOn;
      var list := CutRange(rws[i], cores, chosen, table);
      RunsAsChosen(list, rws[i], cores, mode, cpu);
      lists := lists + [list];
    }
    return Success, lists;
  }
}
