// movinv1: moving inversions over chunks of SPINSZ words.
module MovInv {
  import opened Common
  import opened MemoryDevice
  import opened MarchSpec
  import opened MarchDetect
  import opened MarchDecode
  import opened MarchTest

  const SPINSZ: int := 0x2000000

  // The downward chunk loop breaks off when its cursor meets the chunk boundary,
  // which for these lengths happens with word 0 still to do.
  predicate Skips(cnt: nat) {
    cnt == 1 || (cnt >= SPINSZ + 2 && (cnt - 2) % SPINSZ == 0)
  }

  function DownSteps(cnt: nat): nat {
    if Skips(cnt) then cnt - 1 else cnt
  }

  // The lengths test_policy hands out are whole pages, 512 words each.
  lemma WholePagesNeverSkip(cnt: nat)
    requires cnt > 0 && cnt % 512 == 0
    ensures !Skips(cnt) && DownSteps(cnt) == cnt
  {
  }

  function Comparing(compare: bool, w: Word): Option<Word> {
    if compare then Some(w) else None
  }

  // A pass after others; these passes only remember a mismatch.
  function Follow(d: Device, o: Outcome, e: Pass, n: nat): (o': Outcome)
    requires WellFormed(d) && |o.cells| == d.size && n <= |d.decode|
    ensures |o'.cells| == d.size
  {
    var next := Steps(d, o.cells, e, n);
    Outcome(next.cells, o.ok && next.ok)
  }

  function Round(d: Device, o: Outcome, p1: Word, p2: Word, compare: bool): (o': Outcome)
    requires WellFormed(d) && |o.cells| == d.size
    ensures |o'.cells| == d.size
  {
    var up := Follow(d, o, Pass(true, Comparing(compare, p1), Some(p2), false), |d.decode|);
    Follow(d, up, Pass(false, Comparing(compare, p2), Some(p1), false), DownSteps(|d.decode|))
  }

  function MovInvRun(d: Device, cells: seq<Word>, p1: Word, p2: Word, compare: bool, iter: nat): (o: Outcome)
    requires WellFormed(d) && |cells| == d.size
    ensures |o.cells| == d.size
    decreases iter
  {
    if iter == 0 then Sweep(d, cells, Fill(p1))
    else Round(d, MovInvRun(d, cells, p1, p2, compare, iter - 1), p1, p2, compare)
  }

  // One word of either loop: compare if asked, then store.
  method Touch(mem: Memory, p: nat, good: Word, next: Word, compare: bool, ghost e: Pass, ghost before: Outcome)
    returns (ok: bool)
    requires mem.Valid() && p < mem.Words() && mem.cells == before.cells
    requires e.check == Comparing(compare, good) && e.store == Some(next) && !e.stop
    modifies mem
    ensures mem.Valid() && Outcome(mem.cells, before.ok && ok) == Visit(mem.device, before, p, e)
  {
    ok := true;
    if compare {
      var bad := mem.Read(p);
      if bad != good {
        ok := false;
      }
    }
    mem.Write(p, next);
  }

  // The upward chunk loop.
  method UpPass(mem: Memory, good: Word, next: Word, compare: bool) returns (ok: bool)
    requires mem.Valid()
    modifies mem
    ensures mem.Valid()
    ensures Outcome(mem.cells, ok) ==
      Steps(mem.device, old(mem.cells), Pass(true, Comparing(compare, good), Some(next), false), mem.Words())
  {
    ghost var e := Pass(true, Comparing(compare, good), Some(next), false);
    var end := mem.Words();
    var pe, p, done := 0, 0, false;
    ok := true;
    while !done
      invariant 0 <= p == pe <= end && mem.Valid() && (if done then p == end else p < end || end == 0)
      invariant Outcome(mem.cells, ok) == Steps(mem.device, old(mem.cells), e, p)
      decreases end - p
    {
      pe := pe + SPINSZ;
      if pe >= end {
        pe, done := end, true;
      }
      if p == pe {
        break;
      }
      while p < pe
        invariant 0 <= p <= pe <= end && mem.Valid()
        invariant Outcome(mem.cells, ok) == Steps(mem.device, old(mem.cells), e, p)
      {
        var right := Touch(mem, p, good, next, compare, e, Outcome(mem.cells, ok));
        ok := ok && right;
        p := p + 1;
      }
    }
  }

  lemma {:induction false} UncheckedOk(d: Device, cells: seq<Word>, e: Pass, n: nat)
    requires WellFormed(d) && |cells| == d.size && n <= |d.decode| && e.check == None
    ensures Steps(d, cells, e, n).ok
    decreases n
  {
    if n > 0 {
      UncheckedOk(d, cells, e, n - 1);
    }
  }

  // One chunk: the source's do-while from p down to pe.
  method DownChunk(mem: Memory, p0: nat, pe: nat, good: Word, next: Word, compare: bool, ok0: bool,
                   ghost cells: seq<Word>)
    returns (p: int, ok: bool)
    requires mem.Valid() && pe <= p0 < mem.Words() && |cells| == mem.device.size
    requires Outcome(mem.cells, ok0) ==
      Steps(mem.device, cells, Pass(false, Comparing(compare, good), Some(next), false), mem.Words() - 1 - p0)
    modifies mem
    ensures mem.Valid() && p == pe - 1
    ensures Outcome(mem.cells, ok) ==
      Steps(mem.device, cells, Pass(false, Comparing(compare, good), Some(next), false), mem.Words() - pe)
  {
    ghost var e := Pass(false, Comparing(compare, good), Some(next), false);
    var cnt := mem.Words();
    p, ok := p0, ok0;
    var again := true;
    while again
      invariant mem.Valid() && pe - 1 <= p < cnt && (if again then pe <= p else p == pe - 1)
      invariant Outcome(mem.cells, ok) == Steps(mem.device, cells, e, cnt - 1 - p)
      decreases p + 1
    {
      var right := Touch(mem, p, good, next, compare, e, Outcome(mem.cells, ok));
      ok := ok && right;
      again := p > pe;
      p := p - 1;
    }
  }

  // The downward chunk loop, with its early break.
  method DownPass(mem: Memory, good: Word, next: Word, compare: bool) returns (ok: bool)
    requires mem.Valid() && mem.Words() > 0
    modifies mem
    ensures mem.Valid()
    ensures Outcome(mem.cells, ok) ==
      Steps(mem.device, old(mem.cells), Pass(false, Comparing(compare, good), Some(next), false),
        DownSteps(mem.Words()))
  {
    ghost var e := Pass(false, Comparing(compare, good), Some(next), false);
    var cnt := mem.Words();
    var pe: int, p: int, done := cnt - 1, cnt - 1, false;
    ok := true;
    ghost var k := 0;
    while !done
      invariant -1 <= p < cnt && mem.Valid() && k >= 0
      invariant if done then p == -1 && !Skips(cnt) else pe == cnt - 1 - k * SPINSZ >= 0
      invariant !done ==> if k == 0 then p == cnt - 1 else p == pe - 1 && pe > 0
      invariant Outcome(mem.cells, ok) == Steps(mem.device, old(mem.cells), e, cnt - 1 - p)
      decreases if done then 0 else p + 2
    {
      pe := pe - SPINSZ;
      if pe <= 0 {
        pe, done := 0, true;
      }
      if p == pe {
        BreakMeansSkip(cnt, k);
        break;
      }
      LastChunk(cnt, k, done);
      p, ok := DownChunk(mem, p, pe, good, next, compare, ok, old(mem.cells));
      k := k + 1;
    }
  }

  lemma BreakMeansSkip(cnt: nat, k: nat)
    requires if k == 0 then cnt == 1 else cnt == k * SPINSZ + 2
    ensures Skips(cnt)
  {
  }

  lemma LastChunk(cnt: nat, k: nat, done: bool)
    requires cnt > 0 && done ==> 0 <= cnt - 1 - k * SPINSZ <= SPINSZ && (k > 0 ==> cnt - 2 - k * SPINSZ > 0)
    requires done && k == 0 ==> cnt > 1
    ensures done ==> !Skips(cnt)
  {
  }

  // Without a word a round of the C code writes before the buffer; with no round it only fills.
  method MovInv1(mem: Memory, iter: nat, p1: Word, p2: Word, compare: bool) returns (ret: Status)
    requires mem.Valid() && (mem.Words() > 0 || iter == 0)
    modifies mem
    ensures mem.Valid()
    ensures Outcome(mem.cells, ret == Success) == MovInvRun(mem.device, old(mem.cells), p1, p2, compare, iter)
  {
    hide Steps, Skips;
    ret := Success;
    UncheckedOk(mem.device, mem.cells, Fill(p1), mem.Words());
    var _ := UpPass(mem, p1, p1, false);
    var i := 0;
    while i < iter
      invariant i <= iter && mem.Valid()
      invariant Outcome(mem.cells, ret == Success) == MovInvRun(mem.device, old(mem.cells), p1, p2, compare, i)
    {
      var ok := UpPass(mem, p1, p2, compare);
      if !ok {
        ret := Fail;
      }
      ok := DownPass(mem, p2, p1, compare);
      if !ok {
        ret := Fail;
      }
      i := i + 1;
    }
  }

  // ---- What the verdict means ----

  lemma StoredVisit(d: Device, o: Outcome, i: nat, b: Word, e: Pass)
    requires WellFormed(d) && d.fault.Healthy? && |o.cells| == d.size && i < |d.decode| && !e.stop && e.store == Some(b)
    ensures Visit(d, o, i, e).cells == o.cells[d.decode[i] := b]
  {
  }

  // A pass that does not stop stores everywhere it goes, whatever it compares.
  lemma {:induction false} StoredEverywhere(d: Device, cells: seq<Word>, e: Pass, b: Word, n: nat)
    requires WellFormed(d) && d.fault.Healthy? && |cells| == d.size && n <= |d.decode| && !e.stop && e.store == Some(b)
    ensures var o := Steps(d, cells, e, n);
      forall i :: 0 <= i < |d.decode| && At(e.up, |d.decode|, i) < n ==> o.cells[d.decode[i]] == b
    decreases n
  {
    hide Visit;
    if n > 0 {
      StoredEverywhere(d, cells, e, b, n - 1);
      StoredVisit(d, Steps(d, cells, e, n - 1), At(e.up, |d.decode|, n - 1), b, e);
      assert At(e.up, |d.decode|, At(e.up, |d.decode|, n - 1)) == n - 1;
    }
  }

  lemma {:induction false} FirstMismatchCounts(d: Device, cells: seq<Word>, e: Pass, n: nat)
    requires WellFormed(d) && |cells| == d.size && 0 < n <= |d.decode|
    requires !Matches(d, cells, d.decode[At(e.up, |d.decode|, 0)], e.check)
    ensures !Steps(d, cells, e, n).ok
    decreases n
  {
    if n > 1 {
      FirstMismatchCounts(d, cells, e, n - 1);
    } else {
      assert Steps(d, cells, e, 0) == Outcome(cells, true);
    }
  }

  // Word 0 left at `odd`, every other word at w.
  ghost predicate ReadsButFirst(d: Device, cells: seq<Word>, w: Word, odd: Word)
    requires WellFormed(d) && |cells| == d.size && |d.decode| > 0
  {
    cells[d.decode[0]] == odd && forall i :: 0 < i < |d.decode| ==> cells[d.decode[i]] == w
  }

  // A down pass over a memory of p2.
  lemma DownOver(d: Device, cells: seq<Word>, p1: Word, p2: Word, compare: bool)
    requires WellFormed(d) && d.fault.Healthy? && Injective(d) && |cells| == d.size && |d.decode| > 0
    requires Reads(d, cells, p2)
    ensures var cnt := |d.decode|;
      var o := Steps(d, cells, Pass(false, Comparing(compare, p2), Some(p1), false), DownSteps(cnt));
      && o.ok
      && (if Skips(cnt) then ReadsButFirst(d, o.cells, p1, p2) else Reads(d, o.cells, p1))
  {
    var cnt := |d.decode|;
    UniformSteps(d, cells, p2, p1, Pass(false, Comparing(compare, p2), Some(p1), false), DownSteps(cnt));
  }

  // One round over what the rounds before it leave.
  lemma RoundHealthy(d: Device, o: Outcome, p1: Word, p2: Word, compare: bool)
    requires WellFormed(d) && d.fault.Healthy? && Injective(d) && |o.cells| == d.size && |d.decode| > 0
    requires Reads(d, o.cells, p1) || ReadsButFirst(d, o.cells, p1, p2)
    ensures var o', skips := Round(d, o, p1, p2, compare), Skips(|d.decode|);
      && (o'.ok <==> o.ok && (!compare || Reads(d, o.cells, p1)))
      && (if skips then ReadsButFirst(d, o'.cells, p1, p2) else Reads(d, o'.cells, p1))
  {
    hide Steps, Skips;
    var cnt, up := |d.decode|, Pass(true, Comparing(compare, p1), Some(p2), false);
    StoredEverywhere(d, o.cells, up, p2, cnt);
    DownOver(d, Steps(d, o.cells, up, cnt).cells, p1, p2, compare);
    if Reads(d, o.cells, p1) {
      UniformSteps(d, o.cells, p1, p2, up, cnt);
    } else if compare {
      FirstMismatchCounts(d, o.cells, up, cnt);
    } else {
      UncheckedOk(d, o.cells, up, cnt);
    }
  }

  lemma FirstDiffers(d: Device, cells: seq<Word>, p1: Word, p2: Word)
    requires WellFormed(d) && |cells| == d.size && |d.decode| > 0 && ReadsButFirst(d, cells, p1, p2)
    ensures Reads(d, cells, p1) <==> p1 == p2
  {
  }

  // movinv1 on healthy memory: with comparison on and two patterns it succeeds exactly
  // when the down pass misses no word or there is no second round to notice.
  lemma {:induction false} MovInvHealthy(d: Device, cells: seq<Word>, p1: Word, p2: Word, compare: bool, iter: nat)
    requires WellFormed(d) && d.fault.Healthy? && Injective(d) && |cells| == d.size
    requires |d.decode| > 0 || iter == 0
    ensures var o, skips := MovInvRun(d, cells, p1, p2, compare, iter), Skips(|d.decode|);
      && (o.ok <==> !compare || iter <= 1 || !skips || p1 == p2)
      && (if iter > 0 && skips then ReadsButFirst(d, o.cells, p1, p2) else Reads(d, o.cells, p1))
    decreases iter
  {
    hide Round, Reads, ReadsButFirst, Skips;
    if iter == 0 {
      FillReads(d, cells, p1);
    } else {
      var prev := MovInvRun(d, cells, p1, p2, compare, iter - 1);
      MovInvHealthy(d, cells, p1, p2, compare, iter - 1);
      RoundHealthy(d, prev, p1, p2, compare);
      if iter > 1 && Skips(|d.decode|) {
        FirstDiffers(d, prev.cells, p1, p2);
      }
    }
  }

  lemma FillReads(d: Device, cells: seq<Word>, p: Word)
    requires WellFormed(d) && d.fault.Healthy? && Injective(d) && |cells| == d.size
    ensures var o := Sweep(d, cells, Fill(p)); o.ok && Reads(d, o.cells, p)
  {
    FillSteps(d, cells, p, |d.decode|);
  }

  lemma {:induction false} FailureLasts(d: Device, cells: seq<Word>, p1: Word, p2: Word, compare: bool, m: nat, n: nat)
    requires WellFormed(d) && |cells| == d.size && m <= n && !MovInvRun(d, cells, p1, p2, compare, m).ok
    ensures !MovInvRun(d, cells, p1, p2, compare, n).ok
    decreases n
  {
    if m < n {
      FailureLasts(d, cells, p1, p2, compare, m, n - 1);
    }
  }

  // ---- A stuck bit ----

  ghost predicate Stuck(d: Device) {
    WellFormed(d) && Direct(d) && d.size == |d.decode| && d.fault.StuckAt?
  }

  // Whether the bit is stuck at the value that w has there.
  predicate Shows(f: Fault, w: Word)
    requires f.StuckAt?
  {
    SetBit(w, f.bit, f.value) == w
  }

  lemma StuckVisit(d: Device, o: Outcome, i: nat, a: Word, b: Word, e: Pass)
    requires Stuck(d) && |o.cells| == d.size && i < d.size && e.check == Some(a) && e.store == Some(b) && !e.stop
    requires o.cells[i] == a
    ensures Visit(d, o, i, e) == Outcome(o.cells[i := b], o.ok && (i != d.fault.cell || Shows(d.fault, a)))
  {
    hide SetBit, OneBit;
  }

  // A pass over a uniform memory finds fault exactly with the stuck cell, if it gets
  // there and the bit is not stuck at its right value.
  lemma {:induction false} StuckSteps(d: Device, cells: seq<Word>, a: Word, b: Word, e: Pass, n: nat)
    requires Stuck(d) && |cells| == d.size && n <= d.size && e.check == Some(a) && e.store == Some(b) && !e.stop
    requires forall i :: 0 <= i < d.size ==> cells[i] == a
    ensures var o := Steps(d, cells, e, n);
      && (o.ok <==> At(e.up, d.size, d.fault.cell) >= n || Shows(d.fault, a))
      && forall i :: 0 <= i < d.size ==> o.cells[i] == if At(e.up, d.size, i) < n then b else a
    decreases n
  {
    hide Visit, Shows;
    if n > 0 {
      var i, o := At(e.up, d.size, n - 1), Steps(d, cells, e, n - 1);
      StuckSteps(d, cells, a, b, e, n - 1);
      assert At(e.up, d.size, i) == n - 1;
      StuckVisit(d, o, i, a, b, e);
    }
  }

  lemma {:induction false} StuckFill(d: Device, cells: seq<Word>, p: Word, n: nat)
    requires Stuck(d) && |cells| == d.size && n <= d.size
    ensures var o := Steps(d, cells, Fill(p), n); o.ok && forall i :: 0 <= i < n ==> o.cells[i] == p
  {
    if n > 0 {
      StuckFill(d, cells, p, n - 1);
    }
  }

  // One bit cannot make a word of its complement.
  lemma OneBitIsNotAll(p: Word, m: Word, value: bool)
    requires OneBit(m)
    ensures SetBit(!p, m, value) != p
  {
  }

  // A round over a uniform memory.
  lemma StuckRound(d: Device, o: Outcome, p1: Word, p2: Word)
    requires Stuck(d) && |o.cells| == d.size && o.ok && forall i :: 0 <= i < d.size ==> o.cells[i] == p1
    ensures var o' := Round(d, o, p1, p2, true);
      && (o'.ok <==> Shows(d.fault, p1) && (Shows(d.fault, p2) || (Skips(d.size) && d.fault.cell == 0)))
      && (Skips(d.size) ==> o'.cells[0] == p2)
  {
    var cnt := d.size;
    var up, down := Pass(true, Some(p1), Some(p2), false), Pass(false, Some(p2), Some(p1), false);
    StuckSteps(d, o.cells, p1, p2, up, cnt);
    StuckSteps(d, Steps(d, o.cells, up, cnt).cells, p2, p1, down, DownSteps(cnt));
  }

  // The first round: the only stuck bit it misses is one in a word 0 that the down pass
  // skips, stuck at the value the pattern has there.
  lemma StuckFirstRound(d: Device, cells: seq<Word>, p1: Word)
    requires Stuck(d) && |cells| == d.size
    ensures var o := MovInvRun(d, cells, p1, !p1, true, 1);
      && (o.ok <==> Skips(d.size) && d.fault.cell == 0 && Shows(d.fault, p1))
      && (Skips(d.size) ==> o.cells[0] == !p1)
  {
    StuckFill(d, cells, p1, d.size);
    var filled := MovInvRun(d, cells, p1, !p1, true, 0);
    StuckRound(d, filled, p1, !p1);
    SoloShows(d.fault, p1, p1);
  }

  // movinv1 with comparison on reports every stuck bit, but for that one when there is
  // no second round.
  lemma MovInvFindsStuck(d: Device, cells: seq<Word>, p1: Word, iter: nat)
    requires Stuck(d) && |cells| == d.size && iter >= 1
    ensures MovInvRun(d, cells, p1, !p1, true, iter).ok <==>
            iter == 1 && Skips(d.size) && d.fault.cell == 0 && Shows(d.fault, p1)
  {
    StuckFirstRound(d, cells, p1);
    var first := MovInvRun(d, cells, p1, !p1, true, 1);
    if iter > 1 {
      if first.ok {
        OneBitIsNotAll(p1, d.fault.bit, d.fault.value);
        FirstMismatchCounts(d, first.cells, Pass(true, Some(p1), Some(!p1), false), d.size);
        assert !MovInvRun(d, cells, p1, !p1, true, 2).ok;
        FailureLasts(d, cells, p1, !p1, true, 2, iter);
      } else {
        FailureLasts(d, cells, p1, !p1, true, 1, iter);
      }
    }
  }
}
