// movinv32 and test_movinv_long as the loops of mem_test.c, proved against the passes of
// MovingPattern for any device.
module MovInv32Test {
  import opened Common
  import opened MemoryDevice
  import opened MarchSpec
  import opened MarchTest
  import opened MovInv
  import opened MovInv32
  import opened MovingPattern

  // What test_movinv_long passes.
  predicate Called(p1: Word, lb: Word, hb: Word, sval: Word, off: nat) {
    (sval == 0 || sval == 1) && off < 64 && p1 == Pat(sval, off) && lb == Pat(sval, 0) && hb == Pat(sval, 63)
  }

  // The cursor of the recurrence at word p, going up and going down.
  ghost predicate AtUp(pat: Word, k: int, sval: Word, off: nat, p: nat) {
    k == Place(off, p) && pat == Moving(sval, off)(p)
  }

  ghost predicate AtDown(pat: Word, k: int, sval: Word, off: nat, p: int) {
    p >= 0 ==> k == Place(off, p) + 1 && pat == Moving(sval, off)(p)
  }

  method StepUp(pat: Word, k: int, lb: Word, sval: Word, ghost off: nat, ghost p: nat) returns (pat': Word, k': int)
    requires AtUp(pat, k, sval, off, p) && (sval == 0 || sval == 1) && lb == Pat(sval, 0)
    ensures AtUp(pat', k', sval, off, p + 1)
  {
    AdvanceFollows(sval, k);
    var step := Advance(pat, k, lb, sval);
    pat', k' := step.0, step.1;
  }

  method StepDown(pat: Word, k: int, hb: Word, p3: Word, ghost sval: Word, ghost off: nat, ghost p: nat)
    returns (pat': Word, k': int)
    requires AtDown(pat, k, sval, off, p) && (sval == 0 || sval == 1) && hb == Pat(sval, 63)
    requires p3 == if sval == 0 then 0 else HIGH_BIT
    ensures AtDown(pat', k', sval, off, p - 1)
  {
    RetreatFollows(sval, k - 1, hb, p3);
    var step := Retreat(pat, k, hb, p3);
    pat', k' := step.0, step.1;
  }

  // One word of a pass: compare if asked, then store.
  method Touch32(mem: Memory, p: nat, good: Word, next: Word, compare: bool, ghost r: Row, ghost w: Pattern,
                 ghost before: Outcome) returns (ok: bool)
    requires mem.Valid() && p < mem.Words() && mem.cells == before.cells
    requires r.check.Some? == compare && (compare ==> good == Word32(w, p, r.check.value))
    requires next == Word32(w, p, r.store)
    modifies mem
    ensures mem.Valid() && Outcome(mem.cells, before.ok && ok) == Visit(mem.device, before, p, PassAt(r, w, p))
  {
    ok := true;
    if compare {
      var bad := mem.Read(p);
      if bad != good {
        ok := false;
      }
    }
    mem.Write(p, next);
  }

  method UpWord(mem: Memory, p: nat, pat: Word, compare: bool, flip: bool, ghost r: Row, ghost w: Pattern,
                ghost before: Outcome) returns (ok: bool)
    requires mem.Valid() && p < mem.Words() && mem.cells == before.cells && pat == w(p)
    requires r == Row(true, if compare then Some(false) else None, flip)
    modifies mem
    ensures mem.Valid() && Outcome(mem.cells, before.ok && ok) == Visit(mem.device, before, p, PassAt(r, w, p))
  {
    hide Visit;
    ok := Touch32(mem, p, pat, if flip then !pat else pat, compare, r, w, before);
  }

  method DownWord(mem: Memory, p: nat, pat: Word, compare: bool, ghost w: Pattern, ghost before: Outcome)
    returns (ok: bool)
    requires mem.Valid() && p < mem.Words() && mem.cells == before.cells && pat == w(p)
    modifies mem
    ensures mem.Valid()
    ensures Outcome(mem.cells, before.ok && ok) == Visit(mem.device, before, p, PassAt(DownRow(compare), w, p))
  {
    hide Visit;
    ok := Touch32(mem, p, !pat, pat, compare, DownRow(compare), w, before);
  }

  // The words of one upward chunk.
  method UpChunk32(mem: Memory, p0: nat, pe: nat, pat0: Word, k0: int, lb: Word, sval: Word, ghost off: nat,
                   ghost r: Row, compare: bool, flip: bool, ok0: bool, ghost cells: seq<Word>)
    returns (pat: Word, k: int, ok: bool)
    requires mem.Valid() && p0 <= pe <= mem.Words() && (sval == 0 || sval == 1) && lb == Pat(sval, 0)
    requires AtUp(pat0, k0, sval, off, p0) && r == Row(true, if compare then Some(false) else None, flip)
    requires |cells| == mem.device.size
    requires Outcome(mem.cells, ok0) == Steps32(mem.device, cells, r, Moving(sval, off), p0)
    modifies mem
    ensures mem.Valid() && AtUp(pat, k, sval, off, pe)
    ensures Outcome(mem.cells, ok) == Steps32(mem.device, cells, r, Moving(sval, off), pe)
  {
    hide Steps32, Visit, Moving, PassAt, Pat;
    ghost var w := Moving(sval, off);
    var p := p0;
    pat, k, ok := pat0, k0, ok0;
    while p < pe
      invariant p0 <= p <= pe && mem.Valid() && AtUp(pat, k, sval, off, p)
      invariant Outcome(mem.cells, ok) == Steps32(mem.device, cells, r, w, p)
    {
      ghost var before := Outcome(mem.cells, ok);
      NextStep(mem.device, cells, r, w, p);
      var right := UpWord(mem, p, pat, compare, flip, r, w, before);
      ok := ok && right;
      pat, k := StepUp(pat, k, lb, sval, off, p);
      p := p + 1;
    }
  }

  // The chunk loop of the fill and of the upward pass; the upward pass ends the test
  // after a chunk with a mismatch.
  method UpPass32(mem: Memory, p1: Word, lb: Word, sval: Word, off: nat, compare: bool, flip: bool)
    returns (ok: bool, k: int)
    requires mem.Valid() && (sval == 0 || sval == 1) && off < 64 && p1 == Pat(sval, off) && lb == Pat(sval, 0)
    modifies mem
    ensures mem.Valid()
    ensures var r := Row(true, if compare then Some(false) else None, flip);
      var o := Steps32(mem.device, old(mem.cells), r, Moving(sval, off), mem.Words());
      (ok <==> o.ok) && (ok ==> mem.cells == o.cells && k == Place(off, mem.Words()))
  {
    ghost var r, w, cells := Row(true, if compare then Some(false) else None, flip), Moving(sval, off), mem.cells;
    var end := mem.Words();
    var pe, done := 0, false;
    var pat := p1;
    k, ok := off, true;
    while !done
      invariant pe <= end && mem.Valid() && ok && (done ==> pe == end) && AtUp(pat, k, sval, off, pe)
      invariant Outcome(mem.cells, true) == Steps32(mem.device, cells, r, w, pe)
      decreases end - pe, !done
    {
      var p := pe;
      pe := pe + SPINSZ;
      if pe >= end {
        pe, done := end, true;
      }
      if p == pe {
        break;
      }
      pat, k, ok := UpChunk32(mem, p, pe, pat, k, lb, sval, off, r, compare, flip, ok, cells);
      if !ok {
        FailedStep(mem.device, cells, r, w, pe, end);
        return;
      }
    }
  }

  // One downward chunk.
  method DownChunk32(mem: Memory, p0: nat, pe: nat, pat0: Word, k0: int, hb: Word, p3: Word, compare: bool,
                     ghost sval: Word, ghost off: nat, ghost cells: seq<Word>)
    returns (p: int, pat: Word, k: int, ok: bool)
    requires mem.Valid() && pe <= p0 < mem.Words() && AtDown(pat0, k0, sval, off, p0)
    requires (sval == 0 || sval == 1) && hb == Pat(sval, 63) && p3 == if sval == 0 then 0 else HIGH_BIT
    requires |cells| == mem.device.size
    requires Outcome(mem.cells, true) ==
      Steps32(mem.device, cells, DownRow(compare), Moving(sval, off), mem.Words() - 1 - p0)
    modifies mem
    ensures mem.Valid() && p == pe - 1 && AtDown(pat, k, sval, off, p)
    ensures Outcome(mem.cells, ok) ==
      Steps32(mem.device, cells, DownRow(compare), Moving(sval, off), mem.Words() - 1 - p)
  {
    hide Steps32, Visit, Moving, PassAt, Pat;
    ghost var w, cnt := Moving(sval, off), mem.Words();
    p, pat, k, ok := p0, pat0, k0, true;
    var again := true;
    while again
      invariant mem.Valid() && pe - 1 <= p < cnt && (if again then pe <= p else p == pe - 1)
      invariant AtDown(pat, k, sval, off, p)
      invariant Outcome(mem.cells, ok) == Steps32(mem.device, cells, DownRow(compare), w, cnt - 1 - p)
      decreases p + 1
    {
      ghost var before := Outcome(mem.cells, ok);
      NextStep(mem.device, cells, DownRow(compare), w, cnt - 1 - p);
      var right := DownWord(mem, p, pat, compare, w, before);
      ok := ok && right;
      pat, k := StepDown(pat, k, hb, p3, sval, off, p);
      again := p > pe;
      p := p - 1;
    }
  }

  // The downward pass, with its early break.
  method DownPass32(mem: Memory, pat0: Word, k0: int, hb: Word, p3: Word, compare: bool, ghost sval: Word,
                    ghost off: nat)
    returns (ok: bool)
    requires mem.Valid() && mem.Words() > 0 && AtDown(pat0, k0, sval, off, mem.Words() - 1)
    requires (sval == 0 || sval == 1) && hb == Pat(sval, 63) && p3 == if sval == 0 then 0 else HIGH_BIT
    modifies mem
    ensures mem.Valid()
    ensures var o := Steps32(mem.device, old(mem.cells), DownRow(compare), Moving(sval, off), DownSteps(mem.Words()));
      (ok <==> o.ok) && (ok ==> mem.cells == o.cells)
  {
    hide Visit, Moving, PassAt;
    ghost var r, w, cells := DownRow(compare), Moving(sval, off), mem.cells;
    var cnt := mem.Words();
    var pe: int, p: int, done := cnt - 1, cnt - 1, false;
    var pat, k := pat0, k0;
    ok := true;
    ghost var n := 0;
    while !done
      invariant -1 <= p < cnt && mem.Valid() && n >= 0 && ok
      invariant if done then p == -1 && !Skips(cnt) else pe == cnt - 1 - n * SPINSZ >= 0
      invariant !done ==> if n == 0 then p == cnt - 1 else p == pe - 1 && pe > 0
      invariant AtDown(pat, k, sval, off, p)
      invariant Outcome(mem.cells, true) == Steps32(mem.device, cells, r, w, cnt - 1 - p)
      decreases if done then 0 else p + 2
    {
      pe := pe - SPINSZ;
      if pe <= 0 {
        pe, done := 0, true;
      }
      if p == pe {
        BreakMeansSkip(cnt, n);
        break;
      }
      LastChunk(cnt, n, done);
      p, pat, k, ok := DownChunk32(mem, p, pe, pat, k, hb, p3, compare, sval, off, cells);
      if !ok {
        FailedStep(mem.device, cells, r, w, cnt - 1 - p, DownSteps(cnt));
        return;
      }
      n := n + 1;
    }
  }

  method TopFill(sval: Word) returns (p3: Word)
    requires sval == 0 || sval == 1
    ensures p3 == if sval == 0 then 0 else HIGH_BIT
  {
    HighFill(sval);
    p3 := Shl(sval, 63);
  }

  // The code between the passes: the recurrence backed up by one word.
  method BackUp(k0: int, lb: Word, sval: Word, ghost off: nat, ghost cnt: nat) returns (pat: Word, k: int)
    requires k0 == Place(off, cnt) && cnt > 0 && (sval == 0 || sval == 1) && lb == Pat(sval, 0)
    ensures AtDown(pat, k, sval, off, cnt - 1)
  {
    k := (k0 + 63) % 64;
    BackedUpFollows(sval, k);
    pat := BackedUp(lb, sval, k);
    k := k + 1;
  }

  // The two passes of one round; the verdict and, if it is good, the memory.
  method Round(mem: Memory, p1: Word, lb: Word, hb: Word, sval: Word, off: nat, p3: Word, compare: bool)
    returns (ok: bool)
    requires mem.Valid() && mem.Words() > 0 && Called(p1, lb, hb, sval, off)
    requires p3 == if sval == 0 then 0 else HIGH_BIT
    modifies mem
    ensures mem.Valid()
    ensures var o := Round32(mem.device, Outcome(old(mem.cells), true), Moving(sval, off), compare);
      (ok <==> o.ok) && (ok ==> mem.cells == o.cells)
  {
    var k;
    ok, k := UpPass32(mem, p1, lb, sval, off, compare, true);
    if !ok {
      return;
    }
    var pat;
    pat, k := BackUp(k, lb, sval, off, mem.Words());
    ok := DownPass32(mem, pat, k, hb, p3, compare, sval, off);
  }

  // movinv32 as test_movinv_long calls it.
  method MovInv32Run(mem: Memory, iter: nat, p1: Word, lb: Word, hb: Word, sval: Word, off: nat, compare: bool)
    returns (ret: Status)
    requires mem.Valid() && (mem.Words() > 0 || iter == 0) && Called(p1, lb, hb, sval, off)
    modifies mem
    ensures mem.Valid()
    ensures var o := Run32(mem.device, old(mem.cells), Moving(sval, off), compare, iter);
      (ret == Success <==> o.ok) && (ret == Success ==> mem.cells == o.cells)
  {
    hide Steps32, Moving;
    ghost var w, cells := Moving(sval, off), mem.cells;
    ret := Success;
    var p3 := TopFill(sval);
    Unchecked(mem.device, cells, FILL, w, mem.Words());
    var filled, _ := UpPass32(mem, p1, lb, sval, off, false, false);
    var i := 0;
    while i < iter
      invariant i <= iter && mem.Valid() && ret == Success
      invariant Outcome(mem.cells, true) == Run32(mem.device, cells, w, compare, i)
    {
      var ok := Round(mem, p1, lb, hb, sval, off, p3, compare);
      if !ok {
        FailedRound(mem.device, cells, w, compare, i + 1, iter);
        ret := Fail;
        return;
      }
      i := i + 1;
    }
  }

  // What movinv32 leaves on healthy memory: word i holds a one at bit (off + i) mod 64
  // among zeros, or a zero there among ones -- word 0, if a round skipped it, the
  // complement.
  ghost predicate Left(d: Device, cells: seq<Word>, sval: Word, off: nat, skipped: bool)
    requires WellFormed(d) && |cells| == d.size
  {
    forall i :: 0 <= i < |d.decode| ==>
      var word := Pat(sval, (off + i) % 64);
      cells[d.decode[i]] == if i == 0 && skipped then !word else word
  }

  lemma WordLeft(sval: Word, off: nat, i: nat)
    ensures Moving(sval, off)(i) == Pat(sval, (off + i) % 64)
  {
    hide Pat;
  }

  lemma LeftOnHealthy(d: Device, cells: seq<Word>, sval: Word, off: nat, compare: bool, iter: nat)
    requires Sound(d) && |cells| == d.size
    ensures var o := Run32(d, cells, Moving(sval, off), compare, iter);
      Left(d, o.cells, sval, off, iter > 0 && Skips(|d.decode|))
  {
    hide Run32, Skips, Moving, Pat;
    Healthy32(d, cells, Moving(sval, off), compare, iter);
    forall i | 0 <= i < |d.decode|
      ensures Moving(sval, off)(i) == Pat(sval, (off + i) % 64)
    {
      WordLeft(sval, off, i);
    }
  }

  method MovInv32OnHealthy(mem: Memory, iter: nat, p1: Word, lb: Word, hb: Word, sval: Word, off: nat, compare: bool)
    returns (ret: Status)
    requires mem.Valid() && Sound(mem.device) && Called(p1, lb, hb, sval, off)
    modifies mem
    ensures ret == Success <==> !compare || iter <= 1 || !Skips(mem.Words())
    ensures mem.Valid()
    ensures ret == Success ==> Left(mem.device, mem.cells, sval, off, iter > 0 && Skips(mem.Words()))
  {
    hide Run32, Skips, Moving, Left;
    LeftOnHealthy(mem.device, mem.cells, sval, off, compare, iter);
    Healthy32(mem.device, mem.cells, Moving(sval, off), compare, iter);
    ret := MovInv32Run(mem, iter, p1, lb, hb, sval, off, compare);
  }

  // The arguments of the two calls for one position of the bit.
  lemma Arguments(j: nat)
    requires j < 64
    ensures Called(Shl(1, j), 1, HIGH_BIT, 0, j)
    ensures Called(!Shl(1, j), !1, !HIGH_BIT, 1, j)
  {
    TopBit();
  }

  // The two calls test_movinv_long makes for one position of the bit.
  method BothPatterns(mem: Memory, iter: nat, p1: Word, j: nat, compare: bool) returns (ret: Status)
    requires mem.Valid() && (mem.Words() > 0 || iter == 0) && j < 64 && p1 == Shl(1, j)
    modifies mem
    ensures mem.Valid()
    ensures var o := Both32(mem.device, Outcome(old(mem.cells), true), Moving(0, j), Moving(1, j), compare, iter);
      (ret == Success <==> o.ok) && (ret == Success ==> mem.cells == o.cells)
  {
    Arguments(j);
    var p2, lb, lb', hb, hb': Word := !p1, 1, !1, HIGH_BIT, !HIGH_BIT;
    ret := MovInv32Run(mem, iter, p1, lb, hb, 0, j, compare);
    if ret != Success {
      return;
    }
    ret := MovInv32Run(mem, iter, p2, lb', hb', 1, j, compare);
  }

  // The bit is at position j, or has left the word.
  ghost predicate BitAt(p1: Word, j: nat) {
    p1 == Shl(1, j) && (p1 != 0 <==> j < 64)
  }

  // One pass of the loop of test_movinv_long.
  method Position(mem: Memory, iter: nat, p1: Word, j: nat, compare: bool, ghost cells: seq<Word>)
    returns (ret: Status, p1': Word)
    requires mem.Valid() && (mem.Words() > 0 || iter == 0) && j < 64 && BitAt(p1, j) && |cells| == mem.device.size
    requires Outcome(mem.cells, true) == Long32(mem.device, cells, Family32(0), Family32(1), compare, iter, j)
    modifies mem
    ensures mem.Valid() && BitAt(p1', j + 1) && (p1' != 0 <==> j + 1 < 64)
    ensures var o := Long32(mem.device, cells, Family32(0), Family32(1), compare, iter, j + 1);
      (ret == Success <==> o.ok) && (ret == Success ==> mem.cells == o.cells)
  {
    hide Long32, Both32, Family32, Moving, Shl, BitAt;
    NextPatterns(mem.device, cells, compare, iter, j);
    BitIs(p1, j);
    ret := BothPatterns(mem, iter, p1, j, compare);
    p1' := NextBit(p1, j);
  }

  lemma BitIs(p1: Word, j: nat)
    requires BitAt(p1, j)
    ensures p1 == Shl(1, j)
  {
  }

  method NextBit(p1: Word, ghost j: nat) returns (p1': Word)
    requires j < 64 && BitAt(p1, j)
    ensures BitAt(p1', j + 1) && (p1' != 0 <==> j + 1 < 64)
  {
    NextPosition(j);
    p1' := p1 << 1;
  }

  lemma NextPosition(j: nat)
    requires j < 64
    ensures Shl(1, j + 1) == Shl(1, j) << 1 && (Shl(1, j + 1) != 0 <==> j + 1 < 64)
  {
    if j + 1 < 64 {
      OneBitStays(j + 1);
    } else {
      TopBit();
    }
  }

  lemma NextPatterns(d: Device, cells: seq<Word>, compare: bool, iter: nat, j: nat)
    requires WellFormed(d) && |cells| == d.size
    ensures Long32(d, cells, Family32(0), Family32(1), compare, iter, j + 1) ==
      Both32(d, Long32(d, cells, Family32(0), Family32(1), compare, iter, j), Moving(0, j), Moving(1, j), compare, iter)
  {
    hide Long32, Both32, Moving;
    NextPosition32(d, cells, Family32(0), Family32(1), compare, iter, j);
  }

  lemma Start(d: Device, cells: seq<Word>, compare: bool, iter: nat)
    requires WellFormed(d) && |cells| == d.size
    ensures Long32(d, cells, Family32(0), Family32(1), compare, iter, 0) == Outcome(cells, true)
    ensures BitAt(1, 0)
  {
    hide Long32, Family32;
    NoPosition(d, cells, Family32(0), Family32(1), compare, iter);
  }

  // test_movinv_long: every position of the bit, then of its complement; shifting the
  // bit out of the word ends the loop after 64 positions.
  method MovInvLong(mem: Memory, iter: nat, compare: bool) returns (ret: Status)
    requires mem.Valid() && (mem.Words() > 0 || iter == 0)
    modifies mem
    ensures mem.Valid()
    ensures var o := Long32(mem.device, old(mem.cells), Family32(0), Family32(1), compare, iter, 64);
      (ret == Success <==> o.ok) && (ret == Success ==> mem.cells == o.cells)
  {
    hide Long32, Family32, BitAt;
    ghost var cells := mem.cells;
    Start(mem.device, cells, compare, iter);
    ret := Success;
    var j, p1: Word := 0, 1;
    while p1 != 0
      invariant 0 <= j <= 64 && BitAt(p1, j) && (p1 != 0 <==> j < 64) && mem.Valid() && ret == Success
      invariant Outcome(mem.cells, true) == Long32(mem.device, cells, Family32(0), Family32(1), compare, iter, j)
      decreases 64 - j
    {
      ret, p1 := Position(mem, iter, p1, j, compare, cells);
      if ret != Success {
        FailedPosition(mem.device, cells, Family32(0), Family32(1), compare, iter, j + 1, 64);
        return;
      }
      j := j + 1;
    }
  }

  // After j positions of test_movinv_long healthy memory holds the zero that moves from
  // bit j - 1 on.
  lemma LongLeaves(d: Device, cells: seq<Word>, compare: bool, iter: nat, j: nat)
    requires Sound(d) && |cells| == d.size && j > 0
    ensures var o := Long32(d, cells, Family32(0), Family32(1), compare, iter, j);
      Left(d, o.cells, 1, j - 1, iter > 0 && Skips(|d.decode|))
  {
    hide Long32, Moving, Run32, Left, Skips, Both32;
    var o := Long32(d, cells, Family32(0), Family32(1), compare, iter, j - 1);
    NextPatterns(d, cells, compare, iter, j - 1);
    BothIsTwo(d, o, Moving(0, j - 1), Moving(1, j - 1), compare, iter);
    var a := Run32(d, o.cells, Moving(0, j - 1), compare, iter);
    LeftOnHealthy(d, a.cells, 1, j - 1, compare, iter);
  }

  lemma BothIsTwo(d: Device, o: Outcome, w: Pattern, w': Pattern, compare: bool, iter: nat)
    requires WellFormed(d) && |o.cells| == d.size
    ensures Both32(d, o, w, w', compare, iter).cells ==
      Run32(d, Run32(d, o.cells, w, compare, iter).cells, w', compare, iter).cells
  {
    hide Run32;
  }

  // test_movinv_long on healthy memory succeeds exactly when nothing is compared, or no
  // second round comes, or no word is skipped ...
  method LongOnHealthyMemory(mem: Memory, iter: nat, compare: bool) returns (ret: Status)
    requires mem.Valid() && Sound(mem.device)
    modifies mem
    ensures ret == Success <==> !compare || iter <= 1 || !Skips(mem.Words())
    ensures mem.Valid()
    ensures ret == Success ==> Left(mem.device, mem.cells, 1, 63, iter > 0 && Skips(mem.Words()))
  {
    hide Long32, Family32, Left;
    LongLeaves(mem.device, mem.cells, compare, iter, 64);
    HealthyLong(mem.device, mem.cells, Family32(0), Family32(1), compare, iter, 64);
    ret := MovInvLong(mem, iter, compare);
  }

  // ... and with a stuck bit it fails whenever it compares at all.
  method LongOnStuckMemory(mem: Memory, iter: nat, compare: bool) returns (ret: Status)
    requires mem.Valid() && Stuck(mem.device) && compare && iter >= 1
    modifies mem
    ensures ret == Fail
  {
    hide Long32, Family32;
    LongFindsStuck(mem.device, mem.cells, iter, 64);
    ret := MovInvLong(mem, iter, compare);
  }
}
