// movinv32 and test_movinv_long as functions, over any device, and what their verdicts
// mean.  A pattern gives the word wanted at each index; its complement is the other one.
module MovingPattern {
  import opened Common
  import opened MemoryDevice
  import opened MarchSpec
  import opened MarchDetect
  import opened MovInv
  import opened MovInv32

  type Pattern = nat -> Word

  // The position of the moving bit at word i, and the pattern it makes.
  function Place(off: nat, i: nat): nat {
    (off + i) % 64
  }

  function Moving(sval: Word, off: nat): Pattern {
    (i: nat) => Pat(sval, Place(off, i))
  }

  function Word32(w: Pattern, i: nat, flipped: bool): Word {
    if flipped then !w(i) else w(i)
  }

  // One pass: what it compares with, if it compares, and what it stores.
  datatype Row = Row(up: bool, check: Option<bool>, store: bool)

  function PassAt(r: Row, w: Pattern, i: nat): Pass {
    var check := if r.check.Some? then Some(Word32(w, i, r.check.value)) else None;
    Pass(r.up, check, Some(Word32(w, i, r.store)), false)
  }

  function Steps32(d: Device, cells: seq<Word>, r: Row, w: Pattern, n: nat): (o: Outcome)
    requires WellFormed(d) && |cells| == d.size && n <= |d.decode|
    ensures |o.cells| == d.size
    decreases n
  {
    if n == 0 then Outcome(cells, true)
    else
      var i := At(r.up, |d.decode|, n - 1);
      Visit(d, Steps32(d, cells, r, w, n - 1), i, PassAt(r, w, i))
  }

  lemma NextStep(d: Device, cells: seq<Word>, r: Row, w: Pattern, n: nat)
    requires WellFormed(d) && |cells| == d.size && n < |d.decode|
    ensures var i := At(r.up, |d.decode|, n);
      Steps32(d, cells, r, w, n + 1) == Visit(d, Steps32(d, cells, r, w, n), i, PassAt(r, w, i))
  {
  }

  function Follow32(d: Device, o: Outcome, r: Row, w: Pattern, n: nat): (o': Outcome)
    requires WellFormed(d) && |o.cells| == d.size && n <= |d.decode|
    ensures |o'.cells| == d.size
  {
    var next := Steps32(d, o.cells, r, w, n);
    Outcome(next.cells, o.ok && next.ok)
  }

  const FILL: Row := Row(true, None, false)

  function UpRow(compare: bool): Row {
    Row(true, if compare then Some(false) else None, true)
  }

  function DownRow(compare: bool): Row {
    Row(false, if compare then Some(true) else None, false)
  }

  function Round32(d: Device, o: Outcome, w: Pattern, compare: bool): (o': Outcome)
    requires WellFormed(d) && |o.cells| == d.size
    ensures |o'.cells| == d.size
  {
    var up := Follow32(d, o, UpRow(compare), w, |d.decode|);
    Follow32(d, up, DownRow(compare), w, DownSteps(|d.decode|))
  }

  // movinv32.
  function Run32(d: Device, cells: seq<Word>, w: Pattern, compare: bool, iter: nat): (o: Outcome)
    requires WellFormed(d) && |cells| == d.size
    ensures |o.cells| == d.size
    decreases iter
  {
    if iter == 0 then Follow32(d, Outcome(cells, true), FILL, w, |d.decode|)
    else Round32(d, Run32(d, cells, w, compare, iter - 1), w, compare)
  }

  // Two calls in a row.
  function Both32(d: Device, o: Outcome, w: Pattern, w': Pattern, compare: bool, iter: nat): (o': Outcome)
    requires WellFormed(d) && |o.cells| == d.size
    ensures |o'.cells| == d.size && (o'.ok ==> o.ok)
  {
    var a := Run32(d, o.cells, w, compare, iter);
    var b := Run32(d, a.cells, w', compare, iter);
    Outcome(b.cells, o.ok && a.ok && b.ok)
  }

  // The patterns of the first, second, ... position of the bit.
  type Family = nat -> Pattern

  function Family32(sval: Word): Family {
    (j: nat) => Moving(sval, j)
  }

  // test_movinv_long's first j positions, two calls for each.
  function Long32(d: Device, cells: seq<Word>, ones: Family, zeros: Family, compare: bool, iter: nat,
                  j: nat): (o: Outcome)
    requires WellFormed(d) && |cells| == d.size
    ensures |o.cells| == d.size
    ensures j > 0 && o.ok ==> Long32(d, cells, ones, zeros, compare, iter, j - 1).ok
    decreases j
  {
    if j == 0 then Outcome(cells, true)
    else Both32(d, Long32(d, cells, ones, zeros, compare, iter, j - 1), ones(j - 1), zeros(j - 1), compare, iter)
  }

  lemma NoPosition(d: Device, cells: seq<Word>, ones: Family, zeros: Family, compare: bool, iter: nat)
    requires WellFormed(d) && |cells| == d.size
    ensures Long32(d, cells, ones, zeros, compare, iter, 0) == Outcome(cells, true)
  {
  }

  lemma NextPosition32(d: Device, cells: seq<Word>, ones: Family, zeros: Family, compare: bool, iter: nat, j: nat)
    requires WellFormed(d) && |cells| == d.size
    ensures var o := Long32(d, cells, ones, zeros, compare, iter, j);
      Long32(d, cells, ones, zeros, compare, iter, j + 1) == Both32(d, o, ones(j), zeros(j), compare, iter)
  {
    hide Both32;
  }

  // ---- A failure is final ----

  lemma {:induction false} FailedStep(d: Device, cells: seq<Word>, r: Row, w: Pattern, m: nat, n: nat)
    requires WellFormed(d) && |cells| == d.size && m <= n <= |d.decode| && !Steps32(d, cells, r, w, m).ok
    ensures !Steps32(d, cells, r, w, n).ok
    decreases n
  {
    if m < n {
      FailedStep(d, cells, r, w, m, n - 1);
    }
  }

  lemma RoundKeeps(d: Device, o: Outcome, w: Pattern, compare: bool)
    requires WellFormed(d) && |o.cells| == d.size
    ensures Round32(d, o, w, compare).ok ==> o.ok
  {
    hide Steps32;
  }

  lemma {:induction false} FailedRound(d: Device, cells: seq<Word>, w: Pattern, compare: bool, m: nat, n: nat)
    requires WellFormed(d) && |cells| == d.size && m <= n && !Run32(d, cells, w, compare, m).ok
    ensures !Run32(d, cells, w, compare, n).ok
    decreases n
  {
    hide Round32;
    if m < n {
      RoundKeeps(d, Run32(d, cells, w, compare, n - 1), w, compare);
      FailedRound(d, cells, w, compare, m, n - 1);
    }
  }

  lemma {:induction false} FailedPosition(d: Device, cells: seq<Word>, ones: Family, zeros: Family,
                                          compare: bool, iter: nat, m: nat, n: nat)
    requires WellFormed(d) && |cells| == d.size && m <= n && !Long32(d, cells, ones, zeros, compare, iter, m).ok
    ensures !Long32(d, cells, ones, zeros, compare, iter, n).ok
    decreases n
  {
    hide *;
    if m < n {
      FailedPosition(d, cells, ones, zeros, compare, iter, m, n - 1);
    }
  }

  // A pass that does not compare cannot fail.
  lemma {:induction false} Unchecked(d: Device, cells: seq<Word>, r: Row, w: Pattern, n: nat)
    requires WellFormed(d) && |cells| == d.size && n <= |d.decode| && r.check.None?
    ensures Steps32(d, cells, r, w, n).ok
    decreases n
  {
    if n > 0 {
      Unchecked(d, cells, r, w, n - 1);
    }
  }

  // A mismatch in the first word visited fails the pass.
  lemma {:induction false} FirstWordFails(d: Device, cells: seq<Word>, r: Row, w: Pattern, n: nat)
    requires WellFormed(d) && |cells| == d.size && 0 < n <= |d.decode|
    requires var i := At(r.up, |d.decode|, 0); !Matches(d, cells, d.decode[i], PassAt(r, w, i).check)
    ensures !Steps32(d, cells, r, w, n).ok
  {
    assert Steps32(d, cells, r, w, 0) == Outcome(cells, true);
    FailedStep(d, cells, r, w, 1, n);
  }

  // ---- Healthy memory ----

  ghost predicate Sound(d: Device) {
    WellFormed(d) && d.fault.Healthy? && Injective(d) && |d.decode| > 0
  }

  // Every word from lo on holds the pattern, or its complement.
  ghost predicate Holding(d: Device, cells: seq<Word>, w: Pattern, lo: nat, flipped: bool)
    requires WellFormed(d) && |cells| == d.size
  {
    forall i :: lo <= i < |d.decode| ==> cells[d.decode[i]] == Word32(w, i, flipped)
  }

  // A pass stores everywhere it goes and changes nothing elsewhere.
  lemma StoredByVisit(d: Device, o: Outcome, r: Row, w: Pattern, n: nat)
    requires Sound(d) && |o.cells| == d.size && n < |d.decode|
    ensures var i := At(r.up, |d.decode|, n);
      && Visit(d, o, i, PassAt(r, w, i)).cells == o.cells[d.decode[i] := Word32(w, i, r.store)]
      && At(r.up, |d.decode|, i) == n
  {
  }

  lemma {:induction false} StoredWhereVisited(d: Device, cells: seq<Word>, r: Row, w: Pattern, n: nat)
    requires Sound(d) && |cells| == d.size && n <= |d.decode|
    ensures forall i :: 0 <= i < |d.decode| ==>
      Steps32(d, cells, r, w, n).cells[d.decode[i]] ==
      if At(r.up, |d.decode|, i) < n then Word32(w, i, r.store) else cells[d.decode[i]]
    decreases n
  {
    hide Visit, PassAt;
    if n > 0 {
      StoredWhereVisited(d, cells, r, w, n - 1);
      StoredByVisit(d, Steps32(d, cells, r, w, n - 1), r, w, n - 1);
    }
  }

  lemma RightVisit(d: Device, o: Outcome, r: Row, w: Pattern, i: nat)
    requires Sound(d) && |o.cells| == d.size && i < |d.decode| && o.ok
    requires r.check.Some? ==> o.cells[d.decode[i]] == Word32(w, i, r.check.value)
    ensures Visit(d, o, i, PassAt(r, w, i)).ok
  {
    hide Word32, Injective;
  }

  // It finds no fault when every word it compares is what it expects.
  lemma {:induction false} NothingWrong(d: Device, cells: seq<Word>, r: Row, w: Pattern, n: nat)
    requires Sound(d) && |cells| == d.size && n <= |d.decode|
    requires r.check.Some? ==> Holding(d, cells, w, 0, r.check.value)
    ensures Steps32(d, cells, r, w, n).ok
    decreases n
  {
    hide Visit, PassAt, Word32, Injective;
    if n > 0 {
      NothingWrong(d, cells, r, w, n - 1);
      StoredWhereVisited(d, cells, r, w, n - 1);
      var i := At(r.up, |d.decode|, n - 1);
      assert At(r.up, |d.decode|, i) == n - 1;
      RightVisit(d, Steps32(d, cells, r, w, n - 1), r, w, i);
    }
  }

  // Word 0 holds the complement, every other word the pattern.
  ghost predicate LeftBehind(d: Device, cells: seq<Word>, w: Pattern)
    requires WellFormed(d) && |cells| == d.size && |d.decode| > 0
  {
    cells[d.decode[0]] == Word32(w, 0, true) && Holding(d, cells, w, 1, false)
  }

  // What a round leaves, whatever it found.
  lemma RoundLeaves(d: Device, o: Outcome, w: Pattern, compare: bool)
    requires Sound(d) && |o.cells| == d.size
    ensures var cells := Round32(d, o, w, compare).cells;
      if Skips(|d.decode|) then LeftBehind(d, cells, w) else Holding(d, cells, w, 0, false)
  {
    hide Steps32;
    var up := Follow32(d, o, UpRow(compare), w, |d.decode|);
    StoredWhereVisited(d, o.cells, UpRow(compare), w, |d.decode|);
    StoredWhereVisited(d, up.cells, DownRow(compare), w, DownSteps(|d.decode|));
  }

  lemma RoundFinds(d: Device, o: Outcome, w: Pattern, compare: bool)
    requires Sound(d) && |o.cells| == d.size && o.ok
    requires Holding(d, o.cells, w, 0, false) || LeftBehind(d, o.cells, w)
    ensures Round32(d, o, w, compare).ok <==> !compare || Holding(d, o.cells, w, 0, false)
  {
    hide Steps32;
    var up := Follow32(d, o, UpRow(compare), w, |d.decode|);
    StoredWhereVisited(d, o.cells, UpRow(compare), w, |d.decode|);
    NothingWrong(d, up.cells, DownRow(compare), w, DownSteps(|d.decode|));
    if !compare {
      Unchecked(d, o.cells, UpRow(compare), w, |d.decode|);
    } else if Holding(d, o.cells, w, 0, false) {
      NothingWrong(d, o.cells, UpRow(compare), w, |d.decode|);
    } else {
      ComplementDiffers(w(0));
      FirstWordFails(d, o.cells, UpRow(compare), w, |d.decode|);
    }
  }

  lemma NotBoth(d: Device, cells: seq<Word>, w: Pattern)
    requires Sound(d) && |cells| == d.size && LeftBehind(d, cells, w)
    ensures !Holding(d, cells, w, 0, false)
  {
    ComplementDiffers(w(0));
  }

  // movinv32 on healthy memory: the down pass undoes the up pass, so no word is found
  // wrong -- unless word 0 was skipped and another round comes to look at it.
  lemma {:induction false} Healthy32(d: Device, cells: seq<Word>, w: Pattern, compare: bool, iter: nat)
    requires Sound(d) && |cells| == d.size
    ensures var o, skips := Run32(d, cells, w, compare, iter), Skips(|d.decode|);
      && (o.ok <==> !compare || iter <= 1 || !skips)
      && (if iter > 0 && skips then LeftBehind(d, o.cells, w) else Holding(d, o.cells, w, 0, false))
    decreases iter
  {
    if iter == 0 {
      NothingWrong(d, cells, FILL, w, |d.decode|);
      StoredWhereVisited(d, cells, FILL, w, |d.decode|);
    } else {
      var before := Run32(d, cells, w, compare, iter - 1);
      Healthy32(d, cells, w, compare, iter - 1);
      RoundLeaves(d, before, w, compare);
      if before.ok {
        RoundFinds(d, before, w, compare);
        if iter > 1 && Skips(|d.decode|) {
          NotBoth(d, before.cells, w);
        }
      }
    }
  }

  lemma HealthyBoth(d: Device, o: Outcome, w: Pattern, w': Pattern, compare: bool, iter: nat)
    requires Sound(d) && |o.cells| == d.size
    ensures Both32(d, o, w, w', compare, iter).ok <==> o.ok && (!compare || iter <= 1 || !Skips(|d.decode|))
  {
    Healthy32(d, o.cells, w, compare, iter);
    Healthy32(d, Run32(d, o.cells, w, compare, iter).cells, w', compare, iter);
  }

  // test_movinv_long on healthy memory.
  lemma {:induction false} HealthyLong(d: Device, cells: seq<Word>, ones: Family, zeros: Family,
                                       compare: bool, iter: nat, j: nat)
    requires Sound(d) && |cells| == d.size
    ensures Long32(d, cells, ones, zeros, compare, iter, j).ok <==>
            j == 0 || !compare || iter <= 1 || !Skips(|d.decode|)
    decreases j
  {
    hide Long32, Both32;
    if j == 0 {
      NoPosition(d, cells, ones, zeros, compare, iter);
    } else {
      NextPosition32(d, cells, ones, zeros, compare, iter, j - 1);
      HealthyLong(d, cells, ones, zeros, compare, iter, j - 1);
      var o := Long32(d, cells, ones, zeros, compare, iter, j - 1);
      HealthyBoth(d, o, ones(j - 1), zeros(j - 1), compare, iter);
    }
  }

  // ---- A stuck bit ----

  // On a device whose cells are where their addresses say, a pass stores everywhere it
  // goes; a stuck bit changes what is read, not what is kept.
  lemma {:induction false} StuckKeeps32(d: Device, cells: seq<Word>, r: Row, w: Pattern, n: nat)
    requires Stuck(d) && |cells| == d.size && n <= d.size
    ensures forall i :: 0 <= i < d.size ==>
      Steps32(d, cells, r, w, n).cells[i] == if At(r.up, d.size, i) < n then Word32(w, i, r.store) else cells[i]
    decreases n
  {
    hide SetBit, OneBit, Word32;
    if n > 0 {
      StuckKeeps32(d, cells, r, w, n - 1);
      assert At(r.up, d.size, At(r.up, d.size, n - 1)) == n - 1;
    }
  }

  // What one step finds in a cell that holds what the pass expects.
  lemma StuckVisit(d: Device, o: Outcome, i: nat, r: Row, w: Pattern)
    requires Stuck(d) && |o.cells| == d.size && i < d.size
    requires r.check.Some? ==> o.cells[i] == Word32(w, i, r.check.value)
    ensures Visit(d, o, i, PassAt(r, w, i)).ok <==>
            o.ok && (r.check.None? || i != d.fault.cell || Shows(d.fault, Word32(w, i, r.check.value)))
  {
    hide SetBit, OneBit, Word32;
  }

  // It finds a fault exactly when it gets to the stuck cell, expects of it what the cell
  // was given, and the bit is stuck at another value.
  lemma {:induction false} StuckSteps32(d: Device, cells: seq<Word>, r: Row, w: Pattern, n: nat)
    requires Stuck(d) && |cells| == d.size && n <= d.size
    requires r.check.Some? ==> Holding(d, cells, w, 0, r.check.value)
    ensures var c := d.fault.cell;
      Steps32(d, cells, r, w, n).ok <==>
      r.check.None? || At(r.up, d.size, c) >= n || Shows(d.fault, Word32(w, c, r.check.value))
    decreases n
  {
    hide Visit, PassAt, Shows, Word32;
    if n > 0 {
      var i, o := At(r.up, d.size, n - 1), Steps32(d, cells, r, w, n - 1);
      StuckSteps32(d, cells, r, w, n - 1);
      StuckKeeps32(d, cells, r, w, n - 1);
      assert At(r.up, d.size, i) == n - 1;
      assert o.cells[i] == cells[i] == cells[d.decode[i]];
      StuckVisit(d, o, i, r, w);
    }
  }

  lemma StuckRound32(d: Device, o: Outcome, w: Pattern)
    requires Stuck(d) && |o.cells| == d.size && o.ok && Holding(d, o.cells, w, 0, false)
    ensures var o', c := Round32(d, o, w, true), d.fault.cell;
      && (o'.ok <==> Shows(d.fault, w(c)) && (Shows(d.fault, !w(c)) || (Skips(d.size) && c == 0)))
      && (Skips(d.size) ==> o'.cells[0] == !w(0))
  {
    hide Steps32, Shows;
    var up := Follow32(d, o, UpRow(true), w, d.size);
    StuckSteps32(d, o.cells, UpRow(true), w, d.size);
    StuckKeeps32(d, o.cells, UpRow(true), w, d.size);
    StuckSteps32(d, up.cells, DownRow(true), w, DownSteps(d.size));
    StuckKeeps32(d, up.cells, DownRow(true), w, DownSteps(d.size));
  }

  // No bit can be stuck at the right value for a word and for its complement.
  lemma ShowsOne(f: Fault, w: Word)
    requires f.StuckAt? && OneBit(f.bit)
    ensures !(Shows(f, w) && Shows(f, !w))
  {
    SoloShows(f, w, w);
  }

  lemma StuckFirst32(d: Device, cells: seq<Word>, w: Pattern)
    requires Stuck(d) && |cells| == d.size
    ensures var o := Run32(d, cells, w, true, 1);
      && (o.ok <==> Skips(d.size) && d.fault.cell == 0 && Shows(d.fault, w(0)))
      && (Skips(d.size) ==> o.cells[0] == !w(0))
  {
    hide Steps32, Shows, Round32;
    StuckSteps32(d, cells, FILL, w, d.size);
    StuckKeeps32(d, cells, FILL, w, d.size);
    StuckRound32(d, Run32(d, cells, w, true, 0), w);
    ShowsOne(d.fault, w(d.fault.cell));
  }

  // A word 0 that still holds the complement shows in the next round.
  lemma LeftBehindShows(d: Device, o: Outcome, w: Pattern)
    requires Stuck(d) && |o.cells| == d.size && d.fault.cell == 0 && o.cells[0] == !w(0)
    ensures !Round32(d, o, w, true).ok
  {
    hide Steps32, SetBit, OneBit;
    OneBitIsNotAll(w(0), d.fault.bit, d.fault.value);
    FirstWordFails(d, o.cells, UpRow(true), w, d.size);
  }

  // movinv32 with comparison on reports every stuck bit, but for one in a skipped word 0
  // that is stuck at the pattern's value when there is no second round.
  lemma MovInv32FindsStuck(d: Device, cells: seq<Word>, w: Pattern, iter: nat)
    requires Stuck(d) && |cells| == d.size && iter >= 1
    ensures Run32(d, cells, w, true, iter).ok <==>
            iter == 1 && Skips(d.size) && d.fault.cell == 0 && Shows(d.fault, w(0))
  {
    hide Round32, Shows;
    StuckFirst32(d, cells, w);
    var first := Run32(d, cells, w, true, 1);
    if iter > 1 {
      if first.ok {
        LeftBehindShows(d, first, w);
        assert Run32(d, cells, w, true, 2) == Round32(d, first, w, true);
        FailedRound(d, cells, w, true, 2, iter);
      } else {
        FailedRound(d, cells, w, true, 1, iter);
      }
    }
  }

  lemma BothFindStuck(d: Device, o: Outcome, w: Pattern, w': Pattern, iter: nat)
    requires Stuck(d) && |o.cells| == d.size && iter >= 1 && w'(0) == !w(0)
    ensures !Both32(d, o, w, w', true, iter).ok
  {
    hide Run32, Shows;
    MovInv32FindsStuck(d, o.cells, w, iter);
    MovInv32FindsStuck(d, Run32(d, o.cells, w, true, iter).cells, w', iter);
    ShowsOne(d.fault, w(0));
  }

  lemma LongFindsStuckFrom(d: Device, cells: seq<Word>, ones: Family, zeros: Family, iter: nat, j: nat)
    requires Stuck(d) && |cells| == d.size && iter >= 1 && j >= 1 && zeros(0)(0) == !ones(0)(0)
    ensures !Long32(d, cells, ones, zeros, true, iter, j).ok
  {
    hide Long32, Both32;
    NoPosition(d, cells, ones, zeros, true, iter);
    NextPosition32(d, cells, ones, zeros, true, iter, 0);
    BothFindStuck(d, Outcome(cells, true), ones(0), zeros(0), iter);
    FailedPosition(d, cells, ones, zeros, true, iter, 1, j);
  }

  // test_movinv_long reports every stuck bit, whatever the length: the two patterns of
  // the first position are complements, and one bit cannot agree with both.
  lemma LongFindsStuck(d: Device, cells: seq<Word>, iter: nat, j: nat)
    requires Stuck(d) && |cells| == d.size && iter >= 1 && j >= 1
    ensures !Long32(d, cells, Family32(0), Family32(1), true, iter, j).ok
  {
    LongFindsStuckFrom(d, cells, Family32(0), Family32(1), iter, j);
  }
}
