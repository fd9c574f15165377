// Address decoding: March C, and the own-address test, succeed exactly when no two
// addresses reach the same cell.
module MarchDecode {
  import opened Common
  import opened MemoryDevice
  import opened MarchSpec
  import opened MarchDetect

  ghost predicate Reads(d: Device, cells: seq<Word>, w: Word)
    requires WellFormed(d) && |cells| == d.size
  {
    forall i :: 0 <= i < |d.decode| ==> cells[d.decode[i]] == w
  }

  // After n steps, what every visited address reads.
  lemma {:induction false} FillSteps(d: Device, cells: seq<Word>, p: Word, n: nat)
    requires WellFormed(d) && d.fault.Healthy? && |cells| == d.size && n <= |d.decode|
    ensures var o := Steps(d, cells, Fill(p), n);
      o.ok && forall i :: 0 <= i < n ==> o.cells[d.decode[i]] == p
    decreases n
  {
    if n > 0 {
      FillSteps(d, cells, p, n - 1);
    }
  }

  lemma {:induction false} VisitedReadB(d: Device, cells: seq<Word>, a: Word, b: Word, up: bool, n: nat)
    requires WellFormed(d) && d.fault.Healthy? && |cells| == d.size && n <= |d.decode|
    requires Steps(d, cells, CheckStore(a, b, up), n).ok
    ensures var o := Steps(d, cells, CheckStore(a, b, up), n);
      forall k :: 0 <= k < n ==> o.cells[d.decode[At(up, |d.decode|, k)]] == b
    decreases n
  {
    if n > 0 {
      VisitedReadB(d, cells, a, b, up, n - 1);
    }
  }

  lemma UniformVisit(d: Device, o: Outcome, i: nat, a: Word, b: Word, e: Pass)
    requires WellFormed(d) && d.fault.Healthy? && |o.cells| == d.size && i < |d.decode| && o.ok
    requires o.cells[d.decode[i]] == a && e.store == Some(b) && (e.check == None || e.check == Some(a))
    ensures Visit(d, o, i, e) == Outcome(o.cells[d.decode[i] := b], true)
  {
  }

  lemma CheckUniform(d: Device, cells: seq<Word>, p: Word, up: bool)
    requires WellFormed(d) && d.fault.Healthy? && |cells| == d.size && Reads(d, cells, p)
    ensures Sweep(d, cells, Check(p, up)) == Outcome(cells, true)
  {
    CheckPass(d, cells, p, up);
  }

  // With an injective decoder a uniform memory stays uniform, and no check fails.
  lemma {:induction false} UniformSteps(d: Device, cells: seq<Word>, a: Word, b: Word, e: Pass, n: nat)
    requires WellFormed(d) && d.fault.Healthy? && Injective(d) && |cells| == d.size && n <= |d.decode|
    requires Reads(d, cells, a) && e.store == Some(b) && (e.check == None || e.check == Some(a))
    ensures var o := Steps(d, cells, e, n);
      && o.ok
      && forall i :: 0 <= i < |d.decode| ==> o.cells[d.decode[i]] == if At(e.up, |d.decode|, i) < n then b else a
    decreases n
  {
    hide Visit;
    if n > 0 {
      var i, o := At(e.up, |d.decode|, n - 1), Steps(d, cells, e, n - 1);
      UniformSteps(d, cells, a, b, e, n - 1);
      assert At(e.up, |d.decode|, i) == n - 1;
      UniformVisit(d, o, i, a, b, e);
    }
  }

  lemma UniformPass(d: Device, cells: seq<Word>, a: Word, b: Word, up: bool)
    requires WellFormed(d) && d.fault.Healthy? && Injective(d) && |cells| == d.size && Reads(d, cells, a)
    ensures var o := Sweep(d, cells, CheckStore(a, b, up)); o.ok && Reads(d, o.cells, b)
  {
    UniformSteps(d, cells, a, b, CheckStore(a, b, up), |d.decode|);
  }

  lemma UniformRound(d: Device, cells: seq<Word>, p: Word)
    requires WellFormed(d) && d.fault.Healthy? && Injective(d) && |cells| == d.size && Reads(d, cells, p)
    ensures var o := RoundBody(d, cells, p); o.ok && Reads(d, o.cells, p)
  {
    hide Sweep;
    UniformPass(d, cells, p, !p, true);
    var o1 := Sweep(d, cells, CheckStore(p, !p, true));
    UniformPass(d, o1.cells, !p, p, true);
    var o2 := Sweep(d, o1.cells, CheckStore(!p, p, true));
    CheckPass(d, o2.cells, p, true);
    UniformPass(d, o2.cells, p, !p, false);
    var o4 := Sweep(d, o2.cells, CheckStore(p, !p, false));
    UniformPass(d, o4.cells, !p, p, false);
  }

  lemma {:induction false} UniformRounds(d: Device, cells: seq<Word>, p: Word, iter: nat)
    requires WellFormed(d) && d.fault.Healthy? && Injective(d) && |cells| == d.size && Reads(d, cells, p)
    ensures var o := Rounds(d, cells, p, iter); o.ok && Reads(d, o.cells, p)
    decreases iter
  {
    hide RoundBody, Sweep, Injective, Reads;
    if iter > 0 {
      UniformRound(d, cells, p);
      var body := RoundBody(d, cells, p);
      CheckUniform(d, body.cells, p, false);
      UniformRounds(d, body.cells, p, iter - 1);
    }
  }

  // Two addresses of one cell: the second to be visited finds the complement.
  lemma AliasFails(d: Device, cells: seq<Word>, p: Word, i: nat, j: nat)
    requires WellFormed(d) && d.fault.Healthy? && |cells| == d.size
    requires i < j < |d.decode| && d.decode[i] == d.decode[j]
    ensures !Sweep(d, cells, CheckStore(p, !p, true)).ok
  {
    var e := CheckStore(p, !p, true);
    ComplementDiffers(p);
    if Sweep(d, cells, e).ok {
      assert At(true, |d.decode|, i) == i;
      OkBefore(d, cells, e, j, |d.decode|);
      VisitedReadB(d, cells, p, !p, true, j);
      OkBefore(d, cells, e, j + 1, |d.decode|);
    }
  }

  lemma {:induction false} OkBefore(d: Device, cells: seq<Word>, e: Pass, n: nat, m: nat)
    requires WellFormed(d) && |cells| == d.size && n <= m <= |d.decode| && Steps(d, cells, e, m).ok
    ensures Steps(d, cells, e, n).ok
    decreases m
  {
    if n < m {
      OkBefore(d, cells, e, n, m - 1);
    }
  }

  // March C on a memory whose only possible fault is its decoder.
  lemma MarchDecidesInjective(d: Device, cells: seq<Word>, p: Word, iter: nat)
    requires WellFormed(d) && d.fault.Healthy? && |cells| == d.size && iter >= 1
    ensures MarchC(d, cells, p, iter).ok <==> |d.decode| > 0 && Injective(d)
    ensures MarchC(d, cells, p, iter).ok ==> Reads(d, MarchC(d, cells, p, iter).cells, p)
  {
    var filled := Sweep(d, cells, Fill(p)).cells;
    FillSteps(d, cells, p, |d.decode|);
    if Injective(d) {
      UniformRounds(d, filled, p, iter);
    } else {
      var i, j :| 0 <= i < j < |d.decode| && d.decode[i] == d.decode[j];
      AliasFails(d, filled, p, i, j);
    }
  }

  // ---- The own-address test ----

  // fillup: each word receives its own address.
  function OwnFilled(d: Device, cells: seq<Word>, n: nat): (cells': seq<Word>)
    requires WellFormed(d) && |cells| == d.size && n <= |d.decode|
    ensures |cells'| == d.size
    decreases n
  {
    if n == 0 then cells else Store(d, OwnFilled(d, cells, n - 1), d.decode[n - 1], d.own[n - 1])
  }

  ghost predicate ReadsOwn(d: Device, cells: seq<Word>, n: nat)
    requires WellFormed(d) && |cells| == d.size && n <= |d.decode|
  {
    forall i :: 0 <= i < n ==> Load(d, cells, d.decode[i]) == d.own[i]
  }

  lemma {:induction false} OwnFilledInjective(d: Device, cells: seq<Word>, n: nat)
    requires WellFormed(d) && d.fault.Healthy? && Injective(d) && |cells| == d.size && n <= |d.decode|
    ensures ReadsOwn(d, OwnFilled(d, cells, n), n)
    decreases n
  {
    if n > 0 {
      OwnFilledInjective(d, cells, n - 1);
    }
  }

  // The words read back are the own addresses exactly when the decoder is injective.
  lemma OwnDecidesInjective(d: Device, cells: seq<Word>)
    requires WellFormed(d) && d.fault.Healthy? && |cells| == d.size
    ensures ReadsOwn(d, OwnFilled(d, cells, |d.decode|), |d.decode|) <==> Injective(d)
  {
    if Injective(d) {
      OwnFilledInjective(d, cells, |d.decode|);
    }
  }
}
