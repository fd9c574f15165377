// March C finds every coupling fault, stuck bit, failed transition and aliased
// address, and raises no alarm on a memory without them.
module MarchDetect {
  import opened Common
  import opened MemoryDevice
  import opened MarchSpec

  // ---- What a successful pass says about the words it read ----

  lemma {:induction false} CheckSteps(d: Device, cells: seq<Word>, a: Word, up: bool, n: nat)
    requires WellFormed(d) && |cells| == d.size && n <= |d.decode|
    ensures var o := Steps(d, cells, Check(a, up), n);
      && o.cells == cells
      && (o.ok <==> forall k :: 0 <= k < n ==> Load(d, cells, d.decode[At(up, |d.decode|, k)]) == a)
    decreases n
  {
    if n > 0 {
      CheckSteps(d, cells, a, up, n - 1);
    }
  }

  // A checking pass changes nothing, and succeeds when every word reads as a.
  lemma CheckPass(d: Device, cells: seq<Word>, a: Word, up: bool)
    requires WellFormed(d) && |cells| == d.size
    ensures var o := Sweep(d, cells, Check(a, up));
      && o.cells == cells
      && (o.ok <==> forall i :: 0 <= i < |d.decode| ==> Load(d, cells, d.decode[i]) == a)
  {
    var cnt := |d.decode|;
    CheckSteps(d, cells, a, up, cnt);
    if Sweep(d, cells, Check(a, up)).ok {
      forall i | 0 <= i < cnt
        ensures Load(d, cells, d.decode[i]) == a
      {
        assert At(up, cnt, if up then i else cnt - 1 - i) == i;
      }
    }
  }

  // ---- Coupling faults ----

  // The victim's word w when the aggressor goes from `before` to `after`.
  function Hit(f: Fault, before: Word, after: Word, w: Word): Word
    requires f.Coupling?
  {
    if Moves(before, after, f.abit, f.rising) then Disturb(w, f.vbit, f.effect) else w
  }

  ghost predicate Coupled(d: Device) {
    WellFormed(d) && Direct(d) && d.fault.Coupling? && d.size == |d.decode|
  }

  // One successful step, seen from the two coupled words.
  lemma CoupledVisit(d: Device, o: Outcome, i: nat, a: Word, b: Word, up: bool)
    requires Coupled(d) && |o.cells| == d.size && i < d.size && Visit(d, o, i, CheckStore(a, b, up)).ok
    ensures var f, o' := d.fault, Visit(d, o, i, CheckStore(a, b, up));
      var x, y := f.aggressor, f.victim;
      && o.ok && (i == x || i == y ==> o.cells[i] == a)
      && o'.cells[x] == (if i == x then b else o.cells[x])
      && o'.cells[y] == (if i == y then b else if i == x then Hit(f, a, b, o.cells[y]) else o.cells[y])
  {
  }

  // The two coupled words, visited at steps sx and sy, after n successful steps of a
  // pass that expects a and stores b; hit is what the first does to the second.
  ghost predicate After2<T>(hit: T -> T, x: T, y: T, a: T, b: T, sx: nat, sy: nat, n: nat, x': T, y': T) {
    && x' == (if sx < n then b else x) && (sx < n ==> x == a)
    && (n <= sy ==> y' == if sx < n then hit(y) else y)
    && (sy < n && sx < sy ==> hit(y) == a && y' == b)
    && (sy < n && sy < sx ==> y == a && y' == if sx < n then hit(b) else b)
  }

  lemma After2Next<T>(hit: T -> T, x: T, y: T, a: T, b: T, sx: nat, sy: nat, n: nat, x0: T, y0: T, x1: T, y1: T)
    requires sx != sy && After2(hit, x, y, a, b, sx, sy, n, x0, y0)
    requires (n == sx ==> x0 == a) && (n == sy ==> y0 == a)
    requires x1 == if n == sx then b else x0
    requires y1 == if n == sy then b else if n == sx then hit(y0) else y0
    ensures After2(hit, x, y, a, b, sx, sy, n + 1, x1, y1)
  {
  }

  lemma After2None<T>(hit: T -> T, x: T, y: T, a: T, b: T, sx: nat, sy: nat)
    ensures After2(hit, x, y, a, b, sx, sy, 0, x, y)
  {
  }

  function Hitting(f: Fault, a: Word, b: Word): Word -> Word
    requires f.Coupling?
  {
    w => Hit(f, a, b, w)
  }

  ghost predicate CoupledAfter(d: Device, cells: seq<Word>, a: Word, b: Word, up: bool, n: nat, after: seq<Word>)
    requires Coupled(d) && |cells| == |after| == d.size
  {
    var x, y := d.fault.aggressor, d.fault.victim;
    var sx, sy := At(up, d.size, x), At(up, d.size, y);
    After2(Hitting(d.fault, a, b), cells[x], cells[y], a, b, sx, sy, n, after[x], after[y])
  }

  lemma {:induction false} CoupledSteps(d: Device, cells: seq<Word>, a: Word, b: Word, up: bool, n: nat)
    requires Coupled(d) && |cells| == d.size && n <= d.size && Steps(d, cells, CheckStore(a, b, up), n).ok
    ensures CoupledAfter(d, cells, a, b, up, n, Steps(d, cells, CheckStore(a, b, up), n).cells)
    decreases n
  {
    hide Visit, Hit, After2;
    var x, y := d.fault.aggressor, d.fault.victim;
    var sx, sy := At(up, d.size, x), At(up, d.size, y);
    if n == 0 {
      After2None(Hitting(d.fault, a, b), cells[x], cells[y], a, b, sx, sy);
    } else {
      var o, o' := Steps(d, cells, CheckStore(a, b, up), n - 1), Steps(d, cells, CheckStore(a, b, up), n);
      CoupledVisit(d, o, At(up, d.size, n - 1), a, b, up);
      CoupledSteps(d, cells, a, b, up, n - 1);
      After2Next(Hitting(d.fault, a, b), cells[x], cells[y], a, b, sx, sy, n - 1,
        o.cells[x], o.cells[y], o'.cells[x], o'.cells[y]);
    }
  }

  // A successful checking and storing pass, aggressor first or victim first.
  lemma CoupledPass(d: Device, cells: seq<Word>, a: Word, b: Word, up: bool)
    requires Coupled(d) && |cells| == d.size && Sweep(d, cells, CheckStore(a, b, up)).ok
    ensures var f, o := d.fault, Sweep(d, cells, CheckStore(a, b, up));
      && o.cells[f.aggressor] == b
      && if (f.aggressor < f.victim) == up
         then Hit(f, a, b, cells[f.victim]) == a && o.cells[f.victim] == b
         else cells[f.victim] == a && o.cells[f.victim] == Hit(f, a, b, b)
  {
    hide Steps, Hit;
    CoupledSteps(d, cells, a, b, up, d.size);
  }

  lemma {:induction false} CoupledFill(d: Device, cells: seq<Word>, p: Word, n: nat)
    requires Coupled(d) && |cells| == d.size && n <= d.size && d.fault.aggressor < d.fault.victim < n
    ensures Steps(d, cells, Fill(p), n).cells[d.fault.victim] == p
    decreases n
  {
    if n - 1 > d.fault.victim {
      CoupledFill(d, cells, p, n - 1);
    }
  }

  lemma OneDirectionOnly(p: Word, m: Word, rising: bool)
    requires OneBit(m)
    ensures Moves(p, !p, m, rising) != Moves(!p, p, m, rising)
  {
    hide Bit, OneBit;
    ComplementBit(p, m);
  }

  // Forcing a bit changes a word that has the other value there; inverting always does.
  lemma ForceMoves(w: Word, m: Word, value: bool)
    requires OneBit(m)
    ensures Bit(w, m) != value ==> Disturb(w, m, Force(value)) != w
  {
    SetBitBit(w, m, value);
  }

  lemma InvertMoves(w: Word, m: Word)
    requires OneBit(m)
    ensures Disturb(w, m, Invert) != w
  {
    InvertDiffers(w, m);
  }

  lemma DisturbShows(p: Word, m: Word, e: Effect)
    requires OneBit(m)
    ensures Disturb(p, m, e) != p || Disturb(!p, m, e) != !p
  {
    hide Disturb, Bit, OneBit;
    var q := !p;
    ComplementBit(p, m);
    match e
    case Force(v) =>
      ForceMoves(p, m, v);
      ForceMoves(q, m, v);
    case Invert =>
      InvertMoves(p, m);
  }

  // No fault leaves both a word and its complement as they were in both directions.
  lemma HitShows(f: Fault, p: Word)
    requires f.Coupling? && OneBit(f.abit) && OneBit(f.vbit)
    ensures Hit(f, p, !p, p) != p || Hit(f, p, !p, !p) != !p || Hit(f, !p, p, !p) != !p
      || (Hit(f, !p, p, p) != p && Hit(f, p, !p, Hit(f, !p, p, p)) != p)
  {
    hide Disturb, Moves, OneBit;
    var q := !p;
    OneDirectionOnly(p, f.abit, f.rising);
    DisturbShows(p, f.vbit, f.effect);
    assert Hit(f, p, q, p) == if Moves(p, q, f.abit, f.rising) then Disturb(p, f.vbit, f.effect) else p;
  }

  // The body of a round succeeds only if the fault is masked everywhere but in the
  // last write, whose effect the closing check, or the next round's first pass, sees.
  lemma CoupledRound(d: Device, cells: seq<Word>, p: Word)
    requires Coupled(d) && |cells| == d.size && RoundBody(d, cells, p).ok
    requires d.fault.aggressor < d.fault.victim ==> cells[d.fault.victim] == p
    ensures var f, o := d.fault, RoundBody(d, cells, p);
      && Hit(f, p, !p, p) == p && Hit(f, p, !p, !p) == !p && Hit(f, !p, p, !p) == !p
      && if f.aggressor < f.victim then o.cells[f.victim] == Hit(f, !p, p, p) else Hit(f, !p, p, p) == p
  {
    hide Steps, Hit;
    ComplementDiffers(p);
    var o1 := Sweep(d, cells, CheckStore(p, !p, true));
    CoupledPass(d, cells, p, !p, true);
    var o2 := Sweep(d, o1.cells, CheckStore(!p, p, true));
    CoupledPass(d, o1.cells, !p, p, true);
    CheckPass(d, o2.cells, p, true);
    assert Load(d, o2.cells, d.decode[d.fault.victim]) == p;
    var o4 := Sweep(d, o2.cells, CheckStore(p, !p, false));
    CoupledPass(d, o2.cells, p, !p, false);
    CoupledPass(d, o4.cells, !p, p, false);
  }

  // Every coupling fault between two distinct words is reported, in either address
  // order and after any number of rounds.
  lemma MarchFindsCoupling(d: Device, cells: seq<Word>, p: Word, iter: nat)
    requires Coupled(d) && |cells| == d.size && iter >= 1
    ensures !MarchC(d, cells, p, iter).ok
  {
    var filled := Sweep(d, cells, Fill(p)).cells;
    if d.fault.aggressor < d.fault.victim {
      CoupledFill(d, cells, p, d.size);
    }
    if MarchC(d, cells, p, iter).ok {
      var body := RoundBody(d, filled, p);
      CoupledRound(d, filled, p);
      HitShows(d.fault, p);
      CheckPass(d, body.cells, p, false);
      assert Load(d, body.cells, d.decode[d.fault.victim]) == body.cells[d.fault.victim];
      if iter > 1 {
        assert Rounds(d, body.cells, p, iter - 1).ok;
        assert RoundBody(d, body.cells, p).ok;
        CoupledPass(d, body.cells, p, !p, true);
      }
      assert false;
    }
  }

  // ---- Faults of one cell ----

  ghost predicate Solo(d: Device, c: nat) {
    && WellFormed(d) && Direct(d) && d.size == |d.decode|
    && ((d.fault.StuckAt? && d.fault.cell == c) || (d.fault.Transition? && d.fault.cell == c))
  }

  // What the faulty cell holds after w is stored over `before`.
  function Kept(f: Fault, before: Word, w: Word): Word {
    if f.Transition? && Moves(before, w, f.bit, f.rising) then SetBit(w, f.bit, !f.rising) else w
  }

  lemma {:induction false} SoloSteps(d: Device, c: nat, cells: seq<Word>, a: Word, b: Word, e: Pass, n: nat)
    requires Solo(d, c) && |cells| == d.size && n <= d.size && e.check == Some(a) && e.store == Some(b)
    requires Steps(d, cells, e, n).ok
    ensures var o := Steps(d, cells, e, n);
      if At(e.up, d.size, c) < n then Load(d, cells, c) == a && o.cells[c] == Kept(d.fault, cells[c], b)
      else o.cells[c] == cells[c]
    decreases n
  {
    if n > 0 {
      SoloSteps(d, c, cells, a, b, e, n - 1);
      assert At(e.up, d.size, At(e.up, d.size, n - 1)) == n - 1;
    }
  }

  lemma SoloRoundFails(d: Device, c: nat, cells: seq<Word>, p: Word)
    requires Solo(d, c) && |cells| == d.size
    ensures !RoundBody(d, cells, p).ok
  {
    if RoundBody(d, cells, p).ok {
      ComplementDiffers(p);
      ComplementBit(p, d.fault.bit);
      var o1 := Sweep(d, cells, CheckStore(p, !p, true));
      SoloSteps(d, c, cells, p, !p, CheckStore(p, !p, true), d.size);
      var o2 := Sweep(d, o1.cells, CheckStore(!p, p, true));
      SoloSteps(d, c, o1.cells, !p, p, CheckStore(!p, p, true), d.size);
      CheckPass(d, o2.cells, p, true);
      assert Load(d, o2.cells, d.decode[c]) == p;
      SoloShows(d.fault, cells[c], p);
    }
  }

  lemma StuckShows(w: Word, p: Word, m: Word, value: bool)
    requires OneBit(m)
    ensures SetBit(w, m, value) != p || SetBit(!p, m, value) != !p
  {
    hide SetBit, Bit;
    var q := !p;
    SetBitBit(w, m, value);
    SetBitBit(q, m, value);
    ComplementBit(p, m);
  }

  lemma TransitionShows(f: Fault, p: Word)
    requires f.Transition? && OneBit(f.bit)
    ensures var w1 := Kept(f, p, !p); w1 != !p || Kept(f, w1, p) != p
  {
    hide SetBit, OneBit, Moves;
    var q := !p;
    OneDirectionOnly(p, f.bit, f.rising);
    if Moves(p, q, f.bit, f.rising) {
      MoveUndone(p, q, f.bit, f.rising);
    } else {
      MoveUndone(q, p, f.bit, f.rising);
    }
  }

  // A move that fails leaves another word than was stored.
  lemma MoveUndone(before: Word, after: Word, m: Word, rising: bool)
    requires OneBit(m) && Moves(before, after, m, rising)
    ensures SetBit(after, m, !rising) != after
  {
    SetBitBit(after, m, !rising);
  }

  // One word cannot read as p, then as its complement, then as p again.
  lemma SoloShows(f: Fault, w: Word, p: Word)
    requires (f.StuckAt? || f.Transition?) && OneBit(f.bit)
    ensures f.StuckAt? ==> SetBit(w, f.bit, f.value) != p || SetBit(!p, f.bit, f.value) != !p
    ensures f.Transition? ==> var w1 := Kept(f, p, !p); w1 != !p || Kept(f, w1, p) != p
  {
    hide SetBit, OneBit, Kept;
    if f.StuckAt? {
      StuckShows(w, p, f.bit, f.value);
    } else {
      TransitionShows(f, p);
    }
  }

  // A stuck bit, or a bit that fails to rise or to fall, is reported whatever the
  // contents, the pattern and the number of rounds.
  lemma MarchFindsSolo(d: Device, c: nat, cells: seq<Word>, p: Word, iter: nat)
    requires Solo(d, c) && |cells| == d.size && iter >= 1
    ensures !MarchC(d, cells, p, iter).ok
  {
    SoloRoundFails(d, c, Sweep(d, cells, Fill(p)).cells, p);
  }
}
