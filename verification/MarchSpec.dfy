// What a test does to a memory, as functions: passes over the words in address
// order, and sequences of passes.
module MarchSpec {
  import opened Common
  import opened MemoryDevice

  // One pass: at each word, compare with `check` if any, then store `store` if any.
  // A stopping pass ends at the first mismatch; the others only remember it.
  datatype Pass = Pass(up: bool, check: Option<Word>, store: Option<Word>, stop: bool)

  datatype Outcome = Outcome(cells: seq<Word>, ok: bool)

  // The address of step k, and so also the step of address k.
  function At(up: bool, cnt: nat, k: nat): nat
    requires k < cnt
  {
    if up then k else cnt - 1 - k
  }

  predicate Matches(d: Device, cells: seq<Word>, c: nat, check: Option<Word>)
    requires c < |cells|
  {
    check.Some? ==> Load(d, cells, c) == check.value
  }

  function Visit(d: Device, o: Outcome, i: nat, e: Pass): (o': Outcome)
    requires WellFormed(d) && |o.cells| == d.size && i < |d.decode|
    ensures |o'.cells| == d.size
  {
    var c := d.decode[i];
    var ok := Matches(d, o.cells, c, e.check);
    if e.stop && (!o.ok || !ok) then Outcome(o.cells, false)
    else Outcome(if e.store.Some? then Store(d, o.cells, c, e.store.value) else o.cells, o.ok && ok)
  }

  // The first n steps of a pass.
  function Steps(d: Device, cells: seq<Word>, e: Pass, n: nat): (o: Outcome)
    requires WellFormed(d) && |cells| == d.size && n <= |d.decode|
    ensures |o.cells| == d.size
    decreases n
  {
    if n == 0 then Outcome(cells, true)
    else Visit(d, Steps(d, cells, e, n - 1), At(e.up, |d.decode|, n - 1), e)
  }

  function Sweep(d: Device, cells: seq<Word>, e: Pass): (o: Outcome)
    requires WellFormed(d) && |cells| == d.size
    ensures |o.cells| == d.size
  {
    Steps(d, cells, e, |d.decode|)
  }

  // A further pass, unless the test has already failed.
  function Then(d: Device, o: Outcome, e: Pass): (o': Outcome)
    requires WellFormed(d) && |o.cells| == d.size
    ensures |o'.cells| == d.size
  {
    if o.ok then Sweep(d, o.cells, e) else o
  }

  function Fill(w: Word): Pass { Pass(true, None, Some(w), false) }
  function CheckStore(a: Word, b: Word, up: bool): Pass { Pass(up, Some(a), Some(b), true) }
  function Check(a: Word, up: bool): Pass { Pass(up, Some(a), None, true) }

  // March C over pattern p: the five passes whose failure ends the test, and the
  // closing check, whose verdict counts only in the last round.
  function RoundBody(d: Device, cells: seq<Word>, p: Word): (o: Outcome)
    requires WellFormed(d) && |cells| == d.size
    ensures |o.cells| == d.size
  {
    var o1 := Sweep(d, cells, CheckStore(p, !p, true));
    var o2 := Then(d, o1, CheckStore(!p, p, true));
    var o3 := Then(d, o2, Check(p, true));
    var o4 := Then(d, o3, CheckStore(p, !p, false));
    Then(d, o4, CheckStore(!p, p, false))
  }

  function Rounds(d: Device, cells: seq<Word>, p: Word, iter: nat): (o: Outcome)
    requires WellFormed(d) && |cells| == d.size
    ensures |o.cells| == d.size
    decreases iter
  {
    if iter == 0 then Outcome(cells, true)
    else
      var body := RoundBody(d, cells, p);
      if !body.ok then body
      else
        var last := Sweep(d, body.cells, Check(p, false));
        if iter == 1 then last else Rounds(d, last.cells, p, iter - 1)
  }

  // A range without words fails its first check.
  function MarchC(d: Device, cells: seq<Word>, p: Word, iter: nat): (o: Outcome)
    requires WellFormed(d) && |cells| == d.size
  {
    if |d.decode| == 0 then Outcome(cells, iter == 0)
    else Rounds(d, Sweep(d, cells, Fill(p)).cells, p, iter)
  }
}
