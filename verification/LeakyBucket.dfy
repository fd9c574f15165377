// leaky-bucket.c: the rate limiter behind every error trigger.  Counters are 32-bit
// unsigned and wrap; the age is computed exactly.
module LeakyBucket {
  import opened Common

  const WIDTH: nat := 0x1_0000_0000

  datatype Conf = Conf(capacity: nat, agetime: nat)
  datatype State = State(count: nat, excess: nat, tstamp: int)  // struct leaky_bucket
  datatype Event = Event(inc: nat, t: int)

  predicate Usable(c: Conf) {
    c.capacity < WIDTH && c.agetime < WIDTH && (c.capacity > 0 ==> c.agetime > 0)
  }

  predicate Fits(s: State) {
    s.count < WIDTH && s.excess < WIDTH
  }

  function Aged(c: Conf, s: State, now: int): State
    requires c.agetime > 0
  {
    var diff := now - s.tstamp;
    if diff >= c.agetime then
      var age := diff * c.capacity / c.agetime;
      State(if age > s.count then 0 else s.count - age, 0, now)
    else s
  }

  function Charged(c: Conf, s: State, inc: nat): (State, bool) {
    var count := (s.count + inc) % WIDTH;
    if count >= c.capacity then (State(0, (s.excess + count) % WIDTH, s.tstamp), true)
    else (State(count, s.excess, s.tstamp), false)
  }

  function Accounted(c: Conf, s: State, inc: nat, t: int): (State, bool)
    requires Usable(c)
  {
    if c.capacity == 0 then (s, false) else Charged(c, Aged(c, s, t), inc)
  }

  class Bucket {
    var count: nat
    var excess: nat
    var tstamp: int

    ghost function Value(): State reads this {
      State(count, excess, tstamp)
    }

    // bucket_init.
    constructor (now: int)
      ensures Value() == State(0, 0, now)
    {
      count, excess, tstamp := 0, 0, now;
    }

    // bucket_age.
    method Age(c: Conf, now: int)
      requires c.agetime > 0
      modifies this
      ensures Value() == Aged(c, old(Value()), now)
    {
      var diff := now - tstamp;
      if diff >= c.agetime {
        var age := diff * c.capacity / c.agetime;
        tstamp := now;
        if age > count {
          count := 0;
        } else {
          count := count - age;
        }
        excess := 0;
      }
    }

    // __bucket_account: true when the bucket overflowed.
    method Account(c: Conf, inc: nat, t: int) returns (overflow: bool)
      requires Usable(c)
      modifies this
      ensures (Value(), overflow) == Accounted(c, old(Value()), inc, t)
    {
      if c.capacity == 0 {
        return false;
      }
      Age(c, t);
      count := (count + inc) % WIDTH;
      if count >= c.capacity {
        excess := (excess + count) % WIDTH;
        count := 0;
        return true;
      }
      return false;
    }
  }

  // ---- One step ----

  // The leak is all or nothing: a bucket below its capacity is emptied whenever it ages.
  lemma AgingEmpties(c: Conf, s: State, now: int)
    requires c.agetime > 0 && s.count < c.capacity
    ensures Aged(c, s, now) == if now - s.tstamp >= c.agetime then State(0, 0, now) else s
  {
    var diff := now - s.tstamp;
    if diff >= c.agetime {
      QuotientAtLeast(diff * c.capacity, c.agetime, c.capacity);
      assert diff * c.capacity >= c.agetime * c.capacity by {
        assert (diff - c.agetime) * c.capacity >= 0;
      }
    }
  }

  // An overflow is reported exactly when the pending count with the increment reaches
  // the capacity, unless the 32-bit sum wraps to below the capacity.
  lemma OverflowExact(c: Conf, s: State, inc: nat, t: int)
    requires Usable(c) && s.count < c.capacity && inc < WIDTH
    ensures var pending := (if t - s.tstamp >= c.agetime then 0 else s.count) + inc;
      Accounted(c, s, inc, t).1 <==> pending >= c.capacity && !(WIDTH <= pending < WIDTH + c.capacity)
  {
    AgingEmpties(c, s, t);
  }

  // The callers pass 1, or one less than a count of 15 bits.  With a capacity that leaves
  // room for that, an overflow is reported exactly when the capacity is reached.
  const LARGEST_INC: nat := 0x8000

  lemma CallersOverflowExact(c: Conf, s: State, inc: nat, t: int)
    requires Usable(c) && s.count < c.capacity <= WIDTH - LARGEST_INC && inc < LARGEST_INC
    ensures Accounted(c, s, inc, t).1 <==>
            (if t - s.tstamp >= c.agetime then 0 else s.count) + inc >= c.capacity
  {
    OverflowExact(c, s, inc, t);
  }

  // With a larger capacity even a small increment can wrap, and the overflow is lost.
  lemma WrapLosesOverflow()
    ensures !Accounted(Conf(WIDTH - 1, 60), State(WIDTH - 2, 0, 0), 2, 1).1
  {
    OverflowExact(Conf(WIDTH - 1, 60), State(WIDTH - 2, 0, 0), 2, 1);
  }

  // ---- Runs from bucket_init ----

  function After(c: Conf, start: int, es: seq<Event>): State
    requires Usable(c)
  {
    if es == [] then State(0, 0, start)
    else
      var e := es[|es| - 1];
      Accounted(c, After(c, start, es[..|es| - 1]), e.inc, e.t).0
  }

  // Whether the last event overflows the bucket.
  predicate Overflows(c: Conf, start: int, es: seq<Event>)
    requires Usable(c)
  {
    es != [] && Accounted(c, After(c, start, es[..|es| - 1]), es[|es| - 1].inc, es[|es| - 1].t).1
  }

  function Triggers(c: Conf, start: int, es: seq<Event>): nat
    requires Usable(c)
  {
    if es == [] then 0
    else Triggers(c, start, es[..|es| - 1]) + if Overflows(c, start, es) then 1 else 0
  }

  function Total(es: seq<Event>): nat {
    if es == [] then 0 else Total(es[..|es| - 1]) + es[|es| - 1].inc
  }

  // The tumbling window: it began at start, and total has arrived since.
  datatype Tumbling = Tumbling(start: int, total: nat)

  function Slid(w: Tumbling, e: Event, agetime: nat): Tumbling {
    if e.t - w.start >= agetime then Tumbling(e.t, e.inc) else Tumbling(w.start, w.total + e.inc)
  }

  function Window(c: Conf, start: int, es: seq<Event>): Tumbling {
    if es == [] then Tumbling(start, 0)
    else Slid(Window(c, start, es[..|es| - 1]), es[|es| - 1], c.agetime)
  }

  lemma {:induction false} CountBelowCapacity(c: Conf, start: int, es: seq<Event>)
    requires Usable(c) && c.capacity > 0
    ensures After(c, start, es).count < c.capacity && Fits(After(c, start, es))
  {
    if es != [] {
      CountBelowCapacity(c, start, es[..|es| - 1]);
      AgingEmpties(c, After(c, start, es[..|es| - 1]), es[|es| - 1].t);
    }
  }

  lemma ModAdd(a: nat, b: nat)
    ensures (a % WIDTH + b) % WIDTH == (a + b) % WIDTH
  {
  }

  lemma ChargedSum(c: Conf, s: State, inc: nat)
    ensures var s' := Charged(c, s, inc).0;
      && s'.tstamp == s.tstamp && (s'.count + s'.excess) % WIDTH == (s.count + s.excess + inc) % WIDTH
      && (s.count + s.excess + inc < WIDTH ==> s'.count + s'.excess == s.count + s.excess + inc)
  {
    ModAdd(s.count + inc, s.excess);
  }

  lemma ChargedPays(c: Conf, s: State, inc: nat, n: nat)
    ensures var (s', overflow) := Charged(c, s, inc);
      (if overflow then n + 1 else n) * c.capacity + s'.count <= n * c.capacity + s.count + inc
  {
    assert (n + 1) * c.capacity == n * c.capacity + c.capacity;
  }

  // The bucket is a tumbling window: its time stamp is the window's beginning, and its
  // two counters together are what has arrived in the window, modulo 2^32 and exactly
  // while that fits.
  lemma {:induction false} BucketIsWindow(c: Conf, start: int, es: seq<Event>)
    requires Usable(c) && c.capacity > 0
    ensures var s, w := After(c, start, es), Window(c, start, es);
      && s.tstamp == w.start && (s.count + s.excess) % WIDTH == w.total % WIDTH
      && (w.total < WIDTH ==> s.count + s.excess == w.total)
  {
    hide Aged, Charged;
    if es != [] {
      var before, e := es[..|es| - 1], es[|es| - 1];
      BucketIsWindow(c, start, before);
      CountBelowCapacity(c, start, before);
      var s, w := After(c, start, before), Window(c, start, before);
      AgingEmpties(c, s, e.t);
      ChargedSum(c, if e.t - w.start < c.agetime then s else State(0, 0, e.t), e.inc);
      if e.t - w.start < c.agetime {
        ModAdd(s.count + s.excess, e.inc);
        ModAdd(w.total, e.inc);
      }
    }
  }

  // ---- What the count is ----

  // One more event.
  lemma AfterNext(c: Conf, start: int, es: seq<Event>, e: Event)
    requires Usable(c)
    ensures After(c, start, es + [e]) == Accounted(c, After(c, start, es), e.inc, e.t).0
    ensures Overflows(c, start, es + [e]) <==> Accounted(c, After(c, start, es), e.inc, e.t).1
  {
    assert (es + [e])[..|es|] == es;
  }

  // Event i begins a window.
  predicate Opens(c: Conf, start: int, es: seq<Event>, i: nat)
    requires i < |es|
  {
    es[i].t - Window(c, start, es[..i]).start >= c.agetime
  }

  // Nothing is pending before event i: no event came yet, the last one overflowed, or
  // event i begins a window.
  predicate Clears(c: Conf, start: int, es: seq<Event>, i: nat)
    requires Usable(c) && i <= |es|
  {
    i == 0 || Overflows(c, start, es[..i]) || (i < |es| && Opens(c, start, es, i))
  }

  // The last such place.
  ghost predicate ClearedLast(c: Conf, start: int, es: seq<Event>, i: nat, n: nat)
    requires Usable(c) && i <= n <= |es|
  {
    Clears(c, start, es, i) && forall j :: i < j <= n ==> !Clears(c, start, es, j)
  }

  // An overflow empties the counter.
  lemma OverflowEmpties(c: Conf, start: int, es: seq<Event>)
    requires Usable(c) && Overflows(c, start, es)
    ensures After(c, start, es).count == 0
  {
  }

  lemma StepFromEmpty(c: Conf, s: State, e: Event)
    requires Usable(c) && c.capacity > 0 && s.count < c.capacity
    requires s.count == 0 || e.t - s.tstamp >= c.agetime
    ensures var (s', overflow) := Accounted(c, s, e.inc, e.t);
      (overflow <==> e.inc % WIDTH >= c.capacity) && s'.count == if overflow then 0 else e.inc % WIDTH
  {
    AgingEmpties(c, s, e.t);
  }

  lemma StepInWindow(c: Conf, s: State, e: Event, sum: nat)
    requires Usable(c) && c.capacity > 0 && s.count == sum % WIDTH && e.t - s.tstamp < c.agetime
    ensures var (s', overflow) := Accounted(c, s, e.inc, e.t);
      && (overflow <==> (sum + e.inc) % WIDTH >= c.capacity)
      && s'.count == if overflow then 0 else (sum + e.inc) % WIDTH
  {
    ModAdd(sum, e.inc);
  }

  // For all increments: the last event overflows exactly when the increments since the
  // last overflow, or since the window began, with its own reach the capacity (in 32
  // bits), and the count is that sum, or nothing after an overflow.
  lemma {:induction false} VerdictIsSum(c: Conf, start: int, es: seq<Event>, i: nat)
    requires Usable(c) && c.capacity > 0 && i < |es| && ClearedLast(c, start, es, i, |es| - 1)
    ensures Overflows(c, start, es) <==> Total(es[i..]) % WIDTH >= c.capacity
    ensures After(c, start, es).count == if Overflows(c, start, es) then 0 else Total(es[i..]) % WIDTH
  {
    hide Accounted, Window;
    var n := |es| - 1;
    var before, e := es[..n], es[n];
    CountBelowCapacity(c, start, before);
    BucketIsWindow(c, start, before);
    assert es[i..][..|es[i..]| - 1] == before[i..];
    if i == n {
      assert es[i..] == [e] && Total([e][..0]) == 0;
      if i > 0 && Overflows(c, start, before) {
        OverflowEmpties(c, start, before);
      }
      StepFromEmpty(c, After(c, start, before), e);
    } else {
      assert !Clears(c, start, es, n);
      ClearedBefore(c, start, es, i);
      VerdictIsSum(c, start, before, i);
      StepInWindow(c, After(c, start, before), e, Total(before[i..]));
    }
  }

  // What clears a run up to its last event clears it without that event.
  lemma ClearedBefore(c: Conf, start: int, es: seq<Event>, i: nat)
    requires Usable(c) && i < |es| - 1 && ClearedLast(c, start, es, i, |es| - 1)
    ensures ClearedLast(c, start, es[..|es| - 1], i, |es| - 2)
  {
    hide Overflows, Window;
    var before := es[..|es| - 1];
    forall j | i <= j <= |es| - 2
      ensures Clears(c, start, before, j) == Clears(c, start, es, j)
    {
      assert before[..j] == es[..j];
    }
  }

  // The count after a run is what has come since the last overflow or window.
  lemma CountIsSum(c: Conf, start: int, es: seq<Event>, i: nat)
    requires Usable(c) && c.capacity > 0 && i <= |es| && ClearedLast(c, start, es, i, |es|)
    ensures After(c, start, es).count == Total(es[i..]) % WIDTH
  {
    assert es[..|es|] == es;
    if i == |es| {
      assert es[i..] == [];
    } else {
      assert !Clears(c, start, es, |es|);
      VerdictIsSum(c, start, es, i);
    }
  }

  // There is always such a place.
  lemma {:induction false} ClearedSomewhere(c: Conf, start: int, es: seq<Event>, n: nat) returns (i: nat)
    requires Usable(c) && n <= |es|
    ensures i <= n && ClearedLast(c, start, es, i, n)
  {
    i := n;
    if !Clears(c, start, es, n) {
      i := ClearedSomewhere(c, start, es, n - 1);
    }
  }

  // Each overflow is paid for by a capacity's worth of increments.
  lemma {:induction false} TriggerBudget(c: Conf, start: int, es: seq<Event>)
    requires Usable(c) && c.capacity > 0
    ensures Triggers(c, start, es) * c.capacity + After(c, start, es).count <= Total(es)
  {
    if es != [] {
      var before, e := es[..|es| - 1], es[|es| - 1];
      TriggerBudget(c, start, before);
      CountBelowCapacity(c, start, before);
      var s := After(c, start, before);
      AgingEmpties(c, s, e.t);
      ChargedPays(c, if e.t - s.tstamp >= c.agetime then State(0, 0, e.t) else s, e.inc, Triggers(c, start, before));
    }
  }

  // ---- Unit increments ----

  ghost predicate Units(es: seq<Event>) {
    forall i :: 0 <= i < |es| ==> es[i].inc == 1
  }

  lemma ModNext(n: nat, d: nat)
    requires d > 0
    ensures (n + 1) % d == if n % d + 1 == d then 0 else n % d + 1
  {
    var q, r := n / d, n % d;
    assert n + 1 == q * d + (r + 1);
    if r + 1 == d {
      ModUnique(n + 1, d, q + 1, 0);
    } else {
      ModUnique(n + 1, d, q, r + 1);
    }
  }

  lemma MulAtLeast(k: nat, d: nat)
    requires k >= 1
    ensures k * d >= d
  {
  }

  lemma Apart(q: nat, r: nat, q': nat, r': nat, d: nat)
    requires q < q' && r < d
    ensures q * d + r != q' * d + r'
  {
    MulAtLeast(q' - q, d);
    assert (q' - q) * d == q' * d - q * d;
  }

  lemma ModUnique(n: nat, d: nat, q: nat, r: nat)
    requires 0 <= r < d && n == q * d + r
    ensures n % d == r
  {
    if q < n / d {
      Apart(q, r, n / d, n % d, d);
    } else if n / d < q {
      Apart(n / d, n % d, q, r, d);
    }
  }

  lemma ChargedUnit(c: Conf, s: State, n: nat)
    requires Usable(c) && c.capacity > 0 && s.count == n % c.capacity
    ensures var (s', overflow) := Charged(c, s, 1);
      s'.count == (n + 1) % c.capacity && (overflow <==> (n + 1) % c.capacity == 0)
  {
    ModNext(n, c.capacity);
  }

  // The bucket counts the window modulo the capacity.
  predicate Counts(c: Conf, s: State, w: Tumbling)
    requires c.capacity > 0
  {
    s.tstamp == w.start && s.count == w.total % c.capacity
  }

  lemma UnitStep(c: Conf, s: State, w: Tumbling, e: Event)
    requires Usable(c) && c.capacity > 0 && Counts(c, s, w) && e.inc == 1
    ensures var (s', overflow) := Accounted(c, s, e.inc, e.t);
      Counts(c, s', Slid(w, e, c.agetime)) && (overflow <==> Slid(w, e, c.agetime).total % c.capacity == 0)
  {
    AgingEmpties(c, s, e.t);
    if e.t - w.start >= c.agetime {
      ModUnique(0, c.capacity, 0, 0);
      ChargedUnit(c, State(0, 0, e.t), 0);
    } else {
      ChargedUnit(c, s, w.total);
    }
  }

  // One error at a time the bucket counts the window modulo its capacity, and overflows
  // at every capacity-th error of the window and at no other.
  lemma {:induction false} UnitBucket(c: Conf, start: int, es: seq<Event>)
    requires Usable(c) && c.capacity > 0 && Units(es)
    ensures Counts(c, After(c, start, es), Window(c, start, es))
    ensures es != [] ==> (Overflows(c, start, es) <==> Window(c, start, es).total % c.capacity == 0)
  {
    if es == [] {
      ModUnique(0, c.capacity, 0, 0);
    } else {
      var before, e := es[..|es| - 1], es[|es| - 1];
      UnitBucket(c, start, before);
      UnitStep(c, After(c, start, before), Window(c, start, before), e);
    }
  }

  // A bucket without a capacity never overflows and never changes.
  lemma {:induction false} NoCapacityNoTrigger(c: Conf, start: int, es: seq<Event>)
    requires Usable(c) && c.capacity == 0
    ensures Triggers(c, start, es) == 0 && After(c, start, es) == State(0, 0, start)
  {
    if es != [] {
      NoCapacityNoTrigger(c, start, es[..|es| - 1]);
    }
  }
}
