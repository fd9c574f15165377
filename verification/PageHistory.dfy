// What page.c does to its book of error pages, event by event, and what that means
// over whole runs.  PageErrors ties the heap to this.
module PageHistory {
  import opened Common
  import opened LeakyBucket

  datatype Online = Online | Offline | OfflineFailed
  datatype Policy = Off | Account | Soft | Hard | SoftThenHard                // enum otype
  datatype Page = Page(count: nat, bucket: State, offlined: Online, triggered: bool)

  // A machine check as account_page_error sees it: the status bits it looks at, the
  // event's time, the clock, and whether the kernel would take the page offline.
  datatype Report = Report(addr: nat, addrValid: bool, uncorrected: bool, time: int, now: int,
                           softOk: bool, hardOk: bool)

  type Book = map<nat, Page>

  datatype Setup = Setup(policy: Policy, conf: Conf)

  predicate Accepted(s: Setup, e: Report) {
    s.policy != Off && e.addrValid && !e.uncorrected
  }

  function PageOf(e: Report): (a: nat)
    ensures a % PAGE_SIZE == 0 && a <= e.addr < a + PAGE_SIZE
  {
    e.addr - e.addr % PAGE_SIZE
  }

  predicate Offlines(s: Setup) {
    s.policy != Off && s.policy != Account
  }

  // memory_offline: soft first, then hard, when so configured.
  function OfflineResult(s: Setup, e: Report): Online
    requires Offlines(s)
  {
    var ok := match s.policy
      case Hard => e.hardOk
      case SoftThenHard => e.softOk || e.hardOk
      case _ => e.softOk;
    if ok then Offline else OfflineFailed
  }

  function Fresh(now: int): Page {
    Page(0, State(0, 0, now), Online, false)
  }

  // One accepted report on its page; the flag says whether offlining was attempted.
  function Charge(s: Setup, p: Page, e: Report): (Page, bool)
    requires Usable(s.conf)
  {
    var (bucket, overflow) := Accounted(s.conf, p.bucket, 1, e.time);
    var p' := p.(count := p.count + 1, bucket := bucket);
    if !overflow || p.offlined != Online then (p', false)
    else if Offlines(s) then (p'.(triggered := true, offlined := OfflineResult(s, e)), true)
    else (p'.(triggered := true), false)
  }

  function Looked(b: Book, a: nat, now: int): Page {
    if a in b then b[a] else Fresh(now)
  }

  function Step(s: Setup, b: Book, e: Report): Book
    requires Usable(s.conf)
  {
    if !Accepted(s, e) then b
    else b[PageOf(e) := Charge(s, Looked(b, PageOf(e), e.now), e).0]
  }

  predicate Attempts(s: Setup, b: Book, e: Report)
    requires Usable(s.conf)
  {
    Accepted(s, e) && Charge(s, Looked(b, PageOf(e), e.now), e).1
  }

  // ---- Runs ----

  function BookAfter(s: Setup, es: seq<Report>): Book
    requires Usable(s.conf)
  {
    if es == [] then map[] else Step(s, BookAfter(s, es[..|es| - 1]), es[|es| - 1])
  }

  // For each report of a run, whether it led to an attempt at offlining.
  function AllAttempts(s: Setup, es: seq<Report>): seq<bool>
    requires Usable(s.conf)
  {
    if es == [] then []
    else
      var before := es[..|es| - 1];
      AllAttempts(s, before) + [Attempts(s, BookAfter(s, before), es[|es| - 1])]
  }

  // The pages of a run in the order in which they were first reported.
  function PagesSeen(s: Setup, es: seq<Report>): seq<nat>
    requires Usable(s.conf)
  {
    if es == [] then [] else Seen(s, BookAfter(s, es[..|es| - 1]), PagesSeen(s, es[..|es| - 1]), es[|es| - 1])
  }

  function Seen(s: Setup, b: Book, pages: seq<nat>, e: Report): seq<nat> {
    if Accepted(s, e) && PageOf(e) !in b then pages + [PageOf(e)] else pages
  }

  predicate Hits(s: Setup, e: Report, a: nat) {
    Accepted(s, e) && PageOf(e) == a
  }

  // The accepted reports for page a, as its bucket sees them.
  function History(s: Setup, es: seq<Report>, a: nat): (h: seq<LeakyBucket.Event>)
    ensures Units(h)
  {
    if es == [] then []
    else
      var before, e := History(s, es[..|es| - 1], a), es[|es| - 1];
      if Hits(s, e, a) then before + [Event(1, e.time)] else before
  }

  // The clock when the page was first reported.
  function FirstSeen(s: Setup, es: seq<Report>, a: nat): int
    requires History(s, es, a) != []
  {
    if History(s, es[..|es| - 1], a) != [] then FirstSeen(s, es[..|es| - 1], a) else es[|es| - 1].now
  }

  function OfflineAttempts(s: Setup, es: seq<Report>, a: nat): nat
    requires Usable(s.conf)
  {
    if es == [] then 0
    else
      var before, e := es[..|es| - 1], es[|es| - 1];
      OfflineAttempts(s, before, a) + if Hits(s, e, a) && Attempts(s, BookAfter(s, before), e) then 1 else 0
  }

  lemma {:induction false} BookKeepsPages(s: Setup, es: seq<Report>, a: nat)
    requires Usable(s.conf)
    ensures a in BookAfter(s, es) <==> History(s, es, a) != []
  {
    if es != [] {
      BookKeepsPages(s, es[..|es| - 1], a);
    }
  }

  // Accepted reports, each of a page above all earlier ones.
  ghost predicate Ascending(s: Setup, es: seq<Report>) {
    && (forall i :: 0 <= i < |es| ==> Accepted(s, es[i]))
    && (forall i, j :: 0 <= i < j < |es| ==> PageOf(es[i]) < PageOf(es[j]))
  }

  lemma {:induction false} BookHoldsReported(s: Setup, es: seq<Report>, a: nat)
    requires Usable(s.conf) && a in BookAfter(s, es)
    ensures exists i :: 0 <= i < |es| && PageOf(es[i]) == a
  {
    var before := es[..|es| - 1];
    if a in BookAfter(s, before) {
      BookHoldsReported(s, before, a);
      var i :| 0 <= i < |before| && PageOf(before[i]) == a;
      assert PageOf(es[i]) == a;
    } else {
      assert PageOf(es[|es| - 1]) == a;
    }
  }

  // Reports of ascending pages are all of new pages.
  lemma {:induction false} AscendingAllSeen(s: Setup, es: seq<Report>)
    requires Usable(s.conf) && Ascending(s, es)
    ensures |PagesSeen(s, es)| == |es|
    ensures forall i :: 0 <= i < |es| ==> PagesSeen(s, es)[i] == PageOf(es[i])
  {
    if es != [] {
      var before, a := es[..|es| - 1], PageOf(es[|es| - 1]);
      AscendingAllSeen(s, before);
      if a in BookAfter(s, before) {
        BookHoldsReported(s, before, a);
      }
    }
  }

  // A page as its own history makes it.
  predicate AsHistory(s: Setup, p: Page, start: int, h: seq<LeakyBucket.Event>)
    requires Usable(s.conf)
  {
    && p.count == |h| && p.bucket == LeakyBucket.After(s.conf, start, h)
    && (p.triggered <==> Triggers(s.conf, start, h) > 0)
    && (p.offlined != Online <==> Offlines(s) && Triggers(s.conf, start, h) > 0)
  }

  lemma ChargeExtends(s: Setup, p: Page, e: Report, start: int, h: seq<LeakyBucket.Event>)
    requires Usable(s.conf) && AsHistory(s, p, start, h)
    ensures AsHistory(s, Charge(s, p, e).0, start, h + [Event(1, e.time)])
    ensures Charge(s, p, e).1 <==>
      Offlines(s) && Overflows(s.conf, start, h + [Event(1, e.time)]) && Triggers(s.conf, start, h) == 0
  {
    var h' := h + [Event(1, e.time)];
    assert h'[..|h'| - 1] == h;
  }

  // The book holds exactly the pages reported, and for each of them the count of its
  // accepted reports, the bucket those reports alone would have filled, and whether
  // that bucket ever overflowed.
  lemma {:induction false} BookIsHistory(s: Setup, es: seq<Report>, a: nat)
    requires Usable(s.conf)
    ensures a in BookAfter(s, es) <==> History(s, es, a) != []
    ensures a in BookAfter(s, es) ==> AsHistory(s, BookAfter(s, es)[a], FirstSeen(s, es, a), History(s, es, a))
  {
    BookKeepsPages(s, es, a);
    if es != [] {
      var before, e := es[..|es| - 1], es[|es| - 1];
      BookIsHistory(s, before, a);
      if Hits(s, e, a) {
        var p := Looked(BookAfter(s, before), a, e.now);
        if a !in BookAfter(s, before) {
          assert AsHistory(s, p, e.now, []);
        }
        ChargeExtends(s, p, e, FirstSeen(s, es, a), History(s, before, a));
      }
    }
  }

  // Offlining is attempted at most once for each page: exactly when its bucket first
  // overflows and the policy says so.
  lemma {:induction false} AttemptedOnce(s: Setup, es: seq<Report>, a: nat)
    requires Usable(s.conf)
    ensures OfflineAttempts(s, es, a) <= 1
    ensures OfflineAttempts(s, es, a) == 1 <==> a in BookAfter(s, es) && BookAfter(s, es)[a].offlined != Online
  {
    if es != [] {
      AttemptedOnce(s, es[..|es| - 1], a);
    }
  }

  lemma FreshIsHistory(s: Setup, now: int)
    requires Usable(s.conf)
    ensures AsHistory(s, Fresh(now), now, [])
  {
  }

  lemma OverflowNeedsCapacity(c: Conf, start: int, h: seq<LeakyBucket.Event>)
    requires Usable(c) && Overflows(c, start, h)
    ensures c.capacity > 0
  {
  }

  // An attempt is made only on the report that makes the page's bucket overflow.
  lemma AttemptMeansOverflow(s: Setup, es: seq<Report>, a: nat)
    requires Usable(s.conf) && es != [] && Hits(s, es[|es| - 1], a)
    requires Attempts(s, BookAfter(s, es[..|es| - 1]), es[|es| - 1])
    ensures Offlines(s) && s.conf.capacity > 0 && History(s, es, a) != []
    ensures Overflows(s.conf, FirstSeen(s, es, a), History(s, es, a))
  {
    hide Charge, AsHistory, Overflows, Triggers, Fresh;
    var before, e := es[..|es| - 1], es[|es| - 1];
    BookIsHistory(s, before, a);
    FreshIsHistory(s, e.now);
    ChargeExtends(s, Looked(BookAfter(s, before), a, e.now), e, FirstSeen(s, es, a), History(s, before, a));
    OverflowNeedsCapacity(s.conf, FirstSeen(s, es, a), History(s, es, a));
  }

  // So it is made only on a capacity-th report of the page's current window.
  lemma AttemptMeansFullWindow(s: Setup, es: seq<Report>, a: nat)
    requires Usable(s.conf) && es != [] && Hits(s, es[|es| - 1], a)
    requires Attempts(s, BookAfter(s, es[..|es| - 1]), es[|es| - 1])
    ensures s.conf.capacity > 0 && History(s, es, a) != []
    ensures Window(s.conf, FirstSeen(s, es, a), History(s, es, a)).total % s.conf.capacity == 0
  {
    hide Attempts, FirstSeen, Overflows, LeakyBucket.Window;
    AttemptMeansOverflow(s, es, a);
    UnitBucket(s.conf, FirstSeen(s, es, a), History(s, es, a));
  }

  // A page that has left the online state keeps its state for ever.
  lemma {:induction false} NeverBackOnline(s: Setup, es: seq<Report>, i: nat, a: nat)
    requires Usable(s.conf) && i <= |es|
    requires a in BookAfter(s, es[..i]) && BookAfter(s, es[..i])[a].offlined != Online
    ensures a in BookAfter(s, es) && BookAfter(s, es)[a].offlined == BookAfter(s, es[..i])[a].offlined
    decreases |es|
  {
    if i == |es| {
      assert es[..i] == es;
    } else {
      var before := es[..|es| - 1];
      assert before[..i] == es[..i];
      NeverBackOnline(s, before, i, a);
    }
  }

  // ---- Which reports count ----

  // A report leaves the book as it is exactly when page accounting is off, the address
  // is not valid or the error was not corrected.
  lemma IgnoredExactly(s: Setup, es: seq<Report>, e: Report)
    requires Usable(s.conf)
    ensures BookAfter(s, es + [e]) == BookAfter(s, es) <==> s.policy == Off || !e.addrValid || e.uncorrected
  {
    var before := BookAfter(s, es);
    assert (es + [e])[..|es|] == es;
    if Accepted(s, e) {
      assert BookAfter(s, es + [e])[PageOf(e)].count == Looked(before, PageOf(e), e.now).count + 1;
    }
  }

  // ---- What became of a page ----

  // Report i makes the bucket of page a overflow.
  predicate OverflowsAt(s: Setup, es: seq<Report>, a: nat, i: nat)
    requires Usable(s.conf) && i < |es|
  {
    Hits(s, es[i], a) && Overflows(s.conf, FirstSeen(s, es[..i + 1], a), History(s, es[..i + 1], a))
  }

  ghost predicate FirstOverflowAt(s: Setup, es: seq<Report>, a: nat, i: nat)
    requires Usable(s.conf) && i < |es|
  {
    OverflowsAt(s, es, a, i) && forall j :: 0 <= j < i ==> !OverflowsAt(s, es, a, j)
  }

  // The kernel takes the page at one of the calls that the policy makes.
  predicate Taken(p: Policy, e: Report) {
    match p
    case Off | Account => false
    case Soft => e.softOk
    case Hard => e.hardOk
    case SoftThenHard => e.softOk || e.hardOk
  }

  // What a page's state is, from the report at its first overflow.
  function StateFrom(p: Policy, e: Report): Online {
    match p
    case Off | Account => Online
    case Soft | Hard | SoftThenHard => if Taken(p, e) then Offline else OfflineFailed
  }

  lemma ChargeState(s: Setup, p: Page, e: Report)
    requires Usable(s.conf)
    ensures var overflow := Accounted(s.conf, p.bucket, 1, e.time).1;
      Charge(s, p, e).0.offlined == if overflow && p.offlined == Online then StateFrom(s.policy, e) else p.offlined
  {
    hide Accounted;
  }

  // The last report overflows the bucket as the book has it.
  lemma OverflowInBook(s: Setup, es: seq<Report>, a: nat)
    requires Usable(s.conf) && es != [] && Hits(s, es[|es| - 1], a)
    ensures var before, e := es[..|es| - 1], es[|es| - 1];
      OverflowsAt(s, es, a, |es| - 1) <==>
      Accounted(s.conf, Looked(BookAfter(s, before), a, e.now).bucket, 1, e.time).1
  {
    hide Accounted, Charge;
    var before, e := es[..|es| - 1], es[|es| - 1];
    assert es[..|es|] == es;
    BookIsHistory(s, before, a);
    AfterNext(s.conf, FirstSeen(s, es, a), History(s, before, a), Event(1, e.time));
  }

  lemma OverflowsEarlier(s: Setup, es: seq<Report>, a: nat, i: nat)
    requires Usable(s.conf) && i < |es| - 1
    ensures OverflowsAt(s, es, a, i) == OverflowsAt(s, es[..|es| - 1], a, i)
    ensures FirstOverflowAt(s, es, a, i) == FirstOverflowAt(s, es[..|es| - 1], a, i)
  {
    hide Overflows, Hits;
    var before := es[..|es| - 1];
    forall j | 0 <= j <= i
      ensures OverflowsAt(s, es, a, j) == OverflowsAt(s, before, a, j)
    {
      assert es[..j + 1] == before[..j + 1];
    }
  }

  // Once a page has overflowed there is a first time.
  lemma {:induction false} FirstTime(s: Setup, es: seq<Report>, a: nat, i: nat) returns (k: nat)
    requires Usable(s.conf) && i < |es| && OverflowsAt(s, es, a, i)
    ensures k <= i && FirstOverflowAt(s, es, a, k)
  {
    if j :| 0 <= j < i && OverflowsAt(s, es, a, j) {
      k := FirstTime(s, es, a, j);
    } else {
      k := i;
    }
  }

  ghost predicate NeverOverflows(s: Setup, es: seq<Report>, a: nat)
    requires Usable(s.conf)
  {
    forall i :: 0 <= i < |es| ==> !OverflowsAt(s, es, a, i)
  }

  // Its state is decided at its first overflow, and before that it is online.
  lemma {:induction false} StateIsFirst(s: Setup, es: seq<Report>, a: nat)
    requires Usable(s.conf)
    ensures a in BookAfter(s, es) && NeverOverflows(s, es, a) ==> BookAfter(s, es)[a].offlined == Online
    ensures forall i :: 0 <= i < |es| && FirstOverflowAt(s, es, a, i) ==>
      a in BookAfter(s, es) && BookAfter(s, es)[a].offlined == StateFrom(s.policy, es[i])
  {
    hide Overflows, Charge, Hits, Taken, OverflowsAt;
    if es != [] {
      var n := |es| - 1;
      var before, e := es[..n], es[n];
      StateIsFirst(s, before, a);
      forall i | 0 <= i < n
        ensures OverflowsAt(s, es, a, i) == OverflowsAt(s, before, a, i)
        ensures FirstOverflowAt(s, es, a, i) == FirstOverflowAt(s, before, a, i)
      {
        OverflowsEarlier(s, es, a, i);
      }
      StateStep(s, es, a);
    }
  }

  // One more report.
  lemma StateStep(s: Setup, es: seq<Report>, a: nat)
    requires Usable(s.conf) && es != []
    ensures var b, b', e := BookAfter(s, es[..|es| - 1]), BookAfter(s, es), es[|es| - 1];
      var p := Looked(b, a, e.now).offlined;
      && (OverflowsAt(s, es, a, |es| - 1) ==>
        a in b' && b'[a].offlined == if p == Online then StateFrom(s.policy, e) else p)
      && (!OverflowsAt(s, es, a, |es| - 1) && a in b' ==> b'[a].offlined == p)
      && (a in b ==> a in b')
  {
    hide Overflows, Charge, StateFrom;
    var before, e := es[..|es| - 1], es[|es| - 1];
    if Hits(s, e, a) {
      OverflowInBook(s, es, a);
      ChargeState(s, Looked(BookAfter(s, before), a, e.now), e);
    }
  }

  // Over every run, page a is offline exactly when the kernel took it at its first
  // overflow ...
  lemma OfflineExactly(s: Setup, es: seq<Report>, a: nat)
    requires Usable(s.conf) && a in BookAfter(s, es)
    ensures BookAfter(s, es)[a].offlined == Offline <==>
      exists i :: 0 <= i < |es| && FirstOverflowAt(s, es, a, i) && Taken(s.policy, es[i])
  {
    hide OverflowsAt;
    StateIsFirst(s, es, a);
    if BookAfter(s, es)[a].offlined != Online {
      var i := Overflowed(s, es, a);
    }
  }

  // ... and failed to be exactly when offlining was asked for then and not taken.
  lemma FailedExactly(s: Setup, es: seq<Report>, a: nat)
    requires Usable(s.conf) && a in BookAfter(s, es)
    ensures BookAfter(s, es)[a].offlined == OfflineFailed <==>
      exists i :: 0 <= i < |es| && FirstOverflowAt(s, es, a, i) && !Taken(s.policy, es[i]) &&
                  (s.policy == Soft || s.policy == Hard || s.policy == SoftThenHard)
  {
    hide OverflowsAt;
    StateIsFirst(s, es, a);
    if BookAfter(s, es)[a].offlined != Online {
      var i := Overflowed(s, es, a);
    }
  }

  lemma Overflowed(s: Setup, es: seq<Report>, a: nat) returns (i: nat)
    requires Usable(s.conf) && a in BookAfter(s, es) && BookAfter(s, es)[a].offlined != Online
    ensures i < |es| && FirstOverflowAt(s, es, a, i)
  {
    hide OverflowsAt;
    StateIsFirst(s, es, a);
    i :| 0 <= i < |es| && OverflowsAt(s, es, a, i);
    i := FirstTime(s, es, a, i);
  }

  // Offlining is attempted exactly at a page's first overflow, under a policy that asks
  // for it.
  lemma AttemptedExactly(s: Setup, es: seq<Report>, a: nat)
    requires Usable(s.conf) && es != [] && Hits(s, es[|es| - 1], a)
    ensures Attempts(s, BookAfter(s, es[..|es| - 1]), es[|es| - 1]) <==>
      FirstOverflowAt(s, es, a, |es| - 1) && (s.policy == Soft || s.policy == Hard || s.policy == SoftThenHard)
  {
    hide OverflowsAt, Accounted;
    var before := es[..|es| - 1];
    OverflowInBook(s, es, a);
    StateIsFirst(s, before, a);
    forall i | 0 <= i < |before|
      ensures OverflowsAt(s, es, a, i) == OverflowsAt(s, before, a, i)
    {
      OverflowsEarlier(s, es, a, i);
    }
    if i :| 0 <= i < |before| && OverflowsAt(s, before, a, i) {
      var k := FirstTime(s, before, a, i);
      assert OverflowsAt(s, es, a, k);
    }
  }
}
