// The error accounting of memdb.c as a list of records, one for each DIMM or socket.
// MemDb ties the hash table to it.
module MemLedger {
  import opened Common
  import opened LeakyBucket

  const UNKNOWN: int := -1

  datatype Key = Key(socket: int, channel: int, dimm: int)
  datatype ErrType = ErrType(count: nat, bucket: State)
  datatype Record = Record(key: Key, ce: ErrType, uc: ErrType)
  datatype Triggers = Triggers(ce: Conf, uc: Conf)                  // struct err_triggers

  datatype Setup = Setup(memdb: bool, sockdb: bool, dimms: Triggers, sockets: Triggers)

  // A memory error, or a bare lookup such as prefill_memdb's.
  datatype Action =
    | Touch(at: Key, now: int)
    | MemoryError(at: Key, uncorrected: bool, corrErrCnt: nat, time: int, now: int, hasSocket: bool)

  predicate Ready(t: Triggers) {
    Usable(t.ce) && Usable(t.uc)
  }

  predicate SetUp(s: Setup) {
    Ready(s.dimms) && Ready(s.sockets)
  }

  function SocketKey(s: int): Key {
    Key(s, UNKNOWN, UNKNOWN)
  }

  predicate Located(k: Key) {
    k.channel != UNKNOWN || k.dimm != UNKNOWN
  }

  function Fresh(k: Key, now: int): Record {
    Record(k, ErrType(0, State(0, 0, now)), ErrType(0, State(0, 0, now)))
  }

  // ---- Finding and creating a record ----

  function IndexOf(l: seq<Record>, k: Key): (i: nat)
    ensures i <= |l| && (i < |l| ==> l[i].key == k)
    ensures forall j :: 0 <= j < i ==> l[j].key != k
  {
    if l == [] then 0 else if l[0].key == k then 0 else 1 + IndexOf(l[1..], k)
  }

  function Got(l: seq<Record>, k: Key, now: int): (l': seq<Record>)
    ensures IndexOf(l, k) < |l'| && l'[IndexOf(l, k)].key == k
  {
    if IndexOf(l, k) < |l| then l else l + [Fresh(k, now)]
  }

  // ---- Charging a record ----

  function Bump(c: Conf, e: ErrType, n: nat, t: int): ErrType
    requires Usable(c)
  {
    ErrType(e.count + n, Accounted(c, e.bucket, n, t).0)
  }

  // account_over: errors the hardware counted but did not report.
  function Over(t: Triggers, r: Record, corrErrCnt: nat, time: int): Record
    requires Ready(t)
  {
    if corrErrCnt > 1 then r.(ce := Bump(t.ce, r.ce, corrErrCnt - 1, time)) else r
  }

  // account_memdb.
  function Charge(t: Triggers, r: Record, uncorrected: bool, time: int): Record
    requires Ready(t)
  {
    if uncorrected then r.(uc := Bump(t.uc, r.uc, 1, time)) else r.(ce := Bump(t.ce, r.ce, 1, time))
  }

  // Whether an increment makes the bucket overflow, which runs the trigger.
  predicate Trips(c: Conf, e: ErrType, n: nat, t: int)
    requires Usable(c)
  {
    Accounted(c, e.bucket, n, t).1
  }

  predicate OverTrips(t: Triggers, r: Record, corrErrCnt: nat, time: int)
    requires Ready(t)
  {
    corrErrCnt > 1 && Trips(t.ce, r.ce, corrErrCnt - 1, time)
  }

  predicate ChargeTrips(t: Triggers, r: Record, uncorrected: bool, time: int)
    requires Ready(t)
  {
    if uncorrected then Trips(t.uc, r.uc, 1, time) else Trips(t.ce, r.ce, 1, time)
  }

  // The triggers that one memory error runs.
  datatype Fired = Fired(dimm: bool, lost: bool, socket: bool)

  // ---- memory_error ----

  function DimmStep(s: Setup, l: seq<Record>, a: Action): seq<Record>
    requires SetUp(s) && a.MemoryError?
  {
    if s.memdb && Located(a.at) then
      var g, i := Got(l, a.at, a.now), IndexOf(l, a.at);
      g[i := Charge(s.dimms, g[i], a.uncorrected, a.time)]
    else l
  }

  function SocketStep(s: Setup, l: seq<Record>, a: Action): seq<Record>
    requires SetUp(s) && a.MemoryError?
  {
    if s.sockdb then
      var k := SocketKey(a.at.socket);
      var g, i := Got(l, k, a.now), IndexOf(l, k);
      g[i := Charge(s.sockets, Over(s.sockets, g[i], a.corrErrCnt, a.time), a.uncorrected, a.time)]
    else l
  }

  function Step(s: Setup, l: seq<Record>, a: Action): seq<Record>
    requires SetUp(s)
  {
    match a
    case Touch(k, now) => Got(l, k, now)
    case MemoryError(_, _, _, _, _, hasSocket) =>
      if hasSocket then SocketStep(s, DimmStep(s, l, a), a) else l
  }

  predicate DimmFires(s: Setup, l: seq<Record>, a: Action)
    requires SetUp(s) && a.MemoryError?
  {
    && s.memdb && Located(a.at)
    && ChargeTrips(s.dimms, Got(l, a.at, a.now)[IndexOf(l, a.at)], a.uncorrected, a.time)
  }

  // Of the two triggers of a socket, the one for the lost errors comes first.
  function SocketFires(s: Setup, l: seq<Record>, a: Action): (bool, bool)
    requires SetUp(s) && a.MemoryError?
  {
    var k := SocketKey(a.at.socket);
    var r := Got(l, k, a.now)[IndexOf(l, k)];
    (s.sockdb && OverTrips(s.sockets, r, a.corrErrCnt, a.time),
     s.sockdb && ChargeTrips(s.sockets, Over(s.sockets, r, a.corrErrCnt, a.time), a.uncorrected, a.time))
  }

  function Fires(s: Setup, l: seq<Record>, a: Action): Fired
    requires SetUp(s)
  {
    if a.Touch? || !a.hasSocket then Fired(false, false, false)
    else
      var (lost, socket) := SocketFires(s, DimmStep(s, l, a), a);
      Fired(DimmFires(s, l, a), lost, socket)
  }

  // The triggers of a run, action by action.
  function AllFired(s: Setup, acts: seq<Action>): seq<Fired>
    requires SetUp(s)
  {
    if acts == [] then []
    else AllFired(s, acts[..|acts| - 1]) + [Fires(s, Run(s, acts[..|acts| - 1]), acts[|acts| - 1])]
  }

  function Run(s: Setup, acts: seq<Action>): seq<Record>
    requires SetUp(s)
  {
    if acts == [] then [] else Step(s, Run(s, acts[..|acts| - 1]), acts[|acts| - 1])
  }

  // ---- One record for each key ----

  ghost predicate Unique(l: seq<Record>) {
    forall i, j :: 0 <= i < j < |l| ==> l[i].key != l[j].key
  }

  lemma GotSetUnique(l: seq<Record>, k: Key, now: int, r: Record)
    requires Unique(l) && r.key == k
    ensures Unique(Got(l, k, now)) && Unique(Got(l, k, now)[IndexOf(l, k) := r])
  {
  }

  lemma StepUnique(s: Setup, l: seq<Record>, a: Action)
    requires SetUp(s) && Unique(l)
    ensures Unique(Step(s, l, a))
  {
    GotSetUnique(l, a.at, a.now, Fresh(a.at, a.now));
    if a.MemoryError? {
      var r := Charge(s.dimms, Got(l, a.at, a.now)[IndexOf(l, a.at)], a.uncorrected, a.time);
      GotSetUnique(l, a.at, a.now, r);
      SocketStepUnique(s, DimmStep(s, l, a), a);
    }
  }

  lemma SocketStepUnique(s: Setup, l: seq<Record>, a: Action)
    requires SetUp(s) && Unique(l) && a.MemoryError?
    ensures Unique(SocketStep(s, l, a))
  {
    var k := SocketKey(a.at.socket);
    var found := Got(l, k, a.now)[IndexOf(l, k)];
    GotSetUnique(l, k, a.now, Charge(s.sockets, Over(s.sockets, found, a.corrErrCnt, a.time), a.uncorrected, a.time));
  }

  lemma {:induction false} RunUnique(s: Setup, acts: seq<Action>)
    requires SetUp(s)
    ensures Unique(Run(s, acts))
  {
    if acts != [] {
      RunUnique(s, acts[..|acts| - 1]);
      StepUnique(s, Run(s, acts[..|acts| - 1]), acts[|acts| - 1]);
    }
  }

  // ---- Socket totals against located totals ----

  // The corrected or the uncorrected errors a record counts.
  function CountOf(r: Record, uc: bool): nat {
    if uc then r.uc.count else r.ce.count
  }

  // What one record adds to the located, or to the socket, total of a socket.
  function Share(r: Record, socket: int, located: bool, uc: bool): nat {
    if r.key.socket == socket && (Located(r.key) <==> located) then CountOf(r, uc) else 0
  }

  function Total(l: seq<Record>, socket: int, located: bool, uc: bool): nat {
    if l == [] then 0
    else Total(l[..|l| - 1], socket, located, uc) + Share(l[|l| - 1], socket, located, uc)
  }

  function Lost(a: Action): nat
    requires a.MemoryError?
  {
    if a.corrErrCnt > 1 then a.corrErrCnt - 1 else 0
  }

  // The errors of a socket that no located record can hold: those without a place, and
  // those the hardware lost, which count as corrected.
  function Unplaced(a: Action, socket: int, uc: bool): nat {
    if a.Touch? || !a.hasSocket || a.at.socket != socket then 0
    else (if !Located(a.at) && a.uncorrected == uc then 1 else 0) + (if uc then 0 else Lost(a))
  }

  function AllUnplaced(acts: seq<Action>, socket: int, uc: bool): nat {
    if acts == [] then 0
    else AllUnplaced(acts[..|acts| - 1], socket, uc) + Unplaced(acts[|acts| - 1], socket, uc)
  }

  lemma {:induction false} TotalUpdate(l: seq<Record>, i: nat, r: Record, socket: int, located: bool, uc: bool)
    requires i < |l|
    ensures Total(l[i := r], socket, located, uc) + Share(l[i], socket, located, uc)
         == Total(l, socket, located, uc) + Share(r, socket, located, uc)
  {
    var n, l' := |l| - 1, l[i := r];
    if i == n {
      assert l'[..n] == l[..n];
    } else {
      assert l'[..n] == l[..n][i := r];
      TotalUpdate(l[..n], i, r, socket, located, uc);
    }
  }

  lemma TotalGot(l: seq<Record>, k: Key, now: int, socket: int, located: bool, uc: bool)
    ensures Total(Got(l, k, now), socket, located, uc) == Total(l, socket, located, uc)
  {
    if IndexOf(l, k) == |l| {
      assert (l + [Fresh(k, now)])[..|l|] == l;
    }
  }

  // Setting the record just found changes one total by the difference.
  lemma TotalSet(l: seq<Record>, k: Key, now: int, r: Record, d: int, socket: int, located: bool, uc: bool)
    requires r.key == k && CountOf(r, uc) == CountOf(Got(l, k, now)[IndexOf(l, k)], uc) + d
    ensures Total(Got(l, k, now)[IndexOf(l, k) := r], socket, located, uc) ==
            Total(l, socket, located, uc) + if k.socket == socket && (Located(k) <==> located) then d else 0
  {
    TotalGot(l, k, now, socket, located, uc);
    TotalUpdate(Got(l, k, now), IndexOf(l, k), r, socket, located, uc);
  }

  // A located error adds one to its socket's located total and nothing else.
  lemma DimmStepTotal(s: Setup, l: seq<Record>, a: Action, socket: int, located: bool, uc: bool)
    requires SetUp(s) && s.memdb && a.MemoryError?
    ensures Total(DimmStep(s, l, a), socket, located, uc) == Total(l, socket, located, uc) +
      if located && Located(a.at) && a.at.socket == socket && a.uncorrected == uc then 1 else 0
  {
    if Located(a.at) {
      var r := Charge(s.dimms, Got(l, a.at, a.now)[IndexOf(l, a.at)], a.uncorrected, a.time);
      TotalSet(l, a.at, a.now, r, if a.uncorrected == uc then 1 else 0, socket, located, uc);
    }
  }

  // An error adds one, and the lost ones, to its socket's own total and nothing else.
  lemma SocketStepTotal(s: Setup, l: seq<Record>, a: Action, socket: int, located: bool, uc: bool)
    requires SetUp(s) && s.sockdb && a.MemoryError?
    ensures Total(SocketStep(s, l, a), socket, located, uc) == Total(l, socket, located, uc) +
      if !located && a.at.socket == socket
      then (if a.uncorrected == uc then 1 else 0) + (if uc then 0 else Lost(a))
      else 0
  {
    var k := SocketKey(a.at.socket);
    var found := Got(l, k, a.now)[IndexOf(l, k)];
    var r := Charge(s.sockets, Over(s.sockets, found, a.corrErrCnt, a.time), a.uncorrected, a.time);
    TotalSet(l, k, a.now, r, (if a.uncorrected == uc then 1 else 0) + (if uc then 0 else Lost(a)), socket, located, uc);
  }

  // With both trackers on, a socket's record counts what its located records count,
  // and on top exactly the unlocated and the lost errors.
  lemma {:induction false} SocketBalance(s: Setup, acts: seq<Action>, socket: int, uc: bool)
    requires SetUp(s) && s.memdb && s.sockdb
    ensures Total(Run(s, acts), socket, false, uc) ==
            Total(Run(s, acts), socket, true, uc) + AllUnplaced(acts, socket, uc)
  {
    if acts != [] {
      var before, a := acts[..|acts| - 1], acts[|acts| - 1];
      SocketBalance(s, before, socket, uc);
      StepBalance(s, Run(s, before), a, socket, uc);
    }
  }

  lemma StepBalance(s: Setup, l: seq<Record>, a: Action, socket: int, uc: bool)
    requires SetUp(s) && s.memdb && s.sockdb
    ensures Total(Step(s, l, a), socket, false, uc) - Total(l, socket, false, uc) ==
            Total(Step(s, l, a), socket, true, uc) - Total(l, socket, true, uc) + Unplaced(a, socket, uc)
  {
    if a.Touch? {
      TotalGot(l, a.at, a.now, socket, false, uc);
      TotalGot(l, a.at, a.now, socket, true, uc);
    } else if a.hasSocket {
      DimmStepTotal(s, l, a, socket, false, uc);
      DimmStepTotal(s, l, a, socket, true, uc);
      SocketStepTotal(s, DimmStep(s, l, a), a, socket, false, uc);
      SocketStepTotal(s, DimmStep(s, l, a), a, socket, true, uc);
    }
  }

  // The socket total is that of the one socket record.
  lemma {:induction false} NoSocketRecord(l: seq<Record>, socket: int, uc: bool)
    requires forall i :: 0 <= i < |l| ==> l[i].key != SocketKey(socket)
    ensures Total(l, socket, false, uc) == 0
  {
    if l != [] {
      NoSocketRecord(l[..|l| - 1], socket, uc);
    }
  }

  lemma {:induction false} SocketTotalIsOneRecord(l: seq<Record>, socket: int, i: nat, uc: bool)
    requires Unique(l) && i < |l| && l[i].key == SocketKey(socket)
    ensures Total(l, socket, false, uc) == CountOf(l[i], uc)
  {
    var n := |l| - 1;
    if i == n {
      NoSocketRecord(l[..n], socket, uc);
    } else {
      SocketTotalIsOneRecord(l[..n], socket, i, uc);
      assert l[n].key != SocketKey(socket);
    }
  }

  lemma SocketRecordBalance(s: Setup, acts: seq<Action>, socket: int, i: nat, uc: bool)
    requires SetUp(s) && s.memdb && s.sockdb
    requires i < |Run(s, acts)| && Run(s, acts)[i].key == SocketKey(socket)
    ensures CountOf(Run(s, acts)[i], uc) == Total(Run(s, acts), socket, true, uc) + AllUnplaced(acts, socket, uc)
  {
    RunUnique(s, acts);
    SocketBalance(s, acts, socket, uc);
    SocketTotalIsOneRecord(Run(s, acts), socket, i, uc);
  }

  // ---- Each record ----

  // The errors reported at key k.
  function ReportedAt(acts: seq<Action>, k: Key, uc: bool): nat {
    if acts == [] then 0
    else
      var a := acts[|acts| - 1];
      ReportedAt(acts[..|acts| - 1], k, uc) +
      if a.MemoryError? && a.hasSocket && a.at == k && a.uncorrected == uc then 1 else 0
  }

  // The record of a whole socket.
  predicate Whole(k: Key) {
    k.channel == UNKNOWN && k.dimm == UNKNOWN
  }

  // The action looks the record of k up, and makes it if there is none.
  predicate Finds(s: Setup, a: Action, k: Key) {
    match a
    case Touch(at, _) => at == k
    case MemoryError(at, _, _, _, _, hasSocket) =>
      hasSocket && if Whole(k) then s.sockdb && at.socket == k.socket else s.memdb && at == k
  }

  // The clock when the record of k was made.
  function MadeAt(s: Setup, acts: seq<Action>, k: Key): Option<int> {
    if acts == [] then None
    else
      var before, a := MadeAt(s, acts[..|acts| - 1], k), acts[|acts| - 1];
      if before.Some? then before else if Finds(s, a, k) then Some(a.now) else None
  }

  // What the action charges to one kind of errors of k: the error itself, and before it,
  // to the corrected errors of a socket, those the hardware lost.
  function Charges(s: Setup, a: Action, k: Key, uc: bool): seq<Event> {
    if a.Touch? || !Finds(s, a, k) then []
    else
      (if Whole(k) && !uc && a.corrErrCnt > 1 then [Event(a.corrErrCnt - 1, a.time)] else []) +
      (if a.uncorrected == uc then [Event(1, a.time)] else [])
  }

  function History(s: Setup, acts: seq<Action>, k: Key, uc: bool): seq<Event> {
    if acts == [] then []
    else History(s, acts[..|acts| - 1], k, uc) + Charges(s, acts[|acts| - 1], k, uc)
  }

  // A DIMM is held to the thresholds of DIMMs, a socket to those of sockets.
  function ConfOf(s: Setup, k: Key, uc: bool): (c: Conf)
    requires SetUp(s)
    ensures Usable(c)
  {
    var t := if Whole(k) then s.sockets else s.dimms;
    if uc then t.uc else t.ce
  }

  // A counter and its bucket as the events charged to them make them.
  function Made(c: Conf, start: int, h: seq<Event>): ErrType
    requires Usable(c)
  {
    ErrType(LeakyBucket.Total(h), After(c, start, h))
  }

  function RecordOf(s: Setup, acts: seq<Action>, k: Key, start: int): Record
    requires SetUp(s)
  {
    Record(k, Made(ConfOf(s, k, false), start, History(s, acts, k, false)),
      Made(ConfOf(s, k, true), start, History(s, acts, k, true)))
  }

  function Looked(l: seq<Record>, k: Key): Option<Record> {
    if IndexOf(l, k) < |l| then Some(l[IndexOf(l, k)]) else None
  }

  function OrFresh(r: Option<Record>, k: Key, now: int): Record {
    if r.Some? then r.value else Fresh(k, now)
  }

  lemma IndexUnique(l: seq<Record>, i: nat, k: Key)
    requires Unique(l) && i < |l| && l[i].key == k
    ensures IndexOf(l, k) == i
  {
  }

  lemma LookedGot(l: seq<Record>, at: Key, now: int, k: Key)
    requires Unique(l)
    ensures Unique(Got(l, at, now)) && IndexOf(Got(l, at, now), at) == IndexOf(l, at)
    ensures Looked(Got(l, at, now), k) == if k == at then Some(OrFresh(Looked(l, k), k, now)) else Looked(l, k)
  {
    var g := Got(l, at, now);
    GotSetUnique(l, at, now, Fresh(at, now));
    IndexUnique(g, IndexOf(l, at), at);
    if IndexOf(l, k) < |l| {
      IndexUnique(g, IndexOf(l, k), k);
    }
  }

  lemma LookedSet(l: seq<Record>, i: nat, r: Record, k: Key)
    requires Unique(l) && i < |l| && r.key == l[i].key
    ensures Unique(l[i := r]) && Looked(l[i := r], k) == if k == r.key then Some(r) else Looked(l, k)
  {
    var l' := l[i := r];
    if k == r.key {
      IndexUnique(l', i, k);
    } else if IndexOf(l, k) < |l| {
      IndexUnique(l', IndexOf(l, k), k);
    }
  }

  // Looking a record up, or making it, and putting r in its place.
  lemma LookedAfter(l: seq<Record>, at: Key, now: int, r: Record, k: Key)
    requires Unique(l) && r.key == at
    ensures Got(l, at, now)[IndexOf(l, at)] == OrFresh(Looked(l, at), at, now)
    ensures Unique(Got(l, at, now)[IndexOf(l, at) := r])
    ensures Looked(Got(l, at, now)[IndexOf(l, at) := r], k) == if k == at then Some(r) else Looked(l, k)
  {
    LookedGot(l, at, now, k);
    LookedGot(l, at, now, at);
    LookedSet(Got(l, at, now), IndexOf(l, at), r, k);
  }

  // The record of k after a memory error, from the one before it.
  lemma DimmStepLooked(s: Setup, l: seq<Record>, a: Action, k: Key)
    requires SetUp(s) && a.MemoryError? && Unique(l)
    ensures Unique(DimmStep(s, l, a))
    ensures Looked(DimmStep(s, l, a), k) ==
      if s.memdb && !Whole(k) && a.at == k
      then Some(Charge(s.dimms, OrFresh(Looked(l, k), k, a.now), a.uncorrected, a.time))
      else Looked(l, k)
  {
    hide Charge, Looked;
    if s.memdb && Located(a.at) {
      LookedAfter(l, a.at, a.now, Fresh(a.at, a.now), k);
      ChargeKeeps(s.dimms, Got(l, a.at, a.now)[IndexOf(l, a.at)], a);
      var r := Charge(s.dimms, Got(l, a.at, a.now)[IndexOf(l, a.at)], a.uncorrected, a.time);
      LookedAfter(l, a.at, a.now, r, k);
    }
  }

  lemma ChargeKeeps(t: Triggers, r: Record, a: Action)
    requires Ready(t) && a.MemoryError?
    ensures Charge(t, r, a.uncorrected, a.time).key == r.key
    ensures Charge(t, Over(t, r, a.corrErrCnt, a.time), a.uncorrected, a.time).key == r.key
  {
  }

  lemma SocketStepLooked(s: Setup, l: seq<Record>, a: Action, k: Key)
    requires SetUp(s) && a.MemoryError? && Unique(l)
    ensures Unique(SocketStep(s, l, a))
    ensures Looked(SocketStep(s, l, a), k) ==
      if s.sockdb && Whole(k) && a.at.socket == k.socket
      then Some(Charge(s.sockets, Over(s.sockets, OrFresh(Looked(l, k), k, a.now), a.corrErrCnt, a.time),
        a.uncorrected, a.time))
      else Looked(l, k)
  {
    hide Charge, Over, Looked;
    var at := SocketKey(a.at.socket);
    if s.sockdb {
      LookedAfter(l, at, a.now, Fresh(at, a.now), k);
      var g := Got(l, at, a.now)[IndexOf(l, at)];
      ChargeKeeps(s.sockets, g, a);
      LookedAfter(l, at, a.now, Charge(s.sockets, Over(s.sockets, g, a.corrErrCnt, a.time), a.uncorrected, a.time), k);
    }
  }

  // One more event.
  lemma MadeNext(c: Conf, start: int, h: seq<Event>, e: Event)
    requires Usable(c)
    ensures Made(c, start, h + [e]) == Bump(c, Made(c, start, h), e.inc, e.t)
  {
    hide Accounted;
    AfterNext(c, start, h, e);
    assert (h + [e])[..|h|] == h;
  }

  // What one action does to a record, by what it charges.
  function Charged(c: Conf, e: ErrType, es: seq<Event>): ErrType
    requires Usable(c)
  {
    if es == [] then e else Bump(c, Charged(c, e, es[..|es| - 1]), es[|es| - 1].inc, es[|es| - 1].t)
  }

  lemma {:induction false} MadeByAll(c: Conf, start: int, h: seq<Event>, es: seq<Event>)
    requires Usable(c)
    ensures Made(c, start, h + es) == Charged(c, Made(c, start, h), es)
  {
    hide Bump, Made;
    if es == [] {
      assert h + es == h;
    } else {
      var e := es[|es| - 1];
      assert h + es == (h + es[..|es| - 1]) + [e];
      MadeByAll(c, start, h, es[..|es| - 1]);
      MadeNext(c, start, h + es[..|es| - 1], e);
    }
  }

  // The step of a record, in terms of the events charged.
  lemma ChargesDo(s: Setup, a: Action, k: Key, r: Record)
    requires SetUp(s) && a.MemoryError? && Finds(s, a, k)
    ensures var ce, uc := Charges(s, a, k, false), Charges(s, a, k, true);
      Record(r.key, Charged(ConfOf(s, k, false), r.ce, ce), Charged(ConfOf(s, k, true), r.uc, uc)) ==
      if Whole(k)
      then Charge(s.sockets, Over(s.sockets, r, a.corrErrCnt, a.time), a.uncorrected, a.time)
      else Charge(s.dimms, r, a.uncorrected, a.time)
  {
    hide Bump;
    NoneCharged(ConfOf(s, k, false), r.ce);
    NoneCharged(ConfOf(s, k, true), r.uc);
    OneCharged(ConfOf(s, k, false), r.ce, Event(1, a.time));
    OneCharged(ConfOf(s, k, true), r.uc, Event(1, a.time));
    if a.corrErrCnt > 1 {
      OneCharged(ConfOf(s, k, false), r.ce, Event(a.corrErrCnt - 1, a.time));
      TwoCharged(ConfOf(s, k, false), r.ce, Event(a.corrErrCnt - 1, a.time), Event(1, a.time));
    }
  }

  lemma NoneCharged(c: Conf, e: ErrType)
    requires Usable(c)
    ensures Charged(c, e, []) == e
  {
  }

  lemma OneCharged(c: Conf, e: ErrType, x: Event)
    requires Usable(c)
    ensures Charged(c, e, [x]) == Charged(c, e, [] + [x]) == Charged(c, e, [x] + []) == Bump(c, e, x.inc, x.t)
  {
    assert [x][..0] == [] && [] + [x] == [x] == [x] + [];
  }

  lemma TwoCharged(c: Conf, e: ErrType, x: Event, y: Event)
    requires Usable(c)
    ensures Charged(c, e, [x] + [y]) == Bump(c, Bump(c, e, x.inc, x.t), y.inc, y.t)
  {
    assert ([x] + [y])[..1] == [x];
    OneCharged(c, e, x);
  }

  // In every run each key has a record exactly when an action looked it up, and its two
  // counters and buckets are what the events charged to them alone would make of a
  // record new at that time.
  lemma {:induction false} LedgerIsHistory(s: Setup, acts: seq<Action>, k: Key)
    requires SetUp(s)
    ensures Looked(Run(s, acts), k) ==
      if MadeAt(s, acts, k).Some? then Some(RecordOf(s, acts, k, MadeAt(s, acts, k).value)) else None
  {
    hide Step, Charges, Finds, Made, Looked, ConfOf;
    if acts == [] {
      NothingLooked(k);
    } else {
      var before, a := acts[..|acts| - 1], acts[|acts| - 1];
      LedgerIsHistory(s, before, k);
      RunUnique(s, before);
      StepLooked(s, Run(s, before), a, k);
      NothingYet(s, before, k, a.now);
      if Finds(s, a, k) {
        var start := MadeAt(s, acts, k).value;
        MadeByAll(ConfOf(s, k, false), start, History(s, before, k, false), Charges(s, a, k, false));
        MadeByAll(ConfOf(s, k, true), start, History(s, before, k, true), Charges(s, a, k, true));
      } else {
        NotCharged(s, a, k);
        assert History(s, before, k, false) + [] == History(s, before, k, false);
        assert History(s, before, k, true) + [] == History(s, before, k, true);
      }
    }
  }

  lemma NothingLooked(k: Key)
    ensures Looked([], k) == None
  {
  }

  lemma NotCharged(s: Setup, a: Action, k: Key)
    requires !Finds(s, a, k)
    ensures Charges(s, a, k, false) == Charges(s, a, k, true) == []
  {
  }

  // Nothing was charged to a record that is not there, so a new one is right.
  lemma {:induction false} NothingYet(s: Setup, acts: seq<Action>, k: Key, now: int)
    requires SetUp(s)
    ensures MadeAt(s, acts, k).None? ==>
      History(s, acts, k, false) == History(s, acts, k, true) == [] && RecordOf(s, acts, k, now) == Fresh(k, now)
  {
    hide Finds, Charges;
    if acts != [] {
      NothingYet(s, acts[..|acts| - 1], k, now);
      if !Finds(s, acts[|acts| - 1], k) {
        NotCharged(s, acts[|acts| - 1], k);
      }
    }
  }

  // One action: the record of k, found or made, with what is charged to it.
  lemma StepLooked(s: Setup, l: seq<Record>, a: Action, k: Key)
    requires SetUp(s) && Unique(l)
    ensures Looked(Step(s, l, a), k) ==
      if Finds(s, a, k) then
        var r := OrFresh(Looked(l, k), k, a.now);
        Some(Record(r.key, Charged(ConfOf(s, k, false), r.ce, Charges(s, a, k, false)),
          Charged(ConfOf(s, k, true), r.uc, Charges(s, a, k, true))))
      else Looked(l, k)
  {
    hide Looked, Charged, Charge, Over, ConfOf;
    var r := OrFresh(Looked(l, k), k, a.now);
    if a.Touch? {
      LookedGot(l, a.at, a.now, k);
      NoneCharged(ConfOf(s, k, false), r.ce);
      NoneCharged(ConfOf(s, k, true), r.uc);
    } else if a.hasSocket {
      DimmStepLooked(s, l, a, k);
      SocketStepLooked(s, DimmStep(s, l, a), a, k);
      if Finds(s, a, k) {
        ChargesDo(s, a, k, r);
      }
    }
  }

  // The record of key k, if there is one, counts c; without one c is zero.
  ghost predicate Counts(l: seq<Record>, k: Key, uc: bool, c: nat) {
    if IndexOf(l, k) < |l| then CountOf(l[IndexOf(l, k)], uc) == c else c == 0
  }

  lemma {:induction false} ReportedIsTotal(s: Setup, acts: seq<Action>, k: Key, uc: bool)
    requires s.memdb && !Whole(k)
    ensures ReportedAt(acts, k, uc) == LeakyBucket.Total(History(s, acts, k, uc))
  {
    if acts != [] {
      var before, a := acts[..|acts| - 1], acts[|acts| - 1];
      ReportedIsTotal(s, before, k, uc);
      var h := History(s, before, k, uc);
      assert h + [] == h;
      if Charges(s, a, k, uc) != [] {
        assert Charges(s, a, k, uc) == [Event(1, a.time)];
        assert (h + [Event(1, a.time)])[..|h|] == h;
      }
    }
  }

  // A DIMM's record counts exactly the errors reported at its place.
  lemma DimmCounts(s: Setup, acts: seq<Action>, k: Key, uc: bool)
    requires SetUp(s) && s.memdb && Located(k)
    ensures Counts(Run(s, acts), k, uc, ReportedAt(acts, k, uc))
  {
    hide Run;
    LedgerIsHistory(s, acts, k);
    ReportedIsTotal(s, acts, k, uc);
    NothingYet(s, acts, k, 0);
  }

  // ---- Which triggers run ----

  // The clock of the record of k once the action has looked it up.
  function StartOf(s: Setup, acts: seq<Action>, k: Key, now: int): int {
    var made := MadeAt(s, acts, k);
    if made.Some? then made.value else now
  }

  lemma TripsMade(c: Conf, start: int, h: seq<Event>, e: Event)
    requires Usable(c)
    ensures Trips(c, Made(c, start, h), e.inc, e.t) <==> Overflows(c, start, h + [e])
  {
    AfterNext(c, start, h, e);
  }

  lemma FoundIsHistory(s: Setup, acts: seq<Action>, k: Key, now: int)
    requires SetUp(s)
    ensures OrFresh(Looked(Run(s, acts), k), k, now) == RecordOf(s, acts, k, StartOf(s, acts, k, now))
    ensures Unique(Run(s, acts))
  {
    hide Run, Looked, RecordOf;
    LedgerIsHistory(s, acts, k);
    NothingYet(s, acts, k, now);
    RunUnique(s, acts);
  }

  lemma FoundInPlace(l: seq<Record>, k: Key, now: int)
    requires Unique(l)
    ensures Got(l, k, now)[IndexOf(l, k)] == OrFresh(Looked(l, k), k, now)
  {
    LookedAfter(l, k, now, Fresh(k, now), k);
  }

  // The DIMM's trigger runs exactly when the bucket that its own errors filled overflows.
  lemma DimmFiresExactly(s: Setup, acts: seq<Action>, a: Action)
    requires SetUp(s) && a.MemoryError? && a.hasSocket
    ensures var t, start := s.dimms, StartOf(s, acts, a.at, a.now);
      var h := History(s, acts, a.at, a.uncorrected) + [Event(1, a.time)];
      Fires(s, Run(s, acts), a).dimm <==>
      s.memdb && !Whole(a.at) && Overflows(if a.uncorrected then t.uc else t.ce, start, h)
  {
    hide Run, Looked, History, Trips, SocketFires, Overflows, Made;
    var k, start := a.at, StartOf(s, acts, a.at, a.now);
    FoundIsHistory(s, acts, k, a.now);
    FoundInPlace(Run(s, acts), k, a.now);
    TripsMade(ConfOf(s, k, a.uncorrected), start, History(s, acts, k, a.uncorrected), Event(1, a.time));
  }

  // The socket's triggers run exactly when its bucket overflows: with the lost errors,
  // which go to the corrected ones, and then with the error itself.
  lemma SocketFiresExactly(s: Setup, acts: seq<Action>, a: Action)
    requires SetUp(s) && a.MemoryError? && a.hasSocket
    ensures var k := Key(a.at.socket, UNKNOWN, UNKNOWN);
      var start, h := StartOf(s, acts, k, a.now), History(s, acts, k, a.uncorrected);
      var lost := if a.corrErrCnt > 1 then [Event(a.corrErrCnt - 1, a.time)] else [];
      var fired := Fires(s, Run(s, acts), a);
      && (fired.lost <==>
        (s.sockdb && a.corrErrCnt > 1 && Overflows(s.sockets.ce, start, History(s, acts, k, false) + lost)))
      && (fired.socket <==>
        (s.sockdb && if a.uncorrected then Overflows(s.sockets.uc, start, h + [Event(1, a.time)])
                     else Overflows(s.sockets.ce, start, h + lost + [Event(1, a.time)])))
  {
    hide Run, Looked, History, Trips, DimmFires, DimmStep, Overflows, Made, Bump;
    var k, t := SocketKey(a.at.socket), s.sockets;
    var start, l := StartOf(s, acts, k, a.now), DimmStep(s, Run(s, acts), a);
    FoundIsHistory(s, acts, k, a.now);
    DimmStepLooked(s, Run(s, acts), a, k);
    FoundInPlace(l, k, a.now);
    var ce, uc := History(s, acts, k, false), History(s, acts, k, true);
    assert ce + [] == ce;
    TripsMade(t.uc, start, uc, Event(1, a.time));
    TripsMade(t.ce, start, ce, Event(1, a.time));
    if a.corrErrCnt > 1 {
      var lost := Event(a.corrErrCnt - 1, a.time);
      TripsMade(t.ce, start, ce, lost);
      MadeNext(t.ce, start, ce, lost);
      TripsMade(t.ce, start, ce + [lost], Event(1, a.time));
    }
  }
}
