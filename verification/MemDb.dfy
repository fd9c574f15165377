// memdb.c: the hash table of DIMM and socket records.
module MemDb {
  import opened MemLedger
  import LeakyBucket

  const SHASH: nat := 17
  const FNV32_OFFSET: bv32 := 2166136261
  const FNV32_PRIME: bv32 := 0x01000193

  // The low byte of an int, O(x).
  function LowByte(x: int): bv32 {
    (x % 0x100) as bv32
  }

  // One byte into the FNV-1a hash.
  function Mixed(h: bv32, b: bv32): bv32 {
    (h ^ b) * FNV32_PRIME
  }

  // dimmhash: FNV-1a over two bytes of the socket, the dimm and the channel.
  function DimmHash(socket: int, dimm: int, channel: int): (h: nat)
    ensures h < SHASH
  {
    var h0 := Mixed(FNV32_OFFSET, LowByte(socket));
    var h1 := Mixed(h0, LowByte(socket / 0x100));
    var h2 := Mixed(h1, LowByte(dimm));
    var h3 := Mixed(h2, LowByte(channel));
    (h3 as nat) % SHASH
  }

  // The hash sees two bytes of the socket and one of the dimm and of the channel: keys that
  // agree there share a chain, so the chain has to compare the whole key.
  lemma HashLowBytes(k: Key, m: Key)
    requires k.socket % 0x100 == m.socket % 0x100 && k.socket / 0x100 % 0x100 == m.socket / 0x100 % 0x100
    requires k.dimm % 0x100 == m.dimm % 0x100 && k.channel % 0x100 == m.channel % 0x100
    ensures HashOf(k) == HashOf(m)
  {
    hide LowByte, Mixed;
    LowByteOf(k.socket, m.socket);
    LowByteOf(k.socket / 0x100, m.socket / 0x100);
    LowByteOf(k.dimm, m.dimm);
    LowByteOf(k.channel, m.channel);
  }

  lemma LowByteOf(a: int, b: int)
    requires a % 0x100 == b % 0x100
    ensures LowByte(a) == LowByte(b)
  {
  }

  function HashOf(k: Key): (h: nat)
    ensures h < SHASH
  {
    DimmHash(k.socket, k.dimm, k.channel)
  }

  // struct memdimm; next, like the key, is never changed once the record is linked.
  class MemDimm {
    const next: MemDimm?
    const key: Key
    var ce: ErrType
    var uc: ErrType

    constructor (next: MemDimm?, key: Key, now: int)
      ensures this.next == next && this.key == key && Value() == Fresh(key, now)
    {
      this.next, this.key := next, key;
      ce, uc := ErrType(0, LeakyBucket.State(0, 0, now)), ErrType(0, LeakyBucket.State(0, 0, now));
    }

    function Value(): Record reads this {
      Record(key, ce, uc)
    }

    // account_over; the flag says whether it runs the trigger.
    method AccountOver(t: Triggers, corrErrCnt: nat, time: int) returns (fired: bool)
      requires Ready(t)
      modifies this
      ensures Value() == Over(t, old(Value()), corrErrCnt, time)
      ensures fired == OverTrips(t, old(Value()), corrErrCnt, time)
    {
      fired := false;
      if corrErrCnt > 0 {
        var lost := corrErrCnt - 1;
        if lost > 0 {
          fired := Trips(t.ce, ce, lost, time);
          ce := Bump(t.ce, ce, lost, time);
        }
      }
    }

    // account_memdb, with the same flag.
    method AccountMemdb(t: Triggers, uncorrected: bool, time: int) returns (fired: bool)
      requires Ready(t)
      modifies this
      ensures Value() == Charge(t, old(Value()), uncorrected, time)
      ensures fired == ChargeTrips(t, old(Value()), uncorrected, time)
    {
      if uncorrected {
        fired := Trips(t.uc, uc, 1, time);
        uc := Bump(t.uc, uc, 1, time);
      } else {
        fired := Trips(t.ce, ce, 1, time);
        ce := Bump(t.ce, ce, 1, time);
      }
    }
  }

  // The records of a chain, from its head.
  ghost predicate Chained(head: MemDimm?, chain: seq<MemDimm>) {
    if chain == [] then head == null else head == chain[0] && Chained(head.next, chain[1..])
  }

  function Lengths(chains: seq<seq<MemDimm>>): nat {
    if chains == [] then 0 else Lengths(chains[..|chains| - 1]) + |chains[|chains| - 1]|
  }

  lemma {:induction false} LengthsUpdate(chains: seq<seq<MemDimm>>, h: nat, c: seq<MemDimm>)
    requires h < |chains|
    ensures Lengths(chains[h := c]) == Lengths(chains) - |chains[h]| + |c|
  {
    var n := |chains| - 1;
    if h == n {
      assert chains[h := c][..n] == chains[..n];
    } else {
      assert chains[h := c][..n] == chains[..n][h := c];
      LengthsUpdate(chains[..n], h, c);
    }
  }

  // Every record of the list is in the chain of its hash, the chains hold nothing else,
  // and all of them together are as long as the list.
  ghost predicate Hashed(hash: Key -> nat, chains: seq<seq<MemDimm>>, dimms: seq<MemDimm>) {
    InChains(hash, chains, dimms) && FromList(hash, chains, dimms) && Lengths(chains) == |dimms|
  }

  ghost predicate InChains(hash: Key -> nat, chains: seq<seq<MemDimm>>, dimms: seq<MemDimm>) {
    forall i :: 0 <= i < |dimms| ==> hash(dimms[i].key) < |chains| && dimms[i] in chains[hash(dimms[i].key)]
  }

  ghost predicate FromList(hash: Key -> nat, chains: seq<seq<MemDimm>>, dimms: seq<MemDimm>) {
    forall h, i :: 0 <= h < |chains| && 0 <= i < |chains[h]| ==>
      chains[h][i] in dimms && hash(chains[h][i].key) == h
  }

  ghost predicate Distinct(dimms: seq<MemDimm>) {
    forall i, j :: 0 <= i < j < |dimms| ==> dimms[i].key != dimms[j].key
  }

  function Values(dimms: seq<MemDimm>): seq<Record>
    reads dimms
  {
    seq(|dimms|, i requires 0 <= i < |dimms| reads dimms => dimms[i].Value())
  }

  // The search loop of get_memdimm along one chain.
  method SearchChain(head: MemDimm?, key: Key, ghost chain: seq<MemDimm>) returns (md: MemDimm?)
    requires Chained(head, chain)
    ensures md == null <==> forall i :: 0 <= i < |chain| ==> chain[i].key != key
    ensures md != null ==> md in chain && md.key == key
  {
    md := head;
    ghost var i := 0;
    while md != null
      invariant i <= |chain| && Chained(md, chain[i..])
      invariant forall j :: 0 <= j < i ==> chain[j].key != key
      decreases |chain| - i
    {
      assert md == chain[i] && chain[i..][1..] == chain[i + 1..];
      if md.key == key {
        return;
      }
      md := md.next;
      i := i + 1;
    }
  }

  function Entered(chains: seq<seq<MemDimm>>, h: nat, md: MemDimm): seq<seq<MemDimm>>
    requires h < |chains|
  {
    chains[h := [md] + chains[h]]
  }

  lemma EnterInChains(hash: Key -> nat, chains: seq<seq<MemDimm>>, dimms: seq<MemDimm>, md: MemDimm)
    requires InChains(hash, chains, dimms) && hash(md.key) < |chains|
    ensures InChains(hash, Entered(chains, hash(md.key), md), dimms + [md])
  {
    var h := hash(md.key);
    var chains' := Entered(chains, h, md);
    forall i | 0 <= i < |dimms|
      ensures hash(dimms[i].key) < |chains| && dimms[i] in chains'[hash(dimms[i].key)]
    {
      var g := hash(dimms[i].key);
      var j :| 0 <= j < |chains[g]| && chains[g][j] == dimms[i];
      assert chains'[g][if g == h then j + 1 else j] == dimms[i];
    }
    assert chains'[h][0] == md;
  }

  lemma EnterFromList(hash: Key -> nat, chains: seq<seq<MemDimm>>, dimms: seq<MemDimm>, md: MemDimm)
    requires FromList(hash, chains, dimms) && hash(md.key) < |chains|
    ensures FromList(hash, Entered(chains, hash(md.key), md), dimms + [md])
  {
    var h := hash(md.key);
    var chains', dimms' := Entered(chains, h, md), dimms + [md];
    assert dimms'[|dimms|] == md;
    forall g, i | 0 <= g < |chains'| && 0 <= i < |chains'[g]|
      ensures chains'[g][i] in dimms' && hash(chains'[g][i].key) == g
    {
      if !(g == h && i == 0) {
        var prior := chains[g][if g == h then i - 1 else i];
        assert prior in dimms && chains'[g][i] == prior;
      }
    }
  }

  lemma Enter(hash: Key -> nat, chains: seq<seq<MemDimm>>, dimms: seq<MemDimm>, md: MemDimm)
    requires Hashed(hash, chains, dimms) && hash(md.key) < |chains|
    ensures Hashed(hash, Entered(chains, hash(md.key), md), dimms + [md])
  {
    EnterInChains(hash, chains, dimms, md);
    EnterFromList(hash, chains, dimms, md);
    LengthsUpdate(chains, hash(md.key), [md] + chains[hash(md.key)]);
  }

  // A key is in the list exactly when it is in its chain.
  lemma ChainDecides(hash: Key -> nat, chains: seq<seq<MemDimm>>, dimms: seq<MemDimm>, key: Key)
    requires Hashed(hash, chains, dimms) && hash(key) < |chains|
    ensures (forall i :: 0 <= i < |dimms| ==> dimms[i].key != key) <==>
            (forall i :: 0 <= i < |chains[hash(key)]| ==> chains[hash(key)][i].key != key)
    ensures forall i :: 0 <= i < |chains[hash(key)]| ==> chains[hash(key)][i] in dimms
  {
    var c := chains[hash(key)];
    if i :| 0 <= i < |dimms| && dimms[i].key == key {
      assert dimms[i] in c;
    }
    if i :| 0 <= i < |c| && c[i].key == key {
      assert c[i] in dimms;
    }
  }

  // Where a record's value is in the list of values.
  lemma ValueAt(dimms: seq<MemDimm>, key: Key)
    requires Distinct(dimms)
    ensures (forall i :: 0 <= i < |dimms| ==> dimms[i].key != key) <==> IndexOf(Values(dimms), key) == |dimms|
    ensures forall i :: 0 <= i < |dimms| && dimms[i].key == key ==> IndexOf(Values(dimms), key) == i
  {
    var k := IndexOf(Values(dimms), key);
    assert k < |dimms| ==> Values(dimms)[k].key == dimms[k].key;
    assert forall i :: 0 <= i < |dimms| ==> Values(dimms)[i].key == dimms[i].key;
  }

  // account_memdb on the record at i, seen from the whole list.
  method ChargeDimm(md: MemDimm, ghost dimms: seq<MemDimm>, ghost i: nat, t: Triggers, a: Action)
    returns (fired: bool)
    requires Distinct(dimms) && i < |dimms| && dimms[i] == md && Ready(t) && a.MemoryError?
    modifies md
    ensures Values(dimms) == old(Values(dimms))[i := Charge(t, old(Values(dimms))[i], a.uncorrected, a.time)]
    ensures fired == ChargeTrips(t, old(Values(dimms))[i], a.uncorrected, a.time)
  {
    ghost var g := Values(dimms);
    fired := md.AccountMemdb(t, a.uncorrected, a.time);
    ValuesSet(dimms, i, g);
  }

  method ChargeSocket(md: MemDimm, ghost dimms: seq<MemDimm>, ghost i: nat, t: Triggers, a: Action)
    returns (lost: bool, fired: bool)
    requires Distinct(dimms) && i < |dimms| && dimms[i] == md && Ready(t) && a.MemoryError?
    modifies md
    ensures Values(dimms) == old(Values(dimms))
      [i := Charge(t, Over(t, old(Values(dimms))[i], a.corrErrCnt, a.time), a.uncorrected, a.time)]
    ensures lost == OverTrips(t, old(Values(dimms))[i], a.corrErrCnt, a.time)
    ensures fired == ChargeTrips(t, Over(t, old(Values(dimms))[i], a.corrErrCnt, a.time), a.uncorrected, a.time)
  {
    ghost var g := Values(dimms);
    lost := md.AccountOver(t, a.corrErrCnt, a.time);
    fired := md.AccountMemdb(t, a.uncorrected, a.time);
    ValuesSet(dimms, i, g);
  }

  ghost predicate Recorded(hash: Key -> nat, chains: seq<seq<MemDimm>>, dimms: seq<MemDimm>) {
    |chains| == SHASH && (forall k :: hash(k) < SHASH) && Hashed(hash, chains, dimms) && Distinct(dimms)
  }

  lemma EnterRecorded(hash: Key -> nat, chains: seq<seq<MemDimm>>, dimms: seq<MemDimm>, md: MemDimm)
    requires Recorded(hash, chains, dimms) && forall i :: 0 <= i < |dimms| ==> dimms[i].key != md.key
    ensures Recorded(hash, Entered(chains, hash(md.key), md), dimms + [md])
  {
    Enter(hash, chains, dimms, md);
  }

  ghost predicate Threads(heads: array<MemDimm?>, chains: seq<seq<MemDimm>>)
    reads heads
  {
    heads.Length == |chains| && forall h :: 0 <= h < |chains| ==> Chained(heads[h], chains[h])
  }

  // md->next = md_dimms[h]; md_dimms[h] = md.
  method PushHead(heads: array<MemDimm?>, h: nat, md: MemDimm, ghost chains: seq<seq<MemDimm>>)
    requires Threads(heads, chains) && h < |chains| && md.next == heads[h]
    modifies heads
    ensures Threads(heads, Entered(chains, h, md))
  {
    assert ([md] + chains[h])[1..] == chains[h];
    heads[h] := md;
  }

  class Table {
    const setup: Setup
    const hash: Key -> nat              // dimmhash; the proofs need only its range
    const heads: array<MemDimm?>        // md_dimms
    var numdimms: nat                   // md_numdimms
    ghost var chains: seq<seq<MemDimm>>
    ghost var dimms: seq<MemDimm>       // every record, oldest first

    ghost predicate Valid()
      reads this, heads
    {
      SetUp(setup) && Threads(heads, chains) && Recorded(hash, chains, dimms) && numdimms == |dimms|
    }

    constructor (setup: Setup)
      requires SetUp(setup)
      ensures Valid() && fresh(heads) && dimms == [] && this.setup == setup && hash == HashOf
    {
      this.setup, hash := setup, HashOf;
      heads := new MemDimm?[SHASH](_ => null);
      numdimms := 0;
      chains := seq(SHASH, _ => []);
      dimms := [];
      new;
      NoRecords(SHASH);
    }

    // get_memdimm's new record, at the head of its chain.
    method NewDimm(key: Key, now: int) returns (md: MemDimm)
      requires Threads(heads, chains) && Recorded(hash, chains, dimms)
      requires forall i :: 0 <= i < |dimms| ==> dimms[i].key != key
      modifies this, heads
      ensures Threads(heads, chains) && Recorded(hash, chains, dimms)
      ensures fresh(md) && dimms == old(dimms) + [md] && md.Value() == Fresh(key, now)
      ensures numdimms == old(numdimms) + 1
    {
      var h := hash(key);
      md := new MemDimm(heads[h], key, now);
      EnterRecorded(hash, chains, dimms, md);
      PushHead(heads, h, md, chains);
      chains, dimms := Entered(chains, h, md), dimms + [md];
      numdimms := numdimms + 1;
    }

    method FindDimm(key: Key) returns (md: MemDimm?)
      requires Threads(heads, chains) && Recorded(hash, chains, dimms)
      ensures md == null <==> forall i :: 0 <= i < |dimms| ==> dimms[i].key != key
      ensures md != null ==> md in dimms && md.key == key
    {
      var h := hash(key);
      ChainDecides(hash, chains, dimms, key);
      md := SearchChain(heads[h], key, chains[h]);
    }

    // get_memdimm.
    method GetMemdimm(key: Key, now: int) returns (md: MemDimm)
      requires Valid()
      modifies this, heads
      ensures Valid()
      ensures dimms == old(dimms) || (fresh(md) && dimms == old(dimms) + [md])
      ensures Values(dimms) == Got(old(Values(dimms)), key, now)
      ensures dimms[IndexOf(old(Values(dimms)), key)] == md
    {
      hide Threads, IndexOf, SetUp;
      ValueAt(dimms, key);
      ghost var values := Values(dimms);
      var found := FindDimm(key);
      if found != null {
        return found;
      }
      md := NewDimm(key, now);
      assert Values(dimms) == values + [Fresh(key, now)];
      return;
    }

    // The dimm half of memory_error.
    method TrackDimm(a: Action) returns (fired: bool)
      requires Valid() && a.MemoryError? && setup.memdb && Located(a.at)
      modifies this, heads, dimms
      ensures Valid() && Grown(old(dimms), dimms)
      ensures Values(dimms) == DimmStep(setup, old(Values(dimms)), a)
      ensures fired == DimmFires(setup, old(Values(dimms)), a)
    {
      hide Threads, Hashed, Charge, ChargeTrips;
      ghost var i := IndexOf(Values(dimms), a.at);
      var md := GetMemdimm(a.at, a.now);
      fired := ChargeDimm(md, dimms, i, setup.dimms, a);
    }

    // The socket half of memory_error.
    method TrackSocket(a: Action) returns (lost: bool, fired: bool)
      requires Valid() && a.MemoryError? && setup.sockdb
      modifies this, heads, dimms
      ensures Valid() && Grown(old(dimms), dimms)
      ensures Values(dimms) == SocketStep(setup, old(Values(dimms)), a)
      ensures (lost, fired) == SocketFires(setup, old(Values(dimms)), a)
    {
      hide Threads, Hashed, Charge, Over, ChargeTrips, OverTrips;
      var key := Key(a.at.socket, UNKNOWN, UNKNOWN);
      ghost var i := IndexOf(Values(dimms), key);
      var md := GetMemdimm(key, a.now);
      lost, fired := ChargeSocket(md, dimms, i, setup.sockets, a);
    }

    // memory_error; hasSocket says whether the kernel's record is long enough.
    method MemoryErrorAt(a: Action) returns (fired: Fired)
      requires Valid() && a.MemoryError?
      modifies this, heads, dimms
      ensures Valid() && Grown(old(dimms), dimms)
      ensures Values(dimms) == Step(setup, old(Values(dimms)), a)
      ensures fired == Fires(setup, old(Values(dimms)), a)
    {
      hide Threads, Recorded, Values, Got, IndexOf, OverTrips, ChargeTrips;
      if !a.hasSocket {
        return Fired(false, false, false);
      }
      var dimm, lost, socket := false, false, false;
      if setup.memdb && (a.at.channel != UNKNOWN || a.at.dimm != UNKNOWN) {
        dimm := TrackDimm(a);
      }
      if setup.sockdb {
        lost, socket := TrackSocket(a);
      }
      return Fired(dimm, lost, socket);
    }

    // An event of a run: a memory error or a bare lookup.
    method Act(a: Action) returns (fired: Fired)
      requires Valid()
      modifies this, heads, dimms
      ensures Valid() && Grown(old(dimms), dimms)
      ensures Values(dimms) == Step(setup, old(Values(dimms)), a)
      ensures fired == Fires(setup, old(Values(dimms)), a)
    {
      match a {
        case Touch(k, now) =>
          var _ := GetMemdimm(k, now);
          fired := Fired(false, false, false);
        case MemoryError(_, _, _, _, _, _) =>
          fired := MemoryErrorAt(a);
      }
    }
  }

  // dump_memory_errors before its sort: the chains laid end to end fill an array of
  // md_numdimms places exactly, and hold every record.
  method Collect(table: Table) returns (da: array<MemDimm?>)
    requires table.Valid()
    ensures fresh(da) && da.Length == table.numdimms == |table.dimms|
    ensures da[..] == Concat(table.chains)
    ensures forall d :: d in table.dimms <==> d in da[..]
  {
    hide InChains, FromList, SetUp;
    ghost var chains := table.chains;
    da := new MemDimm?[table.numdimms](_ => null);
    var k: nat := 0;
    for i := 0 to SHASH
      invariant k == Lengths(chains[..i]) && k <= da.Length && da[..k] == Concat(chains[..i])
    {
      assert chains[..i + 1][..i] == chains[..i];
      LengthsPrefix(chains, i + 1);
      k := CopyChain(table.heads[i], da, k, chains[i]);
    }
    assert chains[..SHASH] == chains;
    ConcatMembers(chains);
    SameMembers(table.hash, chains, table.dimms);
  }

  // One chain, copied from place k on.
  method CopyChain(head: MemDimm?, da: array<MemDimm?>, k: nat, ghost chain: seq<MemDimm>) returns (k': nat)
    requires Chained(head, chain) && k + |chain| <= da.Length
    modifies da
    ensures k' == k + |chain| && da[..k'] == old(da[..k]) + chain
  {
    var md := head;
    k' := k;
    ghost var j: nat := 0;
    while md != null
      invariant j <= |chain| && k' == k + j && Chained(md, chain[j..])
      invariant da[..k'] == old(da[..k]) + chain[..j]
      decreases |chain| - j
    {
      assert md == chain[j] && chain[j..][1..] == chain[j + 1..];
      da[k'] := md;
      md := md.next;
      k', j := k' + 1, j + 1;
    }
    assert chain[..j] == chain;
  }

  function Concat(chains: seq<seq<MemDimm>>): (s: seq<MemDimm>)
    ensures |s| == Lengths(chains)
  {
    if chains == [] then [] else Concat(chains[..|chains| - 1]) + chains[|chains| - 1]
  }

  lemma {:induction false} LengthsPrefix(chains: seq<seq<MemDimm>>, i: nat)
    requires i <= |chains|
    ensures Lengths(chains[..i]) <= Lengths(chains)
  {
    if i < |chains| {
      assert chains[..|chains| - 1][..i] == chains[..i];
      LengthsPrefix(chains[..|chains| - 1], i);
    } else {
      assert chains[..i] == chains;
    }
  }

  lemma {:induction false} ConcatMembers(chains: seq<seq<MemDimm>>)
    ensures forall d :: d in Concat(chains) <==> exists h :: 0 <= h < |chains| && d in chains[h]
  {
    if chains != [] {
      var n := |chains| - 1;
      ConcatMembers(chains[..n]);
      forall d
        ensures d in Concat(chains) <==> exists h :: 0 <= h < |chains| && d in chains[h]
      {
        if d in Concat(chains[..n]) {
          var h :| 0 <= h < n && d in chains[..n][h];
          assert d in chains[h];
        }
        if h :| 0 <= h < |chains| && d in chains[h] {
          assert h < n ==> d in chains[..n][h];
        }
      }
    }
  }

  lemma SameMembers(hash: Key -> nat, chains: seq<seq<MemDimm>>, dimms: seq<MemDimm>)
    requires Recorded(hash, chains, dimms)
    ensures forall d :: d in dimms <==> exists h :: 0 <= h < |chains| && d in chains[h]
  {
    forall d
      ensures d in dimms <==> exists h :: 0 <= h < |chains| && d in chains[h]
    {
      if d in dimms {
        var i :| 0 <= i < |dimms| && dimms[i] == d;
        assert d in chains[hash(dimms[i].key)];
      }
      if h :| 0 <= h < |chains| && d in chains[h] {
        var i :| 0 <= i < |chains[h]| && chains[h][i] == d;
        assert chains[h][i] in dimms;
      }
    }
  }

  // A whole run from an empty table, with the triggers it runs.
  method RunAll(table: Table, acts: seq<Action>) returns (fired: seq<Fired>)
    requires table.Valid() && table.dimms == []
    modifies table, table.heads
    ensures table.Valid() && Values(table.dimms) == Run(table.setup, acts)
    ensures table.numdimms == |Run(table.setup, acts)| && fired == AllFired(table.setup, acts)
  {
    fired := [];
    for k := 0 to |acts|
      invariant fresh(table.dimms) && table.Valid()
      invariant Values(table.dimms) == Run(table.setup, acts[..k]) && fired == AllFired(table.setup, acts[..k])
    {
      hide Step, Fires, Values;
      assert acts[..k + 1][..k] == acts[..k];
      var now := table.Act(acts[k]);
      fired := fired + [now];
    }
    assert acts[..|acts|] == acts;
  }

  // Records are only ever added, and those added are new.
  twostate predicate Grown(was: seq<MemDimm>, new now: seq<MemDimm>) {
    was <= now && forall i :: |was| <= i < |now| ==> fresh(now[i])
  }

  lemma ValuesSet(dimms: seq<MemDimm>, i: nat, g: seq<Record>)
    requires i < |dimms| == |g|
    requires forall j :: 0 <= j < |dimms| && j != i ==> g[j] == dimms[j].Value()
    ensures Values(dimms) == g[i := dimms[i].Value()]
  {
  }

  lemma {:induction false} NoRecords(n: nat)
    ensures Lengths(seq(n, _ => [])) == 0
  {
    if n > 0 {
      assert seq<seq<MemDimm>>(n, _ => [])[..n - 1] == seq<seq<MemDimm>>(n - 1, _ => []);
      NoRecords(n - 1);
    }
  }
}
