// The second half of numa.c: splitting the node map at the mem= limit into regions the
// kernel owns (read-only for the test) and regions above the limit (read/write).
module BootMap {
  import opened Common
  import opened NodeMap
  import opened NodeMapFacts

  const MAX_BOOTMEM_REGIONS: nat := 64

  datatype Boot = Boot(nid: int, start: nat, end: nat, writable: bool)  // bootmem_region_t

  function Split(r: Region, limit: nat): seq<Boot> {
    if r.end <= limit || r.start >= limit then [Boot(r.nid, r.start, r.end, !(r.end <= limit))]
    else [Boot(r.nid, r.start, limit, false), Boot(r.nid, limit, r.end, true)]
  }

  function Boots(m: seq<Region>, limit: nat): seq<Boot> {
    if m == [] then [] else Boots(m[..|m| - 1], limit) + Split(m[|m| - 1], limit)
  }

  // What a table of limited size keeps of the list.
  function Kept(bs: seq<Boot>): seq<Boot> {
    if |bs| <= MAX_BOOTMEM_REGIONS then bs else bs[..MAX_BOOTMEM_REGIONS]
  }

  lemma {:induction false} BootsPrefix(m: seq<Region>, i: nat, limit: nat)
    requires i <= |m|
    ensures |Boots(m[..i], limit)| <= |Boots(m, limit)|
    ensures Boots(m[..i], limit) == Boots(m, limit)[..|Boots(m[..i], limit)|]
  {
    if i < |m| {
      BootsPrefix(m[..|m| - 1], i, limit);
      assert m[..|m| - 1][..i] == m[..i];
    } else {
      assert m[..i] == m;
    }
  }

  // The pages of node n that some region of the given kind covers.
  ghost predicate HasBoot(bs: seq<Boot>, n: int, p: nat, writable: bool) {
    exists k :: 0 <= k < |bs| && bs[k].nid == n && bs[k].writable == writable && bs[k].start <= p < bs[k].end
  }

  class BootTable {
    var slots: array<Boot>
    var count: nat  // bregion_num

    ghost predicate Valid() reads this {
      slots.Length == MAX_BOOTMEM_REGIONS && count <= MAX_BOOTMEM_REGIONS
    }

    constructor ()
      ensures Valid() && fresh(slots) && count == 0
    {
      slots := new Boot[MAX_BOOTMEM_REGIONS](_ => Boot(0, 0, 0, false));
      count := 0;
    }

    // The two branches for one region of the node map; false when the table is full.
    method Put(r: Region, limit: nat, c: nat) returns (fits: bool, c': nat)
      requires Valid() && c <= MAX_BOOTMEM_REGIONS
      modifies slots
      ensures fits <==> c + |Split(r, limit)| <= MAX_BOOTMEM_REGIONS
      ensures c' == if fits then c + |Split(r, limit)| else MAX_BOOTMEM_REGIONS
      ensures slots[..c'] == old(slots[..c]) + Split(r, limit)[..c' - c]
    {
      c' := c;
      if r.end <= limit || r.start >= limit {
        if c' >= MAX_BOOTMEM_REGIONS {
          return false, c';
        }
        slots[c'] := Boot(r.nid, r.start, r.end, !(r.end <= limit));
        c' := c' + 1;
        return true, c';
      }
      if c' >= MAX_BOOTMEM_REGIONS {
        return false, c';
      }
      slots[c'] := Boot(r.nid, r.start, limit, false);
      c' := c' + 1;
      if c' >= MAX_BOOTMEM_REGIONS {
        return false, c';
      }
      slots[c'] := Boot(r.nid, limit, r.end, true);
      c' := c' + 1;
      return true, c';
    }

    // generate_bootmem_region: 0 on success, -1 when the table is too small.
    method Generate(m: seq<Region>, memLimit: nat) returns (status: int)
      requires Valid()
      modifies this`count, slots
      ensures Valid() && slots[..count] == Kept(Boots(m, memLimit / PAGE_SIZE))
      ensures status == if |Boots(m, memLimit / PAGE_SIZE)| <= MAX_BOOTMEM_REGIONS then 0 else -1
    {
      hide Split;
      var limit := memLimit / PAGE_SIZE;
      var i, c := 0, 0;
      while i < |m|
        invariant 0 <= i <= |m| && 0 <= c <= MAX_BOOTMEM_REGIONS && Valid()
        invariant slots[..c] == Boots(m[..i], limit)
      {
        assert m[..i + 1][..i] == m[..i];
        BootsPrefix(m, i + 1, limit);
        ghost var bs, d := Boots(m, limit), c;
        var fits;
        fits, c := Put(m[i], limit, c);
        assert Boots(m[..i + 1], limit) == Boots(m[..i], limit) + Split(m[i], limit);
        if !fits {
          count := MAX_BOOTMEM_REGIONS;
          assert slots[..count] == bs[..d] + bs[d..count];
          return -1;
        }
        i := i + 1;
      }
      assert m[..i] == m;
      count := c;
      return 0;
    }
  }

  lemma HasBootConcat(a: seq<Boot>, b: seq<Boot>, n: int, p: nat, writable: bool)
    ensures HasBoot(a + b, n, p, writable) <==> HasBoot(a, n, p, writable) || HasBoot(b, n, p, writable)
  {
    var c := a + b;
    if k :| 0 <= k < |a| && a[k].nid == n && a[k].writable == writable && a[k].start <= p < a[k].end {
      assert c[k] == a[k];
    }
    if k :| 0 <= k < |b| && b[k].nid == n && b[k].writable == writable && b[k].start <= p < b[k].end {
      assert c[|a| + k] == b[k];
    }
  }

  lemma SplitExact(r: Region, limit: nat, n: int, p: nat, writable: bool)
    ensures HasBoot(Split(r, limit), n, p, writable) <==>
            r.nid == n && InRegion(r, p) && (writable <==> limit <= p)
  {
    var s := Split(r, limit);
    if r.nid == n && InRegion(r, p) && (writable <==> limit <= p) {
      assert s[if |s| == 2 && writable then 1 else 0].start <= p;
    }
  }

  // The page sets are kept: of each node's pages exactly those at or above the limit
  // become writable and exactly the others become read-only.
  lemma {:induction false} BootsExact(m: seq<Region>, limit: nat, n: int, p: nat, writable: bool)
    ensures HasBoot(Boots(m, limit), n, p, writable) <==> Has(m, n, p) && (writable <==> limit <= p)
  {
    if m != [] {
      var before, r := m[..|m| - 1], m[|m| - 1];
      BootsExact(before, limit, n, p, writable);
      HasBootConcat(Boots(before, limit), Split(r, limit), n, p, writable);
      SplitExact(r, limit, n, p, writable);
      HasConcat(before, r, n, p);
      assert before + [r] == m;
    }
  }

  ghost predicate Sided(b: Boot, limit: nat) {
    if b.writable then limit <= b.start else b.end <= limit
  }

  // Read-only regions end at or below the limit, read/write ones start at or above it.
  lemma {:induction false} BootsSided(m: seq<Region>, limit: nat)
    ensures forall k :: 0 <= k < |Boots(m, limit)| ==> Sided(Boots(m, limit)[k], limit)
  {
    if m != [] {
      BootsSided(m[..|m| - 1], limit);
    }
  }

  function MapPages(m: seq<Region>): int {
    if m == [] then 0 else MapPages(m[..|m| - 1]) + (m[|m| - 1].end - m[|m| - 1].start)
  }

  function BootPages(bs: seq<Boot>): int {
    if bs == [] then 0 else BootPages(bs[..|bs| - 1]) + (bs[|bs| - 1].end - bs[|bs| - 1].start)
  }

  lemma {:induction false} BootPagesAppend(a: seq<Boot>, b: Boot)
    ensures BootPages(a + [b]) == BootPages(a) + (b.end - b.start)
  {
    assert (a + [b])[..|a + [b]| - 1] == a;
  }

  // The number of pages is conserved.
  lemma {:induction false} BootsConserve(m: seq<Region>, limit: nat)
    ensures BootPages(Boots(m, limit)) == MapPages(m)
  {
    if m != [] {
      var before, r := m[..|m| - 1], m[|m| - 1];
      BootsConserve(before, limit);
      var s, bs := Split(r, limit), Boots(before, limit);
      BootPagesAppend(bs, s[0]);
      if |s| == 2 {
        BootPagesAppend(bs + [s[0]], s[1]);
        assert bs + s == (bs + [s[0]]) + [s[1]];
      } else {
        assert bs + s == bs + [s[0]];
      }
    }
  }

  // Nonempty, and each region ends at or before the next begins.
  ghost predicate Chain(m: seq<Region>) {
    && (forall i :: 0 <= i < |m| ==> m[i].start < m[i].end)
    && (forall i, j :: 0 <= i < j < |m| ==> m[i].end <= m[j].start)
  }

  ghost predicate BootChain(bs: seq<Boot>) {
    && (forall i :: 0 <= i < |bs| ==> bs[i].start < bs[i].end)
    && (forall i, j :: 0 <= i < j < |bs| ==> bs[i].end <= bs[j].start)
  }

  lemma SortedApartIsChain(m: seq<Region>)
    requires Ascending(m) && AllApart(m) && forall i :: 0 <= i < |m| ==> m[i].start < m[i].end
    ensures Chain(m)
  {
    forall i, j | 0 <= i < j < |m|
      ensures m[i].end <= m[j].start
    {
      assert Apart(m[i], m[j]);
    }
  }

  // A sorted disjoint map becomes a sorted disjoint list, none of it past the map's end,
  // with at most one region more than the map: only one region can straddle the limit.
  lemma {:induction false} BootsChain(m: seq<Region>, limit: nat)
    requires Chain(m)
    ensures BootChain(Boots(m, limit))
    ensures forall k :: 0 <= k < |Boots(m, limit)| ==> m != [] && Boots(m, limit)[k].end <= m[|m| - 1].end
    ensures |m| <= |Boots(m, limit)| <= |m| + 1
    ensures m == [] || m[|m| - 1].end <= limit ==> |Boots(m, limit)| == |m|
  {
    if m != [] {
      var before, r := m[..|m| - 1], m[|m| - 1];
      BootsChain(before, limit);
      var bs, s := Boots(before, limit), Split(r, limit);
      assert forall k :: 0 <= k < |bs| ==> bs[k].end <= before[|before| - 1].end <= r.start;
      assert forall k :: 0 <= k < |s| ==> r.start <= s[k].start < s[k].end <= r.end;
      assert before != [] ==> before[|before| - 1].end <= r.start;
      ChainConcat(bs, s, r.start);
    }
  }

  lemma ChainConcat(a: seq<Boot>, b: seq<Boot>, cut: nat)
    requires BootChain(a) && BootChain(b)
    requires forall k :: 0 <= k < |a| ==> a[k].end <= cut
    requires forall k :: 0 <= k < |b| ==> cut <= b[k].start
    ensures BootChain(a + b)
  {
    forall i, j | 0 <= i < j < |a + b|
      ensures (a + b)[i].end <= (a + b)[j].start
    {
      if j < |a| {
        assert (a + b)[i] == a[i] && (a + b)[j] == a[j];
      } else if |a| <= i {
        assert (a + b)[i] == b[i - |a|] && (a + b)[j] == b[j - |a|];
      } else {
        assert (a + b)[i] == a[i] && (a + b)[j] == b[j - |a|];
      }
    }
  }
}
