// march_c and its helpers, and addr_walk_own, as the loops of mem_test.c, proved
// against the passes of MarchSpec.
module MarchTest {
  import opened Common
  import opened MemoryDevice
  import opened MarchSpec
  import opened MarchDecode

  datatype Status = Success | Fail

  // march_c_fillup; `up` is TEST_FROM_DWON_TO_UP.
  method FillUp(mem: Memory, pattern: Word, up: bool)
    requires mem.Valid()
    modifies mem
    ensures mem.Valid() && mem.cells == Sweep(mem.device, old(mem.cells), Pass(up, None, Some(pattern), false)).cells
  {
    ghost var e := Pass(up, None, Some(pattern), false);
    var cnt := mem.Words();
    if up {
      var p := 0;
      while p < cnt
        invariant p <= cnt && mem.Valid() && mem.cells == Steps(mem.device, old(mem.cells), e, p).cells
      {
        mem.Write(p, pattern);
        p := p + 1;
      }
    } else {
      var p: int := cnt - 1;
      while p >= 0
        invariant -1 <= p < cnt && mem.Valid() && mem.cells == Steps(mem.device, old(mem.cells), e, cnt - 1 - p).cells
      {
        mem.Write(p, pattern);
        p := p - 1;
      }
    }
  }

  // A pass that stopped early stays where it stopped.
  lemma {:induction false} StoppedStays(d: Device, cells: seq<Word>, e: Pass, n: nat, m: nat)
    requires WellFormed(d) && |cells| == d.size && n <= m <= |d.decode|
    requires e.stop && !Steps(d, cells, e, n).ok
    ensures Steps(d, cells, e, m) == Steps(d, cells, e, n)
    decreases m
  {
    if n < m {
      StoppedStays(d, cells, e, n, m - 1);
    }
  }

  // A mismatch at step n of a stopping pass is its verdict.
  lemma MismatchEnds(d: Device, cells: seq<Word>, e: Pass, n: nat)
    requires WellFormed(d) && |cells| == d.size && n < |d.decode| && e.stop && Steps(d, cells, e, n).ok
    requires !Matches(d, Steps(d, cells, e, n).cells, d.decode[At(e.up, |d.decode|, n)], e.check)
    ensures Sweep(d, cells, e) == Outcome(Steps(d, cells, e, n).cells, false)
  {
    StoppedStays(d, cells, e, n + 1, |d.decode|);
  }

  // The two loops of march_c_Verify_A_Write_B.
  method VerifyUp(mem: Memory, a: Word, b: Word) returns (ret: Status)
    requires mem.Valid()
    modifies mem
    ensures mem.Valid()
    ensures Outcome(mem.cells, ret == Success) == Sweep(mem.device, old(mem.cells), CheckStore(a, b, true))
  {
    ghost var e := CheckStore(a, b, true);
    var p, end := 0, mem.Words();
    while p < end
      invariant p <= end && mem.Valid()
      invariant Outcome(mem.cells, true) == Steps(mem.device, old(mem.cells), e, p)
    {
      var bad := mem.Read(p);
      if bad != a {
        MismatchEnds(mem.device, old(mem.cells), e, p);
        return Fail;
      }
      mem.Write(p, b);
      p := p + 1;
    }
    return Success;
  }

  method VerifyDown(mem: Memory, a: Word, b: Word) returns (ret: Status)
    requires mem.Valid()
    modifies mem
    ensures mem.Valid()
    ensures Outcome(mem.cells, ret == Success) == Sweep(mem.device, old(mem.cells), CheckStore(a, b, false))
  {
    ghost var e, cnt := CheckStore(a, b, false), mem.Words();
    var p: int := mem.Words() - 1;
    while p >= 0
      invariant -1 <= p < cnt && mem.Valid()
      invariant Outcome(mem.cells, true) == Steps(mem.device, old(mem.cells), e, cnt - 1 - p)
    {
      var bad := mem.Read(p);
      if bad != a {
        MismatchEnds(mem.device, old(mem.cells), e, cnt - 1 - p);
        return Fail;
      }
      mem.Write(p, b);
      p := p - 1;
    }
    return Success;
  }

  // march_c_Verify_A_Write_B.
  method VerifyAWriteB(mem: Memory, a: Word, b: Word, up: bool) returns (ret: Status)
    requires mem.Valid()
    modifies mem
    ensures mem.Valid()
    ensures mem.Words() == 0 ==> ret == Fail && mem.cells == old(mem.cells)
    ensures mem.Words() > 0 ==>
      Outcome(mem.cells, ret == Success) == Sweep(mem.device, old(mem.cells), CheckStore(a, b, up))
  {
    if mem.Words() == 0 {
      return Fail;
    }
    if up {
      ret := VerifyUp(mem, a, b);
    } else {
      ret := VerifyDown(mem, a, b);
    }
  }

  // The two loops of march_c_Verify_A.
  method CheckUp(mem: Memory, a: Word) returns (ret: Status)
    requires mem.Valid()
    ensures Outcome(mem.cells, ret == Success) == Sweep(mem.device, mem.cells, Check(a, true))
  {
    ghost var e := Check(a, true);
    var p, end := 0, mem.Words();
    while p < end
      invariant p <= end && Outcome(mem.cells, true) == Steps(mem.device, mem.cells, e, p)
    {
      var bad := mem.Read(p);
      if bad != a {
        MismatchEnds(mem.device, mem.cells, e, p);
        return Fail;
      }
      p := p + 1;
    }
    return Success;
  }

  method CheckDown(mem: Memory, a: Word) returns (ret: Status)
    requires mem.Valid()
    ensures Outcome(mem.cells, ret == Success) == Sweep(mem.device, mem.cells, Check(a, false))
  {
    ghost var e, cnt := Check(a, false), mem.Words();
    var p: int := mem.Words() - 1;
    while p >= 0
      invariant -1 <= p < cnt && Outcome(mem.cells, true) == Steps(mem.device, mem.cells, e, cnt - 1 - p)
    {
      var bad := mem.Read(p);
      if bad != a {
        MismatchEnds(mem.device, mem.cells, e, cnt - 1 - p);
        return Fail;
      }
      p := p - 1;
    }
    return Success;
  }

  // march_c_Verify_A.
  method VerifyA(mem: Memory, a: Word, up: bool) returns (ret: Status)
    requires mem.Valid()
    ensures mem.Words() == 0 ==> ret == Fail
    ensures mem.Words() > 0 ==>
      Outcome(mem.cells, ret == Success) == Sweep(mem.device, mem.cells, Check(a, up))
  {
    if mem.Words() == 0 {
      return Fail;
    }
    if up {
      ret := CheckUp(mem, a);
    } else {
      ret := CheckDown(mem, a);
    }
  }

  // march_c.  The verdict of the closing check is overwritten by the next round.
  method MarchCTest(mem: Memory, pattern0: Word, iter: nat) returns (ret: Status)
    requires mem.Valid()
    modifies mem
    ensures mem.Valid()
    ensures Outcome(mem.cells, ret == Success) == MarchC(mem.device, old(mem.cells), pattern0, iter)
  {
    var p1 := pattern0;
    ret := Success;
    FillUp(mem, p1, true);
    ghost var filled := mem.cells;
    var j := 0;
    while j < iter
      invariant j <= iter && mem.Valid()
      invariant mem.Words() == 0 ==> j == 0 && ret == Success && mem.cells == old(mem.cells)
      invariant mem.Words() > 0 && j < iter ==>
        Rounds(mem.device, filled, p1, iter) == Rounds(mem.device, mem.cells, p1, iter - j)
      invariant mem.Words() > 0 && j == iter ==>
        Rounds(mem.device, filled, p1, iter) == Outcome(mem.cells, ret == Success)
    {
      ghost var start := mem.cells;
      ret := MarchRound(mem, p1);
      if ret != Success {
        return;
      }
      ret := VerifyA(mem, p1, false);
      j := j + 1;
    }
  }

  // The five checked passes of one round.
  method MarchRound(mem: Memory, p1: Word) returns (ret: Status)
    requires mem.Valid()
    modifies mem
    ensures mem.Valid()
    ensures mem.Words() == 0 ==> ret == Fail && mem.cells == old(mem.cells)
    ensures mem.Words() > 0 ==>
      Outcome(mem.cells, ret == Success) == RoundBody(mem.device, old(mem.cells), p1)
  {
    ret := VerifyAWriteB(mem, p1, !p1, true);
    if ret != Success {
      return;
    }
    ret := VerifyAWriteB(mem, !p1, p1, true);
    if ret != Success {
      return;
    }
    ret := VerifyA(mem, p1, true);
    if ret != Success {
      return;
    }
    ret := VerifyAWriteB(mem, p1, !p1, false);
    if ret != Success {
      return;
    }
    ret := VerifyAWriteB(mem, !p1, p1, false);
  }

  // fillup.
  method OwnFill(mem: Memory)
    requires mem.Valid()
    modifies mem
    ensures mem.Valid() && mem.cells == OwnFilled(mem.device, old(mem.cells), mem.Words())
  {
    var cur, end := 0, mem.Words();
    while cur < end
      invariant cur <= end && mem.Valid() && mem.cells == OwnFilled(mem.device, old(mem.cells), cur)
    {
      mem.Write(cur, mem.device.own[cur]);
      cur := cur + 1;
    }
  }

  // verify.
  method OwnVerify(mem: Memory, compare: bool) returns (ret: Status)
    requires mem.Valid()
    ensures ret == Success <==> !compare || ReadsOwn(mem.device, mem.cells, mem.Words())
  {
    var cur, end := 0, mem.Words();
    ret := Success;
    while cur < end
      invariant cur <= end && ret == Success && (compare ==> ReadsOwn(mem.device, mem.cells, cur))
    {
      if compare {
        var w := mem.Read(cur);
        if w != mem.device.own[cur] {
          ret := Fail;
          break;
        }
      }
      cur := cur + 1;
    }
  }

  // addr_walk_own.
  method AddrWalkOwn(mem: Memory, compare: bool) returns (ret: Status)
    requires mem.Valid()
    modifies mem
    ensures mem.Valid() && mem.cells == OwnFilled(mem.device, old(mem.cells), mem.Words())
    ensures ret == Success <==> !compare || ReadsOwn(mem.device, mem.cells, mem.Words())
  {
    ret := Success;
    OwnFill(mem);
    var verdict := OwnVerify(mem, compare);
    if verdict != Success {
      ret := Fail;
    }
  }
}
