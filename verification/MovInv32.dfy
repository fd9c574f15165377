// movinv32 as test_movinv_long calls it: one moving bit, or its complement, whose
// position follows the word index upwards and then back down.
module MovInv32 {
  import opened MemoryDevice

  const UL_SIZE: int := 64
  const HIGH_BIT: Word := 0x8000_0000_0000_0000

  // `w << n` for an int n.
  function Shl(w: Word, n: nat): Word {
    if n == 0 then w else Shl(w, n - 1) << 1
  }

  // The pattern with its bit at position m; sval is 0 for a one among zeros, 1 for a
  // zero among ones.
  function Pat(sval: Word, m: nat): Word {
    if sval == 0 then Shl(1, m) else !Shl(1, m)
  }

  // ---- Shifting one bit ----

  lemma TopBit()
    ensures Shl(1, 63) == HIGH_BIT && Shl(1, 64) == 0
  {
    assert Shl(1, 2) == 0x4;
    assert Shl(1, 4) == 0x10;
    assert Shl(1, 6) == 0x40;
    assert Shl(1, 8) == 0x100;
    assert Shl(1, 10) == 0x400;
    assert Shl(1, 12) == 0x1000;
    assert Shl(1, 14) == 0x4000;
    assert Shl(1, 16) == 0x10000;
    assert Shl(1, 18) == 0x40000;
    assert Shl(1, 20) == 0x100000;
    assert Shl(1, 22) == 0x400000;
    assert Shl(1, 24) == 0x1000000;
    assert Shl(1, 26) == 0x4000000;
    assert Shl(1, 28) == 0x10000000;
    assert Shl(1, 30) == 0x40000000;
    assert Shl(1, 32) == 0x100000000;
    assert Shl(1, 34) == 0x400000000;
    assert Shl(1, 36) == 0x1000000000;
    assert Shl(1, 38) == 0x4000000000;
    assert Shl(1, 40) == 0x10000000000;
    assert Shl(1, 42) == 0x40000000000;
    assert Shl(1, 44) == 0x100000000000;
    assert Shl(1, 46) == 0x400000000000;
    assert Shl(1, 48) == 0x1000000000000;
    assert Shl(1, 50) == 0x4000000000000;
    assert Shl(1, 52) == 0x10000000000000;
    assert Shl(1, 54) == 0x40000000000000;
    assert Shl(1, 56) == 0x100000000000000;
    assert Shl(1, 58) == 0x400000000000000;
    assert Shl(1, 60) == 0x1000000000000000;
    assert Shl(1, 62) == 0x4000000000000000;
  }

  lemma {:induction false} ZeroStays(m: nat, n: nat)
    requires m <= n && Shl(1, m) == 0
    ensures Shl(1, n) == 0
  {
    if m < n {
      ZeroStays(m, n - 1);
    }
  }

  lemma {:induction false} OneBitStays(m: nat)
    requires m < 64
    ensures OneBit(Shl(1, m))
  {
    if m > 0 {
      OneBitStays(m - 1);
      if Shl(1, m) == 0 {
        ZeroStays(m, 63);
        TopBit();
      }
      ShiftOneBit(Shl(1, m - 1));
    }
  }

  lemma ShiftOneBit(x: Word)
    requires OneBit(x) && x << 1 != 0
    ensures OneBit(x << 1)
  {
  }

  function Right1(w: Word, p3: Word): Word {
    (w >> 1) | p3
  }

  lemma UnshiftOne(x: Word)
    requires OneBit(x) && x << 1 != 0
    ensures Right1(x << 1, 0) == x
  {
  }

  lemma UnshiftComplement(x: Word)
    requires OneBit(x) && x << 1 != 0
    ensures Right1(!(x << 1), HIGH_BIT) == !x
  {
  }

  lemma ComplementShifts(x: Word)
    ensures (!x << 1) | 1 == !(x << 1)
  {
  }

  // Undoing one shift, with a zero or a one coming in from above.
  lemma ShiftBackOne(m: nat)
    requires 0 < m < 64
    ensures Right1(Pat(0, m), 0) == Pat(0, m - 1)
  {
    OneBitStays(m - 1);
    OneBitStays(m);
    UnshiftOne(Shl(1, m - 1));
  }

  lemma ShiftBackZero(m: nat)
    requires 0 < m < 64
    ensures Right1(Pat(1, m), HIGH_BIT) == Pat(1, m - 1)
  {
    OneBitStays(m - 1);
    OneBitStays(m);
    UnshiftComplement(Shl(1, m - 1));
  }

  // ---- The two recurrences ----

  function Advance(pat: Word, k: int, lb: Word, sval: Word): (Word, int) {
    if k + 1 >= UL_SIZE then (lb, 0) else ((pat << 1) | sval, k + 1)
  }

  function Retreat(pat: Word, k: int, hb: Word, p3: Word): (Word, int) {
    if k - 1 <= 0 then (hb, UL_SIZE) else (Right1(pat, p3), k - 1)
  }

  lemma AdvanceFollows(sval: Word, m: nat)
    requires (sval == 0 || sval == 1) && m < 64
    ensures Advance(Pat(sval, m), m, Pat(sval, 0), sval) == (Pat(sval, (m + 1) % 64), (m + 1) % 64)
  {
    ComplementShifts(Shl(1, m));
  }

  lemma RetreatFollows(sval: Word, m: nat, hb: Word, p3: Word)
    requires (sval == 0 || sval == 1) && m < 64 && hb == Pat(sval, 63) && p3 == if sval == 0 then 0 else HIGH_BIT
    ensures Retreat(Pat(sval, m), m + 1, hb, p3) == (Pat(sval, (m + 63) % 64), (m + 63) % 64 + 1)
  {
    if m > 0 {
      assert (m + 63) % 64 == m - 1;
      if sval == 0 {
        ShiftBackOne(m);
      } else {
        ShiftBackZero(m);
      }
    }
  }

  // p3: the bit shifted in from above.
  lemma HighFill(sval: Word)
    requires sval == 0 || sval == 1
    ensures Shl(sval, 63) == if sval == 0 then 0 else HIGH_BIT
  {
    TopBit();
    ZeroShl(63);
  }

  lemma ZeroShl(n: nat)
    ensures Shl(0, n) == 0
  {
  }

  // The code that backs the pattern up between the passes.
  function BackedUp(lb: Word, sval: Word, k: nat): Word {
    if k == 0 then lb
    else if sval != 0 then Shl(lb, k) | (Shl(sval, k) - 1)
    else Shl(lb, k)
  }

  lemma {:induction false} LowOnes(k: nat)
    ensures Shl(!1, k) | (Shl(1, k) - 1) == !Shl(1, k)
  {
    if k > 0 {
      LowOnes(k - 1);
      LowOnesStep(Shl(!1, k - 1), Shl(1, k - 1));
    }
  }

  lemma LowOnesStep(l: Word, x: Word)
    requires l | (x - 1) == !x
    ensures (l << 1) | ((x << 1) - 1) == !(x << 1)
  {
  }

  lemma BackedUpFollows(sval: Word, k: nat)
    requires (sval == 0 || sval == 1) && k < 64
    ensures BackedUp(Pat(sval, 0), sval, k) == Pat(sval, k)
  {
    LowOnes(k);
  }
}
