/** The bits of a word, as the shift and mask operators of C read and write them. */
module Bits {
  import opened Arith

  /** `w & (1 << i)`. */
  predicate Bit(w: nat, i: nat) { if i == 0 then w % 2 == 1 else Bit(w / 2, i - 1) }

  /** `w | (1 << i)`. */
  function SetBit(w: nat, i: nat): nat { if i == 0 then w - w % 2 + 1 else w % 2 + 2 * SetBit(w / 2, i - 1) }

  /** `w & ~(1 << i)`. */
  function ClearBit(w: nat, i: nat): nat { if i == 0 then w - w % 2 else w % 2 + 2 * ClearBit(w / 2, i - 1) }

  /** `w >> k`. */
  function Shr(w: nat, k: nat): nat { if k == 0 then w else Shr(w / 2, k - 1) }

  /** `(1 << n) - 1`. */
  function Ones(n: nat): nat { Pow2(n) - 1 }

  lemma {:induction false} SetBitIs(w: nat, i: nat, j: nat)
    ensures Bit(SetBit(w, i), j) <==> j == i || Bit(w, j)
    decreases i
  {
    if i > 0 {
      assert SetBit(w, i) / 2 == SetBit(w / 2, i - 1);
      if j > 0 { SetBitIs(w / 2, i - 1, j - 1); }
    } else {
      assert SetBit(w, 0) / 2 == w / 2;
    }
  }

  lemma {:induction false} ClearBitIs(w: nat, i: nat, j: nat)
    ensures Bit(ClearBit(w, i), j) <==> j != i && Bit(w, j)
    decreases i
  {
    if i > 0 {
      assert ClearBit(w, i) / 2 == ClearBit(w / 2, i - 1);
      if j > 0 { ClearBitIs(w / 2, i - 1, j - 1); }
    } else {
      assert ClearBit(w, 0) / 2 == w / 2;
    }
  }

  lemma {:induction false} StaysSmall(w: nat, i: nat, n: nat)
    requires w < Pow2(n) && i < n
    ensures SetBit(w, i) < Pow2(n) && ClearBit(w, i) < Pow2(n)
    decreases i
  {
    if i > 0 { StaysSmall(w / 2, i - 1, n - 1); }
  }

  ghost predicate AllOn(w: nat, n: nat) { forall i :: 0 <= i < n ==> Bit(w, i) }

  ghost predicate AllOff(w: nat, n: nat) { forall i :: 0 <= i < n ==> !Bit(w, i) }

  /** A word of `n` bits is all ones exactly when every bit is set, and zero when none is. */
  lemma AllOrNone(w: nat, n: nat)
    requires w < Pow2(n)
    ensures w == Ones(n) <==> AllOn(w, n)
    ensures w == 0 <==> AllOff(w, n)
  {
    OnesOn(n);
    if AllOn(w, n) { AllSet(w, n); }
    if AllOff(w, n) { NoneSet(w, n); }
  }

  lemma OnesOn(n: nat)
    ensures AllOn(Ones(n), n) && AllOff(0, n)
  {
    forall i: nat | i < n ensures Bit(Ones(n), i) { OnesBit(n, i); }
    forall i: nat | i < n ensures !Bit(0, i) { OnesBit(0, i); }
  }

  lemma {:induction false} AllSet(w: nat, n: nat)
    requires w < Pow2(n) && AllOn(w, n)
    ensures w == Ones(n)
  {
    if n > 0 {
      forall i | 0 <= i < n - 1 ensures Bit(w / 2, i) { assert Bit(w, i + 1); }
      AllSet(w / 2, n - 1);
      assert Bit(w, 0);
    }
  }

  lemma {:induction false} NoneSet(w: nat, n: nat)
    requires w < Pow2(n) && AllOff(w, n)
    ensures w == 0
  {
    if n > 0 {
      forall i | 0 <= i < n - 1 ensures !Bit(w / 2, i) { assert !Bit(w, i + 1); }
      NoneSet(w / 2, n - 1);
      assert !Bit(w, 0);
    }
  }

  lemma {:induction false} ShrBit(w: nat, k: nat, i: nat)
    ensures Bit(Shr(w, k), i) <==> Bit(w, k + i)
    decreases k
  {
    if k > 0 { ShrBit(w / 2, k - 1, i); }
  }

  lemma {:induction false} ShrSmall(w: nat, k: nat, n: nat)
    requires k <= n
    ensures Shr(w, k) < Pow2(n - k) <==> w < Pow2(n)
    decreases k
  {
    if k > 0 { ShrSmall(w / 2, k - 1, n - 1); }
  }

  lemma {:induction false} OnesBit(n: nat, i: nat)
    ensures Bit(Ones(n), i) <==> i < n
    decreases n, i
  {
    if n > 0 {
      assert Ones(n) == 2 * Ones(n - 1) + 1;
      if i > 0 { OnesBit(n - 1, i - 1); }
    } else if i > 0 {
      OnesBit(0, i - 1);
    }
  }

  /** The low `k` bits. */
  function Low(w: nat, k: nat): nat { if k == 0 then 0 else w % 2 + 2 * Low(w / 2, k - 1) }

  lemma LowJoins(b: nat, w: nat, k: nat)
    requires b < 2 && k > 0
    ensures Low(b + 2 * w, k) == b + 2 * Low(w, k - 1)
  {
    assert (b + 2 * w) / 2 == w && (b + 2 * w) % 2 == b;
  }

  lemma BitAbove(w: nat, i: nat)
    requires i > 0
    ensures SetBit(w, i) == w % 2 + 2 * SetBit(w / 2, i - 1) && ClearBit(w, i) == w % 2 + 2 * ClearBit(w / 2, i - 1)
    ensures w == w % 2 + 2 * (w / 2)
  {
  }

  /** Writing a bit at place `k` or above leaves the low bits alone. */
  lemma {:induction false} LowKept(w: nat, k: nat, i: nat)
    requires k <= i
    ensures Low(SetBit(w, i), k) == Low(w, k) == Low(ClearBit(w, i), k)
    decreases k
  {
    hide *;
    if k > 0 {
      BitAbove(w, i);
      LowJoins(w % 2, w / 2, k);
      LowJoins(w % 2, SetBit(w / 2, i - 1), k);
      LowJoins(w % 2, ClearBit(w / 2, i - 1), k);
      LowKept(w / 2, k - 1, i - 1);
    } else {
      LowNone(w);
      LowNone(SetBit(w, i));
      LowNone(ClearBit(w, i));
    }
  }

  lemma LowNone(w: nat)
    ensures Low(w, 0) == 0
  {
  }

  /** `w & 0xf`. */
  lemma LowFour(w: nat)
    ensures Low(w, 4) == w % 16
  {
    hide Low;
    LowJoins(w % 2, w / 2, 4);
    LowJoins(w / 2 % 2, w / 2 / 2, 3);
    LowJoins(w / 2 / 2 % 2, w / 2 / 2 / 2, 2);
    LowOne(w / 2 / 2 / 2);
    Halves(w);
    Halves(w / 2);
    Halves(w / 2 / 2);
  }

  lemma LowOne(w: nat)
    ensures Low(w, 1) == w % 2
  {
  }

  lemma Halves(w: nat)
    ensures w % 2 + 2 * (w / 2 % 2) == w % 4
    ensures w % 2 + 2 * (w / 2 % 4) == w % 8
    ensures w % 2 + 2 * (w / 2 % 8) == w % 16
  {
    var h := w / 2;
    InFour(h / 2, w % 2 + 2 * (h % 2));
    InEight(h / 4, w % 2 + 2 * (h % 4));
    InSixteen(h / 8, w % 2 + 2 * (h % 8));
  }

  lemma InFour(q: nat, r: nat)
    requires r < 4
    ensures (4 * q + r) % 4 == r
  {
  }

  lemma InEight(q: nat, r: nat)
    requires r < 8
    ensures (8 * q + r) % 8 == r
  {
  }

  lemma InSixteen(q: nat, r: nat)
    requires r < 16
    ensures (16 * q + r) % 16 == r
  {
  }
}
