/** Sizing and filling a ring: `power2` of `comm.c`, the index mask, and the pushes of `slot_creat`. */
module RingCreat {
  import opened Arith
  import opened Ring

  /** Bitwise and of two words. */
  function And(a: nat, b: nat): nat {
    if a == 0 then 0 else (if a % 2 == 1 && b % 2 == 1 then 1 else 0) + 2 * And(a / 2, b / 2)
  }

  predicate IsPowerOf2(v: nat)
    requires v > 0
  {
    And(v - 1, v) == 0
  }

  lemma {:induction false} AndSelf(v: nat)
    ensures And(v, v) == v
  {
    if v > 0 { AndSelf(v / 2); }
  }

  lemma {:induction false} PowerTest(v: nat)
    requires v > 0
    ensures IsPowerOf2(v) <==> exists k: nat :: v == Pow2(k)
  {
    var w := v / 2;
    if v % 2 == 0 {
      PowerTest(w);
      assert (v - 1) % 2 == 1 && (v - 1) / 2 == w - 1;
      assert IsPowerOf2(v) <==> IsPowerOf2(w);
      if IsPowerOf2(w) {
        var k: nat :| w == Pow2(k);
        assert v == Pow2(k + 1);
      }
      if exists k: nat :: v == Pow2(k) {
        var k: nat :| v == Pow2(k);
        var k': nat := k - 1;
        assert w == Pow2(k');
        assert IsPowerOf2(w);
      }
    } else {
      AndSelf(w);
      assert v == 1 ==> v == Pow2(0);
      if k: nat :| v == Pow2(k) { assert k == 0; }
    }
  }

  /** Masking with `max - 1` takes the remainder by `max`, a power of two. */
  lemma {:induction false} MaskIsRemainder(x: nat, k: nat)
    ensures And(x, Pow2(k) - 1) == x % Pow2(k)
  {
    if k == 0 {
      AndZero(x);
    } else {
      var p := Pow2(k - 1);
      HalvesOdd(p);
      MaskIsRemainder(x / 2, k - 1);
      RemainderTwice(x, p);
    }
  }

  lemma HalvesOdd(p: nat)
    requires p > 0
    ensures (2 * p - 1) % 2 == 1 && (2 * p - 1) / 2 == p - 1
  {
  }

  /** The remainder by an even number, from the last bit and the remainder of the rest. */
  lemma RemainderTwice(x: nat, p: nat)
    requires p > 0
    ensures x % (2 * p) == x % 2 + 2 * (x / 2 % p)
  {
    var h, q := x / 2, x / 2 / p;
    assert h == q * p + h % p;
    Associate(2, q, p);
    Associate(q, 2, p);
    ModUnique(x, 2 * p, q, x % 2 + 2 * (h % p));
  }

  lemma {:induction false} AndZero(x: nat)
    ensures And(x, 0) == 0
  {
    if x > 0 { AndZero(x / 2); }
  }

  /** Bit `i` of `v`. */
  predicate Bit(v: nat, i: nat) { (v / Pow2(i)) % 2 == 1 }

  lemma BitBelow(v: nat, i: nat)
    requires v < Pow2(i + 1)
    ensures Bit(v, i) <==> Pow2(i) <= v
  {
    var p := Pow2(i);
    if p <= v { ModUnique(v, p, 1, v - p); } else { ModUnique(v, p, 0, v); }
  }

  lemma {:induction false} Pow2Grows(a: nat, b: nat)
    requires a <= b
    ensures Pow2(a) <= Pow2(b)
  {
    if a < b { Pow2Grows(a, b - 1); }
  }

  /** `power2`: the least power of two not below `v`, as long as an `int` holds it; past 2^30 it comes out negative. */
  method Power2(v: nat) returns (r: int)
    requires v < 0x8000_0000
    ensures v == 0 ==> r == 0
    ensures 0 < v <= 0x4000_0000 ==> (exists k: nat :: k <= 30 && r == Pow2(k)) && v <= r && (r > 1 ==> r / 2 < v)
    ensures v > 0x4000_0000 ==> r == -0x8000_0000
  {
    hide Bit, Pow2;
    if v == 0 || IsPowerOf2(v) {
      r := v;
      if v > 0 { AlreadyPower(v); }
      return;
    }
    var idx := 0;
    for i := 0 to 32
      invariant idx < 32 && (i == 0 ==> idx == 0) && (i > 0 ==> idx < i)
      invariant forall j :: idx < j < i ==> !Bit(v, j)
      invariant idx > 0 ==> Bit(v, idx)
    {
      if Bit(v, i) {
        idx := i;
      }
    }
    r := Pow2(idx + 1);
    NextPower(v, idx);
    if r >= 0x8000_0000 {
      r := r - 0x1_0000_0000;
    }
  }

  lemma Powers()
    ensures Pow2(31) == 0x8000_0000 && Pow2(30) == 0x4000_0000
  {
    Pow2Of32();
    assert Pow2(32) == 2 * Pow2(31) && Pow2(31) == 2 * Pow2(30);
  }

  lemma AlreadyPower(v: nat)
    requires 0 < v < 0x8000_0000 && IsPowerOf2(v)
    ensures exists k: nat :: k <= 30 && v == Pow2(k)
    ensures v <= 0x4000_0000
  {
    PowerTest(v);
    Powers();
    var k: nat :| v == Pow2(k);
    if k > 30 { Pow2Grows(31, k); } else { Pow2Grows(k, 30); }
  }

  lemma NextPower(v: nat, idx: nat)
    requires 0 < v < 0x8000_0000 && !IsPowerOf2(v) && idx < 32
    requires forall j :: idx < j < 32 ==> !Bit(v, j)
    requires idx > 0 ==> Bit(v, idx)
    ensures idx <= 30 && Pow2(idx) < v <= Pow2(idx + 1) && Pow2(idx + 1) == 2 * Pow2(idx)
    ensures if v > 0x4000_0000 then Pow2(idx + 1) == 0x8000_0000 else idx <= 29 && Pow2(idx + 1) <= 0x4000_0000
  {
    Pow2Of32();
    Powers();
    HighestBit(v, idx, 32);
    PowerIsNot(v, idx);
    assert Pow2(idx + 1) == 2 * Pow2(idx);
    hide Pow2;
    Pow2Below(idx, 31);
    if v > 0x4000_0000 {
      Pow2Below(30, idx + 1);
    } else {
      Pow2Below(idx, 30);
      Pow2Grows(idx + 1, 30);
    }
  }

  lemma Pow2Below(a: nat, b: nat)
    requires Pow2(a) < Pow2(b)
    ensures a < b
  {
    if a >= b { Pow2Grows(b, a); }
  }

  lemma PowerIsNot(v: nat, idx: nat)
    requires v > 0 && !IsPowerOf2(v) && Pow2(idx) <= v
    ensures Pow2(idx) < v
  {
    PowerTest(v);
  }

  /** The bit found last is the highest. */
  lemma {:induction false} HighestBit(v: nat, idx: nat, n: nat)
    requires v > 0 && idx < n && v < Pow2(n)
    requires forall j :: idx < j < n ==> !Bit(v, j)
    requires idx > 0 ==> Bit(v, idx)
    ensures Pow2(idx) <= v < Pow2(idx + 1)
  {
    if n == idx + 1 {
      BitBelow(v, idx);
    } else {
      BitBelow(v, n - 1);
      HighestBit(v, idx, n - 1);
    }
  }

  // ---------------------------------------------------------------- filling a fresh ring

  /** One thread alone for `k` steps: only the ring and its own place change. */
  function Solo(s: Shared, p: Pc, op: Op, k: nat): (Shared, Pc)
    requires s.max > 0 && |s.data| == s.max
    decreases k
  {
    if k == 0 then (s, p) else var (s', p') := Act(s, p, op); Solo(s', p', op, k - 1)
  }

  lemma Tick(s: Shared, p: Pc, op: Op, s': Shared, p': Pc, k: nat)
    requires s.max > 0 && |s.data| == s.max && s'.max > 0 && |s'.data| == s'.max
    requires Act(s, p, op) == (s', p')
    ensures Solo(s, p, op, k + 1) == Solo(s', p', op, k)
  {
  }

  lemma Still(s: Shared, p: Pc, op: Op)
    requires s.max > 0 && |s.data| == s.max
    ensures Solo(s, p, op, 0) == (s, p)
  {
  }

  lemma SmallLo(x: nat)
    requires x < TWO_TO_THE_32
    ensures Lo(x) == x
  {
  }

  /** A ring at rest that holds `vals`, never popped from. */
  function Holding(max: nat, data: seq<Addr>, n: nat): Shared
    requires max == |data|
  {
    Shared(max, n, data, n, n, 0, 0)
  }

  /** `ring_push` by a thread alone on a ring with room: nine steps, and the value is in. */
  lemma PushesAlone(s: Shared, a: Addr)
    requires 0 < s.max == |s.data| && s.pt == s.ph < TWO_TO_THE_32 && Lo(s.max + s.ct - s.ph) >= 1
    ensures Solo(s, Idle, Push([a]), 9) == (OneMore(s, a), PushReturn([a], true))
  {
    hide Solo, Lo;
    var op, h := Push([a]), s.ph;
    SmallLo(h);
    var s1 := s.(ph := Lo(h + 1));
    var s2 := s1.(data := s.data[h % s.max := a]);
    PublishesAlone(s2, h, a);
    Tick(s1, PushCopy([a], h, 0), op, s2, PushCopy([a], h, 1), 4);
    Tick(s, PushCas([a], h, s.ct), op, s1, PushCopy([a], h, 0), 5);
    Tick(s, PushLoadTail([a], h), op, s, PushCas([a], h, s.ct), 6);
    Tick(s, PushLoadHead([a]), op, s, PushLoadTail([a], h), 7);
    Tick(s, Idle, op, s, PushLoadHead([a]), 8);
  }

  /** The ring with one more value. */
  function OneMore(s: Shared, a: Addr): Shared
    requires 0 < s.max == |s.data|
  {
    s.(ph := Lo(s.ph + 1), pt := Lo(s.ph + 1), num := Lo(s.num + 1), data := s.data[s.ph % s.max := a])
  }

  lemma PublishesAlone(s: Shared, h: nat, a: Addr)
    requires 0 < s.max == |s.data| && s.pt == h
    ensures Solo(s, PushCopy([a], h, 1), Push([a]), 4)
      == (s.(pt := Lo(h + 1), num := Lo(s.num + 1)), PushReturn([a], true))
  {
    hide Solo, Lo;
    var op := Push([a]);
    var s1 := s.(pt := Lo(h + 1));
    var s2 := s1.(num := Lo(s.num + 1));
    Still(s2, PushReturn([a], true), op);
    Tick(s1, PushTally([a]), op, s2, PushReturn([a], true), 0);
    Tick(s, PushPublish([a], h), op, s1, PushTally([a]), 1);
    Tick(s, PushAwait([a], h), op, s, PushPublish([a], h), 2);
    Tick(s, PushCopy([a], h, 1), op, s, PushAwait([a], h), 3);
  }

  lemma HoldsOneMore(max: nat, data: seq<Addr>, n: nat, a: Addr)
    requires n < max == |data| <= 0x8000_0000
    ensures Lo(max - n) >= 1 && OneMore(Holding(max, data, n), a) == Holding(max, data[n := a], n + 1)
  {
    SmallLo(n + 1);
    SmallLo(max - n);
    ModUnique(n, max, 0, n);
  }
}
