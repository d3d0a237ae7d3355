/** What an empty request can do: an empty push can turn the producers' tail back, an empty pop the consumers'. */
module RingZero {
  import opened Arith
  import opened Ring
  import opened RingCreat

  /** A schedule of the code leads from `m` to `m'`. */
  ghost predicate Reaches(m: Machine, m': Machine) {
    exists sched :: Leads(m, sched, m')
  }

  ghost predicate Leads(m: Machine, sched: seq<(nat, Op)>, m': Machine)
    decreases |sched|
  {
    if sched == [] then m' == m
    else
      && sched[0].0 < |m.ts| && m.sh.max > 0 && |m.sh.data| == m.sh.max
      && Leads(Step(m, sched[0].0, sched[0].1), sched[1..], m')
  }

  lemma {:induction false} LeadsOn(m: Machine, a: seq<(nat, Op)>, m1: Machine, b: seq<(nat, Op)>, m2: Machine)
    requires Leads(m, a, m1) && Leads(m1, b, m2)
    ensures Leads(m, a + b, m2)
    decreases |a|
  {
    if a == [] {
      assert a + b == b;
    } else {
      LeadsOn(Step(m, a[0].0, a[0].1), a[1..], m1, b, m2);
      assert (a + b)[1..] == a[1..] + b;
    }
  }

  lemma ReachesOn(m: Machine, m1: Machine, m2: Machine)
    requires Reaches(m, m1) && Reaches(m1, m2)
    ensures Reaches(m, m2)
  {
    var a :| Leads(m, a, m1);
    var b :| Leads(m1, b, m2);
    LeadsOn(m, a, m1, b, m2);
  }

  lemma CopyOne(s: Shared, head: nat, op: Op)
    requires 0 < s.max == |s.data| && head < TWO_TO_THE_32
    ensures Act(s, PopCopy(1, head, []), op) == (s, PopCopy(1, head, [s.data[head % s.max]]))
  {
    assert [] + [s.data[head % s.max]] == [s.data[head % s.max]];
    assert Lo(head) == head;
  }

  lemma {:induction false} SoloReaches(m: Machine, t: nat, op: Op, k: nat)
    requires t < |m.ts| && m.sh.max > 0 && |m.sh.data| == m.sh.max
    ensures var (s, p) := Solo(m.sh, m.ts[t], op, k);
      Reaches(m, Machine(s, m.ts[t := p]))
    decreases k
  {
    if k == 0 {
      assert Leads(m, [], m) && m.ts[t := m.ts[t]] == m.ts;
    } else {
      var m1 := Step(m, t, op);
      SoloReaches(m1, t, op, k - 1);
      var (s, p) := Solo(m.sh, m.ts[t], op, k);
      assert m1.ts[t := p] == m.ts[t := p];
      var rest :| Leads(m1, rest, Machine(s, m.ts[t := p]));
      assert ([(t, op)] + rest)[1..] == rest;
      assert Leads(m, [(t, op)] + rest, Machine(s, m.ts[t := p]));
    }
  }

  /** For every ring: an empty push that saw its turn come still stores the index it started from,
      however far others have moved the tail on since. */
  lemma EmptyPushTurnsBack(m: Machine, t: nat, op: Op)
    requires t < |m.ts| && m.sh.max > 0 && |m.sh.data| == m.sh.max
    requires m.ts[t].PushPublish? && m.ts[t].addr == [] && m.ts[t].head < m.sh.pt < TWO_TO_THE_32
    ensures Step(m, t, op).sh.pt == m.ts[t].head < m.sh.pt
  {
  }

  /** A new ring, and `n` threads before their first call. */
  function New(max: nat, n: nat): (m: Machine)
    ensures m.sh.max == |m.sh.data| == max && |m.ts| == n
  {
    Machine(Holding(max, seq(max, i => 0), 0), seq(n, i => Idle))
  }

  /** On a ring of any size: thread 0 starts pushing nothing and stops just before publishing, thread 1
      pushes the value 7, thread 2 pops it, thread 0 goes on, and thread 2 pops once more, though no second
      place was ever reserved: a value nobody pushed, or, on a ring of one slot, the value 7 again. */
  lemma EmptyPushForges(max: nat, n: nat) returns (once: Machine, twice: Machine)
    requires 1 <= max <= 0x8000_0000 && n >= 3
    ensures Reaches(New(max, n), once) && Reaches(once, twice) && once.sh.ph == twice.sh.ph == 1
    ensures once.ts == New(max, n).ts[0 := PushPublish([], 0)][1 := PushReturn([7], true)][2 := PopReturn([7])]
    ensures twice.ts == once.ts[0 := PushTally([])][2 := PopReturn([if max == 1 then 7 else 0])]
  {
    hide Solo, Reaches, Leads;
    var m0 := New(max, n);
    var data := m0.sh.data[0 := 7];
    EmptyLeg(m0.sh);
    SoloReaches(m0, 0, Push([]), 6);
    var m1 := Machine(m0.sh, m0.ts[0 := PushPublish([], 0)]);
    HoldsOneMore(max, m0.sh.data, 0, 7);
    PushesAlone(m1.sh, 7);
    SoloReaches(m1, 1, Push([7]), 9);
    var m2 := Machine(Holding(max, data, 1), m1.ts[1 := PushReturn([7], true)]);
    PopsAlone(m2.sh);
    SoloReaches(m2, 2, Pop(1), 9);
    once := Machine(Shared(max, 0, data, 1, 1, 1, 1), m2.ts[2 := PopReturn([7])]);
    ReachesOn(m0, m1, m2);
    ReachesOn(m0, m2, once);
    var m4 := TurnsBack(once);
    PopsAlone(m4.sh);
    SoloReaches(m4, 2, Pop(1), 9);
    twice := Machine(Shared(max, Lo(-1), data, 1, 0, 2, 2), m4.ts[2 := PopReturn([data[1 % max]])]);
    ReachesOn(once, m4, twice);
    assert twice.ts == once.ts[0 := PushTally([])][2 := PopReturn([if max == 1 then 7 else 0])];
  }

  /** Thread 2 returns to its caller, and thread 0 publishes its nothing. */
  lemma TurnsBack(m: Machine) returns (m': Machine)
    requires 0 < m.sh.max == |m.sh.data| && |m.ts| >= 3 && m.ts[0] == PushPublish([], 0) && m.ts[2].PopReturn?
    ensures Reaches(m, m') && m' == Machine(m.sh.(pt := 0), m.ts[2 := Idle][0 := PushTally([])])
  {
    hide Solo, Reaches, Leads;
    Still(m.sh, Idle, Pop(1));
    Tick(m.sh, m.ts[2], Pop(1), m.sh, Idle, 0);
    SoloReaches(m, 2, Pop(1), 1);
    var m1 := Machine(m.sh, m.ts[2 := Idle]);
    var s' := m.sh.(pt := 0);
    Tick(m1.sh, PushPublish([], 0), Push([]), s', PushTally([]), 0);
    Still(s', PushTally([]), Push([]));
    SoloReaches(m1, 0, Push([]), 1);
    m' := Machine(s', m1.ts[0 := PushTally([])]);
    ReachesOn(m, m1, m');
  }

  lemma EmptyLeg(s: Shared)
    requires 0 < s.max == |s.data| && s == Holding(s.max, s.data, 0)
    ensures Solo(s, Idle, Push([]), 6) == (s, PushPublish([], 0))
  {
    hide Solo;
    var op := Push([]);
    Still(s, PushPublish([], 0), op);
    Tick(s, PushAwait([], 0), op, s, PushPublish([], 0), 0);
    Tick(s, PushCopy([], 0, 0), op, s, PushAwait([], 0), 1);
    Tick(s, PushCas([], 0, 0), op, s, PushCopy([], 0, 0), 2);
    Tick(s, PushLoadTail([], 0), op, s, PushCas([], 0, 0), 3);
    Tick(s, PushLoadHead([]), op, s, PushLoadTail([], 0), 4);
    Tick(s, Idle, op, s, PushLoadHead([]), 5);
  }

  /** A thread alone pops whatever stands in the slot, as long as the word `pt - ch` is not zero. */
  lemma PopsAlone(s: Shared)
    requires 0 < s.max == |s.data| && s.ch == s.ct < TWO_TO_THE_32 && Lo(s.pt - s.ch) >= 1
    ensures Solo(s, Idle, Pop(1), 9) == (OneLess(s), PopReturn([s.data[s.ch % s.max]]))
  {
    hide Solo, Lo;
    var h := s.ch;
    var s1, x := s.(ch := Lo(h + 1)), s.data[h % s.max];
    GivesBackAlone(s1, h, x);
    CopyOne(s1, h, Pop(1));
    Tick(s1, PopCopy(1, h, []), Pop(1), s1, PopCopy(1, h, [x]), 4);
    Tick(s, PopCas(1, h, s.pt), Pop(1), s1, PopCopy(1, h, []), 5);
    Tick(s, PopLoadTail(1, h), Pop(1), s, PopCas(1, h, s.pt), 6);
    Tick(s, PopLoadHead(1), Pop(1), s, PopLoadTail(1, h), 7);
    Tick(s, Idle, Pop(1), s, PopLoadHead(1), 8);
  }

  /** The ring with one value less. */
  function OneLess(s: Shared): Shared { s.(ch := Lo(s.ch + 1), ct := Lo(s.ch + 1), num := Lo(s.num - 1)) }

  lemma GivesBackAlone(s: Shared, h: nat, x: Addr)
    requires 0 < s.max == |s.data| && s.ct == h
    ensures Solo(s, PopCopy(1, h, [x]), Pop(1), 4) == (s.(ct := Lo(h + 1), num := Lo(s.num - 1)), PopReturn([x]))
  {
    hide Solo, Lo;
    var op, out, s1 := Pop(1), [x], s.(ct := Lo(h + 1));
    var s2 := s1.(num := Lo(s.num - 1));
    Still(s2, PopReturn(out), op);
    Tick(s1, PopTally(1, out), op, s2, PopReturn(out), 0);
    Tick(s, PopPublish(1, h, out), op, s1, PopTally(1, out), 1);
    Tick(s, PopAwait(1, h, out), op, s, PopPublish(1, h, out), 2);
    Tick(s, PopCopy(1, h, out), op, s, PopAwait(1, h, out), 3);
  }

  // ---------------------------------------------------------------- empty pops

  /** The same for an empty pop and the consumers' tail. */
  lemma EmptyPopTurnsBack(m: Machine, t: nat, op: Op)
    requires t < |m.ts| && m.sh.max > 0 && |m.sh.data| == m.sh.max
    requires m.ts[t].PopPublish? && m.ts[t].n == 0 && m.ts[t].head < m.sh.ct < TWO_TO_THE_32
    ensures Step(m, t, op).sh.ct == m.ts[t].head < m.sh.ct
  {
  }

  /** A ring that looks full to every producer, and whose consumers wait for a tail nobody will store: no
      thread is about to write to it, or to hand its caller anything. */
  ghost predicate Wedged(m: Machine) {
    && 0 < m.sh.max == |m.sh.data| == m.sh.ph == m.sh.pt < TWO_TO_THE_32 && m.sh.ct == 0 && 1 <= m.sh.ch <= m.sh.max
    && forall t :: 0 <= t < |m.ts| ==> Held(m.sh, m.ts[t])
  }

  ghost predicate Held(s: Shared, p: Pc) {
    match p
    case Idle => true
    case PushLoadHead(addr) => addr != []
    case PushLoadTail(addr, head) => addr != [] && head == s.max
    case PushReturn(_, ok) => !ok
    case PopLoadHead(_) => true
    case PopLoadTail(_, head) => 1 <= head <= s.ch
    case PopCas(n, head, _) => 1 <= head <= s.ch && head + n <= s.max
    case PopCopy(_, head, _) => 1 <= head
    case PopAwait(_, head, _) => 1 <= head
    case PopTally(_, out) => out == []
    case PopReturn(out) => out == []
    case _ => false
  }

  /** Whatever is asked of whichever thread, short of an empty push, it stays so. */
  lemma WedgedStays(m: Machine, t: nat, op: Op)
    requires Wedged(m) && t < |m.ts| && op != Push([])
    ensures Wedged(Step(m, t, op))
  {
    var p, s', q := m.ts[t], Act(m.sh, m.ts[t], op).0, Act(m.sh, m.ts[t], op).1;
    assert Held(m.sh, p);
    if p.PushLoadTail? {
      assert Lo(m.sh.max + m.sh.ct - p.head) == 0 < |p.addr|;
    } else if p.PopLoadTail? {
      SmallLo(m.sh.pt - p.head);
    } else if p.PopCas? {
      SmallLo(p.head + p.n);
    }
    assert Held(s', q) && s' == m.sh.(ch := s'.ch, num := s'.num) && m.sh.ch <= s'.ch <= m.sh.max;
    hide Act, Lo;
    var ts' := m.ts[t := q];
    forall u | 0 <= u < |ts'| ensures Held(s', ts'[u]) { assert u != t ==> Held(m.sh, m.ts[u]); }
  }

  /** For ever: in no run from there is anything pushed, or anything handed to a caller. */
  lemma {:induction false} WedgedForEver(m: Machine, sched: seq<(nat, Op)>, m': Machine)
    requires Wedged(m) && Leads(m, sched, m') && forall i :: 0 <= i < |sched| ==> sched[i].1 != Push([])
    ensures Wedged(m')
    ensures forall t :: 0 <= t < |m'.ts| && m'.ts[t].PushReturn? ==> !m'.ts[t].ok
    ensures forall t :: 0 <= t < |m'.ts| && m'.ts[t].PopReturn? ==> m'.ts[t].out == []
    decreases |sched|
  {
    hide Step;
    if sched == [] {
      forall t | 0 <= t < |m'.ts| ensures Held(m'.sh, m'.ts[t]) {}
    } else {
      WedgedStays(m, sched[0].0, sched[0].1);
      WedgedForEver(Step(m, sched[0].0, sched[0].1), sched[1..], m');
    }
  }

  /** And a fresh ring of any size gets there: thread 0 starts popping nothing and stops just before
      publishing, thread 1 fills the ring, thread 2 pops one value, and thread 0 goes on. All the other
      values are left, and there they stay. */
  lemma EmptyPopWedges(max: nat, n: nat)
    requires 1 <= max <= 0x8000_0000 && n >= 3
    ensures exists m :: Reaches(New(max, n), m) && Wedged(m) && m.sh.num == max - 1
  {
    hide Solo, Reaches, Leads, Held;
    var m0 := New(max, n);
    EmptyPopLeg(m0.sh);
    SoloReaches(m0, 0, Pop(0), 6);
    var m1 := Machine(m0.sh, m0.ts[0 := PopPublish(0, 0, [])]);
    var data := Fills(max, m0.sh.data, 0, 0, m1.ts);
    var m2 := Machine(Holding(max, data, max), m1.ts);
    assert Lo(max) == max && Lo(max - 1) == max - 1 by { SmallLo(max); SmallLo(max - 1); }
    PopsAlone(m2.sh);
    SoloReaches(m2, 2, Pop(1), 9);
    var m3 := Machine(Shared(max, max - 1, data, max, max, 1, 1), m2.ts[2 := PopReturn([data[0]])]);
    Still(m3.sh, Idle, Pop(1));
    Tick(m3.sh, m3.ts[2], Pop(1), m3.sh, Idle, 0);
    SoloReaches(m3, 2, Pop(1), 1);
    var m4 := Machine(m3.sh, m3.ts[2 := Idle]);
    var s' := m4.sh.(ct := 0);
    Tick(m4.sh, PopPublish(0, 0, []), Pop(0), s', PopTally(0, []), 0);
    Still(s', PopTally(0, []), Pop(0));
    SoloReaches(m4, 0, Pop(0), 1);
    var m5 := Machine(s', m4.ts[0 := PopTally(0, [])]);
    ReachesOn(m0, m1, m2);
    ReachesOn(m0, m2, m3);
    ReachesOn(m0, m3, m4);
    ReachesOn(m0, m4, m5);
    AllHeld(m5);
  }

  /** A ring from which `c` values have been popped, and which holds `n`. */
  function After(max: nat, data: seq<Addr>, c: nat, n: nat): Shared
    requires max == |data|
  {
    Shared(max, n, data, Lo(c + n), Lo(c + n), c, c)
  }

  /** One push by thread 1, and back to its caller. */
  lemma OnePush(max: nat, data: seq<Addr>, c: nat, n: nat, ts: seq<Pc>) returns (data': seq<Addr>)
    requires n < max == |data| <= 0x8000_0000 && |ts| >= 3 && ts[1] == Idle
    ensures |data'| == max && Reaches(Machine(After(max, data, c, n), ts), Machine(After(max, data', c, n + 1), ts))
  {
    hide Solo, Reaches, Leads;
    var m := Machine(After(max, data, c, n), ts);
    data' := data[Lo(c + n) % max := 7];
    RoomFor(max, data, c, n);
    PushesAlone(m.sh, 7);
    SoloReaches(m, 1, Push([7]), 9);
    var s' := After(max, data', c, n + 1);
    var m1 := Machine(s', ts[1 := PushReturn([7], true)]);
    Still(s', Idle, Push([7]));
    Tick(s', PushReturn([7], true), Push([7]), s', Idle, 0);
    SoloReaches(m1, 1, Push([7]), 1);
    assert m1.ts[1 := Idle] == ts;
    ReachesOn(m, m1, Machine(s', ts));
  }

  lemma RoomFor(max: nat, data: seq<Addr>, c: nat, n: nat)
    requires n < max == |data| <= 0x8000_0000
    ensures Lo(max + c - Lo(c + n)) >= 1
    ensures OneMore(After(max, data, c, n), 7) == After(max, data[Lo(c + n) % max := 7], c, n + 1)
  {
    LoCollapse(max + c, c + n);
    LoCollapse(1, c + n);
    SmallLo(n + 1);
    SmallLo(max - n);
  }

  /** Thread 1, one push after the other, fills the ring. */
  lemma {:induction false} Fills(max: nat, data: seq<Addr>, c: nat, n: nat, ts: seq<Pc>) returns (data': seq<Addr>)
    requires n <= max == |data| <= 0x8000_0000 && max > 0 && |ts| >= 3 && ts[1] == Idle
    ensures |data'| == max && Reaches(Machine(After(max, data, c, n), ts), Machine(After(max, data', c, max), ts))
    decreases max - n
  {
    hide Reaches, After;
    var m := Machine(After(max, data, c, n), ts);
    data' := data;
    if n == max {
      Stays(m);
    } else {
      var data1 := OnePush(max, data, c, n, ts);
      data' := Fills(max, data1, c, n + 1, ts);
      ReachesOn(m, Machine(After(max, data1, c, n + 1), ts), Machine(After(max, data', c, max), ts));
    }
  }

  lemma Stays(m: Machine)
    ensures Reaches(m, m)
  {
    assert Leads(m, [], m);
  }

  lemma AllHeld(m: Machine)
    requires forall t :: 0 <= t < |m.ts| ==> m.ts[t] == Idle || m.ts[t] == PopTally(0, [])
    ensures forall t :: 0 <= t < |m.ts| ==> Held(m.sh, m.ts[t])
  {
  }

  lemma EmptyPopLeg(s: Shared)
    requires 0 < s.max == |s.data| && s == Holding(s.max, s.data, 0)
    ensures Solo(s, Idle, Pop(0), 6) == (s, PopPublish(0, 0, []))
  {
    hide Solo;
    var op := Pop(0);
    Still(s, PopPublish(0, 0, []), op);
    Tick(s, PopAwait(0, 0, []), op, s, PopPublish(0, 0, []), 0);
    Tick(s, PopCopy(0, 0, []), op, s, PopAwait(0, 0, []), 1);
    Tick(s, PopCas(0, 0, 0), op, s, PopCopy(0, 0, []), 2);
    Tick(s, PopLoadTail(0, 0), op, s, PopCas(0, 0, 0), 3);
    Tick(s, PopLoadHead(0), op, s, PopLoadTail(0, 0), 4);
    Tick(s, Idle, op, s, PopLoadHead(0), 5);
  }
}
