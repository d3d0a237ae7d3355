/** Why a count must not pass the largest 32-bit word: a block is given back while 2^32 references are held. */
module MrefWrap {
  import opened Mref

  /** The step of the code keeps the invariant exactly when it does not count up past the largest word. */
  lemma KeepsExactly(m: State, t: nat, op: Op)
    requires Inv(m) && t < |m.ts| && Allowed(m.s, m.ts[t], op)
    ensures Inv(Step(m, t, op)) <==> Roomy(m.s, m.ts[t])
  {
    if Roomy(m.s, m.ts[t]) {
      StepKeeps(m, t, op);
    } else {
      WrapBreaks(m, t, op);
    }
  }

  lemma WrapBreaks(m: State, t: nat, op: Op)
    requires Inv(m) && t < |m.ts| && !Roomy(m.s, m.ts[t])
    ensures !Inv(Step(m, t, op))
  {
    var p, m' := m.ts[t], Step(m, t, op);
    assert PcOk(m.s, p) && Tabled(m.s, p.a, p.i);
    assert CountAt(m'.s, p.a) == 0 && m'.s.refs[p.a] > 0;
    hide PcOk, Act, Step;
    var a := p.a;
    assert m'.s.refs[a] + Owed(m'.ts, a) != CountAt(m'.s, a);
  }

  // ---------------------------------------------------------------- runs of one thread

  ghost predicate Leads(m: State, sched: seq<Op>, m': State)
    requires m.ts != []
    decreases |sched|
  {
    if sched == [] then m' == m
    else Allowed(m.s, m.ts[0], sched[0]) && Leads(Step(m, 0, sched[0]), sched[1..], m')
  }

  /** Thread 0 of `n` stands at `p`, the others have not called anything. */
  function Alone(n: nat, s: Store, p: Pc): State { State(s, seq(n, i => if i == 0 then p else Idle)) }

  ghost predicate Reaches(n: nat, s: Store, p: Pc, s': Store, p': Pc)
    requires n > 0
  {
    exists sched :: Leads(Alone(n, s, p), sched, Alone(n, s', p'))
  }

  lemma Stays(n: nat, s: Store, p: Pc)
    requires n > 0
    ensures Reaches(n, s, p, s, p)
  {
    assert Leads(Alone(n, s, p), [], Alone(n, s, p));
  }

  lemma StepIs(n: nat, s: Store, p: Pc, op: Op)
    requires n > 0
    ensures Step(Alone(n, s, p), 0, op) == Alone(n, Act(s, p, op).0, Act(s, p, op).1)
  {
    var m, m' := Alone(n, s, p), Alone(n, Act(s, p, op).0, Act(s, p, op).1);
    assert !Blocked(m.ts, p);
    hide Act;
    assert m.ts[0 := m'.ts[0]] == m'.ts;
  }

  /** One step, and then on. */
  lemma Moves(n: nat, s: Store, p: Pc, op: Op, s1: Store, p1: Pc, s2: Store, p2: Pc)
    requires n > 0 && Act(s, p, op) == (s1, p1) && Allowed(s, p, op) && Reaches(n, s1, p1, s2, p2)
    ensures Reaches(n, s, p, s2, p2)
  {
    StepIs(n, s, p, op);
    var sched :| Leads(Alone(n, s1, p1), sched, Alone(n, s2, p2));
    hide Act, Step, Allowed;
    assert ([op] + sched)[1..] == sched;
    assert Leads(Alone(n, s, p), [op] + sched, Alone(n, s2, p2));
  }

  // ---------------------------------------------------------------- a count that wraps

  /** Block 1 in the table with count `c`, and `r` references held. */
  function Held(c: nat, r: nat): Store {
    Store(map[1 := 0], [Item(1, c, false, false)], {1}, multiset{}[1 := r])
  }

  lemma OnlyItem(x: Item, c: nat)
    ensures SetCount([x], 0, c) == [x.(count := c)]
    ensures SetGiven([x], 0) == [x.(given := true)] && SetFreed([x], 0) == [x.(freed := true)]
  {
  }

  /** `mref_inc`, five steps, and then on. */
  lemma Incs(n: nat, c: nat, r: nat, s2: Store)
    requires n > 0 && Reaches(n, Held(Word(c + 1), r + 1), Idle, s2, Idle)
    ensures Reaches(n, Held(c, r), Idle, s2, Idle)
  {
    hide Reaches, Word;
    var s, s1, op := Held(c, r), Held(Word(c + 1), r + 1), Op(Inc, 1);
    assert s.refs + multiset{1} == s1.refs;
    OnlyItem(s.items[0], Word(c + 1));
    hide SetCount;
    Moves(n, s1, RdUnlock(Inc, 1, Some(Word(c + 1))), op, s1, Idle, s2, Idle);
    Moves(n, s, RdCount(Inc, 1, 0), op, s1, RdUnlock(Inc, 1, Some(Word(c + 1))), s2, Idle);
    Moves(n, s, RdQuery(Inc, 1), op, s, RdCount(Inc, 1, 0), s2, Idle);
    Moves(n, s, RdLock(Inc, 1), op, s, RdQuery(Inc, 1), s2, Idle);
    Moves(n, s, Idle, op, s, RdLock(Inc, 1), s2, Idle);
  }

  /** Up to the largest word. */
  lemma {:induction false} IncsUp(n: nat, c: nat, s2: Store)
    requires n > 0 && c < TWO_TO_THE_32
    requires Reaches(n, Held(TWO_TO_THE_32 - 1, TWO_TO_THE_32 - 1), Idle, s2, Idle)
    ensures Reaches(n, Held(c, c), Idle, s2, Idle)
    decreases TWO_TO_THE_32 - c
  {
    hide Reaches, Held;
    if c < TWO_TO_THE_32 - 1 {
      IncsUp(n, c + 1, s2);
      assert Word(c + 1) == c + 1;
      Incs(n, c, c, s2);
    }
  }

  /** `mref_dec` of a count of one, whatever is held: the block goes back to its pool. */
  lemma LastDec(n: nat, r: nat)
    requires n > 0 && r > 0
    ensures Reaches(n, Held(1, r), Idle, Gone(r - 1), Idle)
  {
    hide Reaches, SetCount;
    var s0, s1, s2, op := Held(1, r), Held(1, r - 1), Held(0, r - 1), Op(Dec, 1);
    GivenBack(n, r - 1);
    OnlyItem(Item(1, 1, false, false), 0);
    assert s0.refs - multiset{1} == s1.refs && Word(1 - 1) == 0;
    var s5 := Gone(r - 1);
    Moves(n, s1, RdCount(Dec, 1, 0), op, s2, RdUnlock(Dec, 1, Some(0)), s5, Idle);
    Moves(n, s1, RdQuery(Dec, 1), op, s1, RdCount(Dec, 1, 0), s5, Idle);
    Moves(n, s1, RdLock(Dec, 1), op, s1, RdQuery(Dec, 1), s5, Idle);
    Moves(n, s0, Idle, op, s1, RdLock(Dec, 1), s5, Idle);
  }

  /** The store once the block and its entry are gone. */
  function Gone(r: nat): Store { Store(map[], [Item(1, 0, true, true)], {}, multiset{}[1 := r]) }

  lemma GivenBack(n: nat, r: nat)
    requires n > 0
    ensures Reaches(n, Held(0, r), RdUnlock(Dec, 1, Some(0)), Gone(r), Idle)
  {
    hide Reaches;
    var s2, op := Held(0, r), Op(Dec, 1);
    var s3 := s2.(table := map[]);
    assert s2.table - {1} == map[];
    Freed(n, r);
    Moves(n, s2, WrDelete(1, 0), op, s3, GoneUnlock(1, 0), Gone(r), Idle);
    Moves(n, s2, WrCheck(1, 0), op, s2, WrDelete(1, 0), Gone(r), Idle);
    Moves(n, s2, WrQuery(1), op, s2, WrCheck(1, 0), Gone(r), Idle);
    Moves(n, s2, WrLock(1), op, s2, WrQuery(1), Gone(r), Idle);
    Moves(n, s2, RdUnlock(Dec, 1, Some(0)), op, s2, WrLock(1), Gone(r), Idle);
  }

  lemma Freed(n: nat, r: nat)
    requires n > 0
    ensures Reaches(n, Held(0, r).(table := map[]), GoneUnlock(1, 0), Gone(r), Idle)
  {
    hide Reaches, SetGiven, SetFreed;
    var s3, op := Held(0, r).(table := map[]), Op(Dec, 1);
    var s4 := s3.(items := [Item(1, 0, true, false)], live := {});
    OnlyItem(s3.items[0], 0);
    OnlyItem(s4.items[0], 0);
    assert s3.live - {1} == {};
    Stays(n, Gone(r), Idle);
    Moves(n, s4, FreeItem(1, 0), op, Gone(r), Idle, Gone(r), Idle);
    Moves(n, s3, Dealloc(1, 0), op, s4, FreeItem(1, 0), Gone(r), Idle);
    Moves(n, s3, GoneUnlock(1, 0), op, s3, Dealloc(1, 0), Gone(r), Idle);
  }

  /** `mref_alloc` on an empty table, and then on. */
  lemma Allocs(n: nat, s2: Store)
    requires n > 0 && Reaches(n, Held(1, 1), Idle, s2, Idle)
    ensures Reaches(n, Start(n).s, Idle, s2, Idle)
  {
    hide Reaches;
    var s, op := Start(n).s, Op(Alloc, 1);
    var s0 := s.(live := {1});
    var s1 := s0.(items := [Item(1, 1, false, false)]);
    var s3 := Held(1, 1);
    assert s.refs + multiset{1} == s3.refs && s.live + {1} == {1} && [] + s1.items == s1.items;
    assert map[][1 := 0] == map[1 := 0];
    Moves(n, s3, WrUnlock(1), op, s3, Idle, s2, Idle);
    Moves(n, s1, Insert(1, 0), op, s3, WrUnlock(1), s2, Idle);
    Moves(n, s1, InsLock(1, 0), op, s1, Insert(1, 0), s2, Idle);
    Moves(n, s0, Create(1), op, s1, InsLock(1, 0), s2, Idle);
    Moves(n, s0, RdUnlock(Alloc, 1, None), op, s0, Create(1), s2, Idle);
    Moves(n, s0, RdQuery(Alloc, 1), op, s0, RdUnlock(Alloc, 1, None), s2, Idle);
    Moves(n, s0, RdLock(Alloc, 1), op, s0, RdQuery(Alloc, 1), s2, Idle);
    Moves(n, s, Idle, op, s0, RdLock(Alloc, 1), s2, Idle);
  }

  /** One thread allocates a block, takes 2^32 more references, which leaves the count 1, and gives one
      up: the block is back in its pool, with 2^32 references to it still held. */
  lemma WrapLosesBlock(n: nat)
    requires n > 0
    ensures exists s :: Reaches(n, Start(n).s, Idle, s, Idle) && 1 !in s.live && s.refs[1] == TWO_TO_THE_32
  {
    hide Reaches, Held;
    var s := Gone(TWO_TO_THE_32);
    LastDec(n, TWO_TO_THE_32 + 1);
    assert Word(0 + 1) == 1 && Word(TWO_TO_THE_32 - 1 + 1) == 0;
    Incs(n, 0, TWO_TO_THE_32, s);
    Incs(n, TWO_TO_THE_32 - 1, TWO_TO_THE_32 - 1, s);
    IncsUp(n, 1, s);
    Allocs(n, s);
  }
}
