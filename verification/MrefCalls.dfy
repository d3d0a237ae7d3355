/** What the calls of `mref.c` answer, and that all of them end. */
module MrefCalls {
  import opened Mref

  /** A thread takes on the call it is given: the block allocated is live, the reference given up is its
      holder's no longer, and nothing else has changed. */
  lemma CallBegins(m: State, t: nat, op: Op)
    requires t < |m.ts| && m.ts[t].Idle?
    ensures var m' := Step(m, t, op);
      && m' == State(m'.s, m.ts[t := RdLock(op.call, op.a)]) && m'.s.table == m.s.table && m'.s.items == m.s.items
      && m'.s.live == (if op.call == Alloc then m.s.live + {op.a} else m.s.live)
      && m'.s.refs == if op.call == Dec then m.s.refs - multiset{op.a} else m.s.refs
  {
  }

  /** Counting up makes the caller a holder and counting down or looking nobody; the answer is the number of
      references there then are, held or still on their way to being given up. */
  lemma CountTells(m: State, t: nat, op: Op)
    requires Inv(m) && t < |m.ts| && m.ts[t].RdCount? && Roomy(m.s, m.ts[t]) && Allowed(m.s, m.ts[t], op)
    ensures var p, m' := m.ts[t], Step(m, t, op);
      var n := m'.s.refs[p.a] + Owed(m'.ts, p.a);
      && m'.ts[t] == RdUnlock(p.call, p.a, Some(n))
      && m'.s.refs == (if p.call == Inc then m.s.refs + multiset{p.a} else m.s.refs)
      && n == CountAt(m.s, p.a) + match p.call case Inc => 1 case Dec => -1 case _ => 0
  {
    hide Inv, Owed, Blocked;
    AtCount(m, t);
    StepKeeps(m, t, op);
    ExactCount(Step(m, t, op), m.ts[t].a);
  }

  lemma AtCount(m: State, t: nat)
    requires Inv(m) && t < |m.ts| && m.ts[t].RdCount?
    ensures var p := m.ts[t];
      && p.call != Alloc && p.a in m.s.table && m.s.table[p.a] == p.i < |m.s.items|
      && m.s.items[p.i].count < TWO_TO_THE_32
      && (p.call == Dec ==> m.s.items[p.i].count > 0) && !Blocked(m.ts, p)
  {
    var p := m.ts[t];
    assert PcOk(m.s, p) && Tabled(m.s, p.a, p.i);
    if p.call == Dec { DecFinds(m, t, p.a); }
  }

  lemma ExactCount(m: State, a: Addr)
    requires Inv(m)
    ensures m.s.refs[a] + Owed(m.ts, a) == CountAt(m.s, a)
  {
  }

  /** References are gained and given up by calls alone: no other step touches them. */
  lemma RefsStay(m: State, t: nat, op: Op)
    requires t < |m.ts| && !m.ts[t].Idle? && !m.ts[t].RdCount? && !m.ts[t].Insert?
    ensures Step(m, t, op).s.refs == m.s.refs
  {
  }

  // ---------------------------------------------------------------- every call ends

  /** At most so many steps are left of the call. */
  function Left(p: Pc): nat {
    match p
    case Idle => 0
    case RdLock(_, _) => 11
    case RdQuery(_, _) => 10
    case RdCount(_, _, _) => 9
    case RdUnlock(_, _, _) => 8
    case WrLock(_) => 7
    case WrQuery(_) => 6
    case WrCheck(_, _) => 5
    case WrDelete(_, _) => 4
    case Create(_) => 4
    case InsLock(_, _) => 3
    case GoneUnlock(_, _) => 3
    case Insert(_, _) => 2
    case Dealloc(_, _) => 2
    case WrUnlock(_) => 1
    case FreeItem(_, _) => 1
    case InsRefused(_, _) => 0
    case InsFree(_, _) => 0
  }

  ghost function AllLeft(ts: seq<Pc>): nat { if ts == [] then 0 else Left(ts[0]) + AllLeft(ts[1..]) }

  lemma {:induction false} LeftMoves(ts: seq<Pc>, t: nat, q: Pc)
    requires t < |ts|
    ensures AllLeft(ts[t := q]) + Left(ts[t]) == AllLeft(ts) + Left(q)
  {
    if t == 0 {
      assert ts[0 := q][1..] == ts[1..];
    } else {
      assert ts[t := q][1..] == ts[1..][t - 1 := q];
      LeftMoves(ts[1..], t - 1, q);
    }
  }

  /** A step of a thread inside a call, unless it waits for a lock, brings all calls together nearer their end. */
  lemma CallsEnd(m: State, t: nat, op: Op)
    requires Inv(m) && t < |m.ts| && !m.ts[t].Idle? && !Blocked(m.ts, m.ts[t])
    ensures AllLeft(Step(m, t, op).ts) < AllLeft(m.ts)
  {
    var q := Step(m, t, op).ts[t];
    assert PcOk(m.s, m.ts[t]);
    LeftMoves(m.ts, t, q);
  }

  /** No step of the run is a new call or a wait. */
  ghost predicate Busy(m: State, sched: seq<(nat, Op)>)
    requires Playable(m, sched)
    decreases |sched|
  {
    sched == [] ||
    (&& !m.ts[sched[0].0].Idle? && !Blocked(m.ts, m.ts[sched[0].0])
     && Busy(Step(m, sched[0].0, sched[0].1), sched[1..]))
  }

  /** Such runs end: eleven steps a thread are the most there can be. */
  lemma {:induction false} RunEnds(m: State, sched: seq<(nat, Op)>)
    requires Inv(m) && Playable(m, sched) && Busy(m, sched)
    ensures |sched| <= AllLeft(m.ts) <= 11 * |m.ts|
    decreases |sched|
  {
    hide Inv, Step, Allowed, Roomy, Blocked, Left;
    AtMost(m.ts);
    if sched != [] {
      var t, op := sched[0].0, sched[0].1;
      CallsEnd(m, t, op);
      StepKeeps(m, t, op);
      RunEnds(Step(m, t, op), sched[1..]);
    }
  }

  lemma {:induction false} AtMost(ts: seq<Pc>)
    ensures AllLeft(ts) <= 11 * |ts|
  {
    if ts != [] { AtMost(ts[1..]); }
  }

  /** And while some thread is inside a call, there is one that does not wait. */
  lemma SomeoneMoves(m: State)
    requires exists t :: 0 <= t < |m.ts| && !m.ts[t].Idle?
    ensures exists t :: 0 <= t < |m.ts| && !m.ts[t].Idle? && !Blocked(m.ts, m.ts[t])
  {
    var t :| 0 <= t < |m.ts| && !m.ts[t].Idle?;
    if Blocked(m.ts, m.ts[t]) {
      assert exists u ::
          0 <= u < |m.ts| && (Reading(m.ts[u]) || Writing(m.ts[u])) && Slot(m.ts[u].a) == Slot(m.ts[t].a);
      var u :| 0 <= u < |m.ts| && (Reading(m.ts[u]) || Writing(m.ts[u])) && Slot(m.ts[u].a) == Slot(m.ts[t].a);
      assert !Blocked(m.ts, m.ts[u]);
    }
  }
}
