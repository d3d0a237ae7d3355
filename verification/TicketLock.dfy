/** The ticket lock of `ticket_lock.h`, as the atomic steps of any number of threads.

    `Step` does what the code does, with both counters 16-bit words.  `Track` takes the same steps on
    counters that never wrap, and remembers who took each ticket and who entered. */
module TicketLock {
  const WORD := 0x1_0000

  function Low(n: nat): nat { n % WORD }

  /** A thread is outside, waits with its ticket, or is inside. */
  datatype Pc = Outside | Waits(mine: nat) | Inside(mine: nat)

  datatype Lock = Lock(ticket: nat, owner: nat, ts: seq<Pc>)

  /** One step of thread `t`: `xadd`, one comparison of the waiting loop, or `inc`. */
  function Step(m: Lock, t: nat): Lock
    requires t < |m.ts|
  {
    match m.ts[t]
    case Outside => Lock(Low(m.ticket + 1), m.owner, m.ts[t := Waits(m.ticket)])
    case Waits(mine) => if mine == m.owner then m.(ts := m.ts[t := Inside(mine)]) else m
    case Inside(_) => Lock(m.ticket, Low(m.owner + 1), m.ts[t := Outside])
  }

  // ---------------------------------------------------------------- the same steps, tracked

  /** `who[n]` took ticket `n`; `entered` lists the threads in the order they came in. */
  datatype Tracked = Tracked(m: Lock, who: seq<nat>, entered: seq<nat>)

  function Track(s: Tracked, t: nat): Tracked
    requires t < |s.m.ts|
  {
    match s.m.ts[t]
    case Outside => Tracked(Lock(s.m.ticket + 1, s.m.owner, s.m.ts[t := Waits(s.m.ticket)]), s.who + [t], s.entered)
    case Waits(mine) =>
      if Low(mine) == Low(s.m.owner) then s.(m := s.m.(ts := s.m.ts[t := Inside(mine)]), entered := s.entered + [t])
        else s
    case Inside(_) => s.(m := Lock(s.m.ticket, s.m.owner + 1, s.m.ts[t := Outside]))
  }

  function ResiduePc(p: Pc): Pc {
    match p case Outside => Outside case Waits(n) => Waits(Low(n)) case Inside(n) => Inside(Low(n))
  }

  /** The 16-bit words behind the unbounded counters. */
  function Residue(m: Lock): (r: Lock)
    ensures |r.ts| == |m.ts|
  {
    Lock(Low(m.ticket), Low(m.owner), seq(|m.ts|, i requires 0 <= i < |m.ts| => ResiduePc(m.ts[i])))
  }

  /** Every step of the code is the tracked step seen through `Residue`. */
  lemma TrackIsStep(s: Tracked, t: nat)
    requires t < |s.m.ts|
    ensures Residue(Track(s, t).m) == Step(Residue(s.m), t)
  {
    assert Residue(Track(s, t).m).ts == Step(Residue(s.m), t).ts;
  }

  // ---------------------------------------------------------------- the invariant

  predicate Busy(p: Pc) { !p.Outside? }

  function Count(ts: seq<Pc>): nat {
    if ts == [] then 0 else (if Busy(ts[0]) then 1 else 0) + Count(ts[1..])
  }

  lemma {:induction false} CountMoves(ts: seq<Pc>, t: nat, p: Pc)
    requires t < |ts|
    ensures Count(ts[t := p]) + (if Busy(ts[t]) then 1 else 0) == Count(ts) + (if Busy(p) then 1 else 0)
  {
    if t == 0 {
      assert ts[0 := p][1..] == ts[1..];
    } else {
      assert ts[t := p][1..] == ts[1..][t - 1 := p];
      CountMoves(ts[1..], t - 1, p);
    }
  }

  /** The tickets of the busy threads are those between the counters, each its taker's. */
  ghost predicate TicketsOk(s: Tracked) {
    && s.m.owner <= s.m.ticket == |s.who|
    && (forall t :: 0 <= t < |s.m.ts| && Busy(s.m.ts[t]) ==>
          s.m.owner <= s.m.ts[t].mine < s.m.ticket && s.who[s.m.ts[t].mine] == t)
    && (forall n :: s.m.owner <= n < s.m.ticket ==>
          s.who[n] < |s.m.ts| && Busy(s.m.ts[s.who[n]]) && s.m.ts[s.who[n]].mine == n)
  }

  /** Whoever is inside has the ticket being served; the entries so far are the tickets served. */
  ghost predicate ServedOk(s: Tracked) {
    && (forall t :: 0 <= t < |s.m.ts| && s.m.ts[t].Inside? ==> s.m.ts[t].mine == s.m.owner)
    && s.m.owner <= |s.entered| <= s.m.owner + 1 && |s.entered| <= |s.who| && s.entered == s.who[..|s.entered|]
    && (|s.entered| == s.m.owner + 1 <==>
          s.m.owner < |s.who| && s.who[s.m.owner] < |s.m.ts| && s.m.ts[s.who[s.m.owner]].Inside?)
  }

  ghost predicate Inv(s: Tracked) {
    TicketsOk(s) && ServedOk(s) && Count(s.m.ts) == s.m.ticket - s.m.owner <= WORD
  }

  /** A thread takes a ticket only while fewer than 2^16 threads hold one. */
  predicate NotCrowded(s: Tracked, t: nat)
    requires t < |s.m.ts|
  {
    s.m.ts[t].Outside? ==> Count(s.m.ts) < WORD
  }

  lemma SameWord(a: nat, b: nat)
    requires a <= b < a + WORD && Low(a) == Low(b)
    ensures a == b
  {
  }

  lemma TicketsKept(s: Tracked, t: nat)
    requires Inv(s) && t < |s.m.ts|
    ensures TicketsOk(Track(s, t))
  {
    var p := s.m.ts[t];
    if p.Waits? && Low(p.mine) == Low(s.m.owner) { SameWord(s.m.owner, p.mine); }
    hide Count, Low;
  }

  lemma ServedKept(s: Tracked, t: nat)
    requires Inv(s) && t < |s.m.ts|
    ensures ServedOk(Track(s, t))
  {
    var p := s.m.ts[t];
    if p.Waits? && Low(p.mine) == Low(s.m.owner) { SameWord(s.m.owner, p.mine); }
    hide Count, Low;
  }

  /** Every step of every thread keeps the invariant. */
  lemma StepKeeps(s: Tracked, t: nat)
    requires Inv(s) && t < |s.m.ts| && NotCrowded(s, t)
    ensures Inv(Track(s, t))
  {
    hide TicketsOk, ServedOk, Count, Low;
    TicketsKept(s, t);
    ServedKept(s, t);
    CountMoves(s.m.ts, t, Track(s, t).m.ts[t]);
  }

  /** Mutual exclusion. */
  lemma OneInside(s: Tracked, t: nat, u: nat)
    requires Inv(s) && t < |s.m.ts| && u < |s.m.ts| && s.m.ts[t].Inside? && s.m.ts[u].Inside?
    ensures t == u
  {
  }

  /** First come, first served: the threads have entered in the order they took their tickets, and the
      next to enter is the first of those waiting. */
  lemma InOrder(s: Tracked, t: nat)
    requires Inv(s) && t < |s.m.ts| && NotCrowded(s, t)
    ensures s.entered == s.who[..|s.entered|]
    ensures s.m.ts[t].Waits? && Track(s, t).m.ts[t].Inside? ==> |s.entered| < |s.who| && s.who[|s.entered|] == t
  {
    var p := s.m.ts[t];
    if p.Waits? && Low(p.mine) == Low(s.m.owner) { SameWord(s.m.owner, p.mine); }
  }

  /** While anybody waits, somebody is inside or the first in line can enter at once. */
  lemma SomeoneMoves(s: Tracked)
    requires Inv(s) && s.m.owner < s.m.ticket
    ensures s.who[s.m.owner] < |s.m.ts| && Busy(s.m.ts[s.who[s.m.owner]])
    ensures Track(s, s.who[s.m.owner]) != s
  {
  }

  // ---------------------------------------------------------------- runs

  ghost predicate Playable(s: Tracked, sched: seq<nat>)
    decreases |sched|
  {
    sched == [] || (sched[0] < |s.m.ts| && NotCrowded(s, sched[0]) && Playable(Track(s, sched[0]), sched[1..]))
  }

  ghost function Run(s: Tracked, sched: seq<nat>): Tracked
    requires Playable(s, sched)
    decreases |sched|
  {
    if sched == [] then s else Run(Track(s, sched[0]), sched[1..])
  }

  ghost predicate Follows(m: Lock, sched: seq<nat>, m': Lock)
    decreases |sched|
  {
    if sched == [] then m' == m else sched[0] < |m.ts| && Follows(Step(m, sched[0]), sched[1..], m')
  }

  /** Over every run that is never crowded the code stays within the invariant. */
  lemma {:induction false} RunKeeps(s: Tracked, sched: seq<nat>)
    requires Inv(s) && Playable(s, sched)
    ensures Inv(Run(s, sched)) && Follows(Residue(s.m), sched, Residue(Run(s, sched).m))
    decreases |sched|
  {
    if sched != [] {
      StepKeeps(s, sched[0]);
      TrackIsStep(s, sched[0]);
      hide Inv, Track, Step, NotCrowded;
      RunKeeps(Track(s, sched[0]), sched[1..]);
    }
  }

  function Start(n: nat): Tracked { Tracked(Lock(0, 0, seq(n, i => Outside)), [], []) }

  lemma {:induction false} NobodyBusy(n: nat)
    ensures Count(seq(n, i => Outside)) == 0
  {
    if n > 0 {
      assert seq(n, i => Outside)[1..] == seq(n - 1, i => Outside);
      NobodyBusy(n - 1);
    }
  }

  lemma StartIsSound(n: nat)
    ensures Inv(Start(n)) && Residue(Start(n).m) == Start(n).m
  {
    NobodyBusy(n);
    assert Residue(Start(n).m).ts == Start(n).m.ts;
  }

  // ---------------------------------------------------------------- one thread too many

  /** `k` of `n` threads have taken a ticket, in order, from a fresh lock. */
  function AfterTakes(n: nat, k: nat): Lock
    requires k <= n
  {
    Lock(Low(k), 0, seq(n, i => if 0 <= i < k then Waits(Low(i)) else Outside))
  }

  lemma {:induction false} Takes(n: nat, k: nat)
    requires k <= n
    ensures Follows(AfterTakes(n, 0), seq(k, i => i), AfterTakes(n, k))
  {
    TakesFrom(n, 0, k);
    assert seq(k, i => 0 + i) == seq(k, i => i);
  }

  lemma OneTake(n: nat, j: nat)
    requires j < n
    ensures j < |AfterTakes(n, j).ts| && Step(AfterTakes(n, j), j) == AfterTakes(n, j + 1)
  {
    assert Step(AfterTakes(n, j), j).ts == AfterTakes(n, j + 1).ts;
  }

  lemma {:induction false} TakesFrom(n: nat, j: nat, k: nat)
    requires j <= k <= n
    ensures Follows(AfterTakes(n, j), seq(k - j, i => j + i), AfterTakes(n, k))
    decreases k - j
  {
    if j < k {
      var sched := seq(k - j, i => j + i);
      assert sched[1..] == seq(k - (j + 1), i => j + 1 + i);
      OneTake(n, j);
      hide Step, AfterTakes;
      TakesFrom(n, j + 1, k);
    }
  }

  lemma {:induction false} FollowsOn(m: Lock, a: seq<nat>, m1: Lock, b: seq<nat>, m2: Lock)
    requires Follows(m, a, m1) && Follows(m1, b, m2)
    ensures Follows(m, a + b, m2)
    decreases |a|
  {
    if a == [] {
      assert a + b == b;
    } else {
      FollowsOn(Step(m, a[0]), a[1..], m1, b, m2);
      assert (a + b)[1..] == a[1..] + b;
    }
  }

  /** With more than 2^16 threads the bound is needed: the first 2^16 + 1 take a ticket, and then the first
      and the last of these, whose tickets are the same word, are both inside. */
  lemma TwoInside(n: nat) returns (sched: seq<nat>, m: Lock)
    requires n > WORD
    ensures Follows(Start(n).m, sched, m) && |m.ts| == n && m.ts[0].Inside? && m.ts[WORD].Inside?
  {
    var m0 := AfterTakes(n, WORD + 1);
    assert AfterTakes(n, 0).ts == Start(n).m.ts;
    Takes(n, WORD + 1);
    var m1 := Step(m0, 0);
    m := Step(m1, WORD);
    assert Follows(m1, [WORD], m) by { assert Follows(m, [], m); assert [WORD][1..] == []; }
    assert Follows(m0, [0, WORD], m) by { assert [0, WORD][1..] == [WORD]; }
    sched := seq(WORD + 1, i => i) + [0, WORD];
    FollowsOn(Start(n).m, seq(WORD + 1, i => i), m0, [0, WORD], m);
  }

  // ---------------------------------------------------------------- how many threads the lock can serve

  lemma {:induction false} CountAtMost(ts: seq<Pc>)
    ensures Count(ts) <= |ts|
    ensures (exists t :: 0 <= t < |ts| && ts[t].Outside?) ==> Count(ts) < |ts|
  {
    if ts != [] {
      CountAtMost(ts[1..]);
      if t :| 0 <= t < |ts| && ts[t].Outside? {
        assert t > 0 ==> ts[1..][t - 1].Outside?;
      }
    }
  }

  /** A lock as the code sees it, of which the tracked counters keep the invariant. */
  ghost predicate Sound(m: Lock) { exists s: Tracked :: Inv(s) && m == Residue(s.m) }

  /** With no more than 2^16 threads no run is ever crowded. */
  lemma {:induction false} FewAreSound(m: Lock, sched: seq<nat>, m': Lock)
    requires Sound(m) && |m.ts| <= WORD && Follows(m, sched, m')
    ensures Sound(m')
    decreases |sched|
  {
    if sched != [] {
      var s: Tracked :| Inv(s) && m == Residue(s.m);
      var t := sched[0];
      CountAtMost(s.m.ts);
      StepKeeps(s, t);
      TrackIsStep(s, t);
      hide Inv, Track, Step;
      FewAreSound(Step(m, t), sched[1..], m');
    }
  }

  predicate AtMostOne(ts: seq<Pc>) {
    forall t, u :: 0 <= t < |ts| && 0 <= u < |ts| && ts[t].Inside? && ts[u].Inside? ==> t == u
  }

  /** No run of `n` threads has two inside. */
  ghost predicate Excludes(n: nat) { forall sched, m :: Follows(Start(n).m, sched, m) ==> AtMostOne(m.ts) }

  /** The lock excludes, whatever its threads do, exactly when there are no more than 2^16 of them. */
  lemma ExcludesExactly(n: nat)
    ensures Excludes(n) <==> n <= WORD
  {
    hide Follows;
    StartIsSound(n);
    if n <= WORD {
      forall sched, m | Follows(Start(n).m, sched, m) ensures AtMostOne(m.ts) {
        FewAreSound(Start(n).m, sched, m);
        var s: Tracked :| Inv(s) && m == Residue(s.m);
        forall t, u | 0 <= t < |m.ts| && 0 <= u < |m.ts| && m.ts[t].Inside? && m.ts[u].Inside? ensures t == u {
          OneInside(s, t, u);
        }
      }
    } else {
      var sched, m := TwoInside(n);
      assert m.ts[0].Inside? && m.ts[WORD].Inside?;
      assert !Excludes(n);
    }
  }
}
