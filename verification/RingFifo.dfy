/** Every run of the ring is a run of one atomic bounded queue. */
module RingFifo {
  import opened Arith
  import opened Ring
  import opened RingSafety

  // ---------------------------------------------------------------- the atomic queue

  datatype Event = Quiet | Enqueue(vals: seq<Addr>) | Dequeue(vals: seq<Addr>)

  ghost predicate FifoStep(q: seq<Addr>, e: Event, q': seq<Addr>, max: nat) {
    match e
    case Quiet => q' == q
    case Enqueue(vals) => q' == q + vals && |q'| <= max
    case Dequeue(vals) => q == vals + q'
  }

  /** What the queue holds: published and not yet taken. */
  ghost function Queue(s: Tracked): seq<Addr>
    requires Indices(ViewOf(s))
  {
    s.log[s.m.sh.ch..s.m.sh.pt]
  }

  /** What the next step of thread `t` does to the queue: publishing puts values in, the winning
      compare-and-set of a consumer takes them out, and nothing else matters. */
  ghost function Happens(s: Tracked, t: nat): Event
    requires Indices(ViewOf(s)) && t < |s.m.ts|
  {
    var p := s.m.ts[t];
    if p.PushPublish? then Enqueue(p.addr)
    else if p.PopCas? && Lo(s.m.sh.ch) == Lo(p.head) && s.m.sh.ch + p.n <= |s.log| then
      Dequeue(s.log[s.m.sh.ch..s.m.sh.ch + p.n])
    else Quiet
  }

  /** What a step does to the indices and the log. */
  lemma IndicesMove(s: Tracked, t: nat, op: Op)
    requires t < |s.m.ts| && s.m.sh.max > 0 && |s.m.sh.data| == s.m.sh.max
    ensures var p, sh, sh' := s.m.ts[t], s.m.sh, Track(s, t, op).m.sh;
      && sh'.max == sh.max && sh'.ch == sh.ch + Takes(sh, p) && sh'.ph == sh.ph + |Reserves(sh, p)|
      && sh'.pt == (if p.PushPublish? then p.head + |p.addr| else sh.pt)
      && sh'.ct == (if p.PopPublish? then p.head + p.n else sh.ct)
    ensures Track(s, t, op).log == s.log + Reserves(s.m.sh, s.m.ts[t])
    ensures Track(s, t, op).m.ts == s.m.ts[t := Track(s, t, op).m.ts[t]]
  {
  }

  /** What a step does to the part of the log that is the queue. */
  lemma QueueMoves(s: Tracked, t: nat, op: Op)
    requires Inv(s) && NoLap(s) && t < |s.m.ts| && Tame(s.m.sh, s.m.ts[t])
    ensures |s.m.sh.data| == s.m.sh.max > 0
    ensures Inv(Track(s, t, op)) && Indices(ViewOf(s)) && Indices(ViewOf(Track(s, t, op)))
    ensures var v, p, w := ViewOf(s), s.m.ts[t], ViewOf(Track(s, t, op));
      && w.max == v.max && s.log <= Track(s, t, op).log && |s.log| == v.ph
      && (if p.PushPublish? then
            w.ch == v.ch && w.pt == v.pt + |p.addr| <= v.ph && s.log[v.pt..w.pt] == p.addr
          else if p.PopCas? && Lo(v.ch) == Lo(p.head) then
            w.ch == v.ch + p.n <= v.pt == w.pt
          else
            w.ch == v.ch && w.pt == v.pt)
  {
    StepKeepsInv(s, t, op);
    MaxBound(s.m.sh);
    IndicesMove(s, t, op);
    InvIndices(s);
    InvIndices(Track(s, t, op));
    var v, p := ViewOf(s), s.m.ts[t];
    if p.PushPublish? {
      Published(v, s.m.ts, t, s.m.sh.data);
    } else if p.PopCas? && Lo(v.ch) == Lo(p.head) {
      ValuesTaken(s, t);
    }
    hide Inv, Lo, PcOk, Covered, Stored, AllOk, WellFormed, TrackAct, Track, NoLap, Reserves;
  }

  lemma StepIsFifo(s: Tracked, t: nat, op: Op)
    requires Inv(s) && NoLap(s) && t < |s.m.ts| && Tame(s.m.sh, s.m.ts[t])
    ensures s.m.sh.max > 0 && Inv(Track(s, t, op))
    ensures FifoStep(Queue(s), Happens(s, t), Queue(Track(s, t, op)), s.m.sh.max)
  {
    hide Inv, Lo, Track, TrackAct, NoLap, Tame;
    QueueMoves(s, t, op);
    var v, p, s' := ViewOf(s), s.m.ts[t], Track(s, t, op);
    if p.PushPublish? {
      Appended(s.log, s'.log, v.ch, v.pt, p.addr);
    } else if p.PopCas? && Lo(v.ch) == Lo(p.head) {
      Detached(s.log, s'.log, v.ch, p.n, v.pt);
    } else {
      Detached(s.log, s'.log, v.ch, 0, v.pt);
    }
  }

  lemma Appended(log: seq<Addr>, log': seq<Addr>, ch: nat, pt: nat, vals: seq<Addr>)
    requires ch <= pt && pt + |vals| <= |log| && log <= log' && log[pt..pt + |vals|] == vals
    ensures log'[ch..pt + |vals|] == log[ch..pt] + vals
  {
    assert log'[ch..pt + |vals|] == log[ch..pt + |vals|];
  }

  lemma Detached(log: seq<Addr>, log': seq<Addr>, ch: nat, n: nat, pt: nat)
    requires ch + n <= pt <= |log| && log <= log'
    ensures log[ch..pt] == log[ch..ch + n] + log'[ch + n..pt]
  {
    assert log'[ch + n..pt] == log[ch + n..pt];
  }

  // ---------------------------------------------------------------- what each thread sees of it

  /** What a thread has taken from the queue and not yet returned to its caller. */
  ghost function InHand(s: Tracked, p: Pc): seq<Addr> {
    if Taking(p) && p.head + p.n <= |s.log| then s.log[p.head..p.head + p.n]
    else if p.PopTally? || p.PopReturn? then p.out
    else []
  }

  ghost function Delivered(p: Pc): seq<Addr> { if p.PopReturn? then p.out else [] }

  /** What a thread has put into the queue and not yet reported as pushed. */
  ghost function Unreported(p: Pc): seq<Addr> {
    if p.PushTally? || (p.PushReturn? && p.ok) then p.addr else []
  }

  ghost function Reported(p: Pc): seq<Addr> { if p.PushReturn? && p.ok then p.addr else [] }

  ghost function Got(e: Event): seq<Addr> { if e.Dequeue? then e.vals else [] }

  ghost function Put(e: Event): seq<Addr> { if e.Enqueue? then e.vals else [] }

  /** A thread hands its caller exactly what the queue gave it. */
  lemma StepDelivers(s: Tracked, t: nat, op: Op)
    requires Inv(s) && NoLap(s) && t < |s.m.ts|
    ensures s.m.sh.max > 0
    ensures var s' := Track(s, t, op);
      Delivered(s.m.ts[t]) + InHand(s', s'.m.ts[t]) == InHand(s, s.m.ts[t]) + Got(Happens(s, t))
  {
    MaxBound(s.m.sh);
    var v, p, s' := ViewOf(s), s.m.ts[t], Track(s, t, op);
    IndicesMove(s, t, op);
    if p.PopCas? && Lo(v.ch) == Lo(p.head) {
      ValuesTaken(s, t);
      assert s'.m.ts[t] == PopCopy(p.n, v.ch, []) && s'.log == s.log;
      hide Lo, Inv, NoLap, WellFormed, TrackAct, Track;
    } else if Taking(p) {
      StillInHand(s, t, op);
    } else {
      var q := s'.m.ts[t];
      assert !Taking(q) && (q.PopTally? ==> p.PopTally?) && (q.PopReturn? ==> q.out == [] || p.PopTally?);
      assert p.PopTally? ==> q == PopReturn(p.out);
      hide Lo, Inv, NoLap, WellFormed, TrackAct, Track;
    }
  }

  lemma StillInHand(s: Tracked, t: nat, op: Op)
    requires Inv(s) && t < |s.m.ts| && Taking(s.m.ts[t])
    ensures s.m.sh.max > 0
    ensures InHand(Track(s, t, op), Track(s, t, op).m.ts[t]) == InHand(s, s.m.ts[t])
  {
    MaxBound(s.m.sh);
    var p, s' := s.m.ts[t], Track(s, t, op);
    assert PcOk(ViewOf(s), t, p);
    assert s'.log == s.log;
    assert Taking(s'.m.ts[t]) ==> s'.m.ts[t].n == p.n && s'.m.ts[t].head == p.head;
    assert !Taking(s'.m.ts[t]) ==> s'.m.ts[t] == PopTally(p.n, p.out);
  }

  /** A thread reports exactly what it put in. */
  lemma StepReports(s: Tracked, t: nat, op: Op)
    requires Inv(s) && t < |s.m.ts|
    ensures s.m.sh.max > 0
    ensures Reported(s.m.ts[t]) + Unreported(Track(s, t, op).m.ts[t])
      == Unreported(s.m.ts[t]) + Put(Happens(s, t))
  {
    MaxBound(s.m.sh);
    hide Lo, Inv, WellFormed;
    var p, q := s.m.ts[t], Track(s, t, op).m.ts[t];
    assert q == TrackAct(s.m.sh, p, op).1;
    hide Track;
    assert Unreported(q) == if p.PushTally? || p.PushPublish? then p.addr else [];
    hide TrackAct;
  }

  lemma OthersKeep(s: Tracked, t: nat, op: Op, u: nat)
    requires Inv(s) && t < |s.m.ts| && u < |s.m.ts| && u != t
    ensures s.m.sh.max > 0 && Track(s, t, op).m.ts[u] == s.m.ts[u]
    ensures InHand(Track(s, t, op), s.m.ts[u]) == InHand(s, s.m.ts[u])
  {
    MaxBound(s.m.sh);
    IndicesMove(s, t, op);
    assert PcOk(ViewOf(s), u, s.m.ts[u]);
  }

  // ---------------------------------------------------------------- runs

  /** The schedule can be followed from `s`: proper requests, and no index laps a sleeping thread. */
  ghost predicate Steady(s: Tracked, sched: seq<(nat, Op)>)
    decreases |sched|
  {
    sched == [] ||
    (&& NoLap(s) && sched[0].0 < |s.m.ts| && Tame(s.m.sh, s.m.ts[sched[0].0])
     && s.m.sh.max > 0 && |s.m.sh.data| == s.m.sh.max
     && Steady(Track(s, sched[0].0, sched[0].1), sched[1..]))
  }

  ghost function Run(s: Tracked, sched: seq<(nat, Op)>): Tracked
    requires Steady(s, sched)
    decreases |sched|
  {
    if sched == [] then s else Run(Track(s, sched[0].0, sched[0].1), sched[1..])
  }

  /** The same schedule followed by the code. */
  ghost predicate Follows(m: Machine, sched: seq<(nat, Op)>, m': Machine)
    decreases |sched|
  {
    if sched == [] then m' == m
    else
      && sched[0].0 < |m.ts| && m.sh.max > 0 && |m.sh.data| == m.sh.max
      && Follows(Step(m, sched[0].0, sched[0].1), sched[1..], m')
  }

  /** The events of a run are those of an atomic bounded queue, from `q` to `q'`. */
  ghost predicate FifoRun(s: Tracked, sched: seq<(nat, Op)>, q: seq<Addr>, q': seq<Addr>)
    requires Steady(s, sched)
    decreases |sched|
  {
    if sched == [] then q' == q
    else
      && Indices(ViewOf(s))
      && exists q1 :: FifoStep(q, Happens(s, sched[0].0), q1, s.m.sh.max)
                      && FifoRun(Track(s, sched[0].0, sched[0].1), sched[1..], q1, q')
  }

  /** All that thread `u` took from the queue, and all it returned to its callers, over a run. */
  ghost function GotBy(s: Tracked, sched: seq<(nat, Op)>, u: nat): seq<Addr>
    requires Steady(s, sched)
    decreases |sched|
  {
    if sched == [] || !Indices(ViewOf(s)) then []
    else (if sched[0].0 == u then Got(Happens(s, u)) else [])
         + GotBy(Track(s, sched[0].0, sched[0].1), sched[1..], u)
  }

  ghost function DeliveredBy(s: Tracked, sched: seq<(nat, Op)>, u: nat): seq<Addr>
    requires Steady(s, sched)
    decreases |sched|
  {
    if sched == [] then []
    else (if sched[0].0 == u then Delivered(s.m.ts[u]) else [])
         + DeliveredBy(Track(s, sched[0].0, sched[0].1), sched[1..], u)
  }

  ghost function PutBy(s: Tracked, sched: seq<(nat, Op)>, u: nat): seq<Addr>
    requires Steady(s, sched)
    decreases |sched|
  {
    if sched == [] || !Indices(ViewOf(s)) then []
    else (if sched[0].0 == u then Put(Happens(s, u)) else [])
         + PutBy(Track(s, sched[0].0, sched[0].1), sched[1..], u)
  }

  ghost function ReportedBy(s: Tracked, sched: seq<(nat, Op)>, u: nat): seq<Addr>
    requires Steady(s, sched)
    decreases |sched|
  {
    if sched == [] then []
    else (if sched[0].0 == u then Reported(s.m.ts[u]) else [])
         + ReportedBy(Track(s, sched[0].0, sched[0].1), sched[1..], u)
  }

  /** Safety over whole runs: the invariant holds at the end, the code has come to the same state,
      and in between the ring was one atomic bounded queue. */
  lemma {:induction false} RunRefines(s: Tracked, sched: seq<(nat, Op)>)
    requires Inv(s) && Steady(s, sched)
    ensures Inv(Run(s, sched))
    ensures Follows(Residue(s.m), sched, Residue(Run(s, sched).m))
    ensures FifoRun(s, sched, Queue(s), Queue(Run(s, sched)))
    ensures Counted(s) ==> Counted(Run(s, sched))
    decreases |sched|
  {
    hide NoLap, Counted, Happens, FifoStep, Track, Step;
    if sched != [] {
      var t, op := sched[0].0, sched[0].1;
      StepIsFifo(s, t, op);
      TrackIsStep(s, t, op);
      if Counted(s) { StepKeepsCount(s, t, op); }
      hide Inv;
      RunRefines(Track(s, t, op), sched[1..]);
    }
  }

  /** Over a whole run every thread returns, in order, exactly what the atomic queue gave it, and
      reports as pushed exactly what it put in; what is under way is accounted for at both ends. */
  lemma {:induction false} RunDelivers(s: Tracked, sched: seq<(nat, Op)>, u: nat)
    requires Inv(s) && Steady(s, sched) && u < |s.m.ts|
    ensures |Run(s, sched).m.ts| == |s.m.ts|
    ensures DeliveredBy(s, sched, u) + InHand(Run(s, sched), Run(s, sched).m.ts[u])
      == InHand(s, s.m.ts[u]) + GotBy(s, sched, u)
    ensures ReportedBy(s, sched, u) + Unreported(Run(s, sched).m.ts[u])
      == Unreported(s.m.ts[u]) + PutBy(s, sched, u)
    decreases |sched|
  {
    hide Inv, NoLap, InHand, Unreported, Delivered, Reported, Got, Put, Happens, Track;
    if sched != [] {
      var t, op := sched[0].0, sched[0].1;
      InvIndices(s);
      StepKeepsInv(s, t, op);
      var s1, end := Track(s, t, op), Run(s, sched);
      ThreadsStay(s, t, op);
      RunDelivers(s1, sched[1..], u);
      if u == t {
        StepDelivers(s, t, op);
        StepReports(s, t, op);
        Chain(Delivered(s.m.ts[u]), InHand(s1, s1.m.ts[u]), InHand(s, s.m.ts[u]), Got(Happens(s, u)),
              DeliveredBy(s1, sched[1..], u), InHand(end, end.m.ts[u]), GotBy(s1, sched[1..], u));
        Chain(Reported(s.m.ts[u]), Unreported(s1.m.ts[u]), Unreported(s.m.ts[u]), Put(Happens(s, u)),
              ReportedBy(s1, sched[1..], u), Unreported(end.m.ts[u]), PutBy(s1, sched[1..], u));
      } else {
        OthersKeep(s, t, op, u);
        Chain([], InHand(s, s.m.ts[u]), InHand(s, s.m.ts[u]), [],
              DeliveredBy(s1, sched[1..], u), InHand(end, end.m.ts[u]), GotBy(s1, sched[1..], u));
        Chain([], Unreported(s.m.ts[u]), Unreported(s.m.ts[u]), [],
              ReportedBy(s1, sched[1..], u), Unreported(end.m.ts[u]), PutBy(s1, sched[1..], u));
      }
    }
  }

  lemma Chain(d: seq<Addr>, h1: seq<Addr>, h: seq<Addr>, g: seq<Addr>, d': seq<Addr>, h2: seq<Addr>, g': seq<Addr>)
    requires d + h1 == h + g && d' + h2 == h1 + g'
    ensures (d + d') + h2 == h + (g + g')
  {
    assert (d + d') + h2 == d + (d' + h2) == (d + h1) + g' == h + (g + g');
  }

  lemma InvIndices(s: Tracked)
    requires Inv(s)
    ensures Indices(ViewOf(s))
  {
  }

  lemma ThreadsStay(s: Tracked, t: nat, op: Op)
    requires t < |s.m.ts| && s.m.sh.max > 0 && |s.m.sh.data| == s.m.sh.max
    ensures |Track(s, t, op).m.ts| == |s.m.ts|
  {
  }

  lemma {:induction false} AllIdle(n: nat)
    ensures Owed(seq(n, i => Idle)) == 0
  {
    if n > 0 {
      AllIdle(n - 1);
      assert seq(n, i => Idle)[1..] == seq(n - 1, i => Idle);
    }
  }

  /** A ring of 2^k slots as `ring_creat` leaves it, with `n` idle threads. */
  function Created(k: nat, n: nat): Tracked {
    Tracked(Machine(Shared(Pow2(k), 0, seq(Pow2(k), i => 0), 0, 0, 0, 0), seq(n, i => Idle)), [], [], [])
  }

  lemma CreatedIsSound(k: nat, n: nat)
    requires k <= 31
    ensures Inv(Created(k, n)) && Queue(Created(k, n)) == [] && Residue(Created(k, n).m) == Created(k, n).m
    ensures Counted(Created(k, n))
  {
    AllIdle(n);
    var s := Created(k, n);
    assert WellFormed(s.m.sh);
    assert Residue(s.m).ts == s.m.ts;
  }

  // ---------------------------------------------------------------- refusals

  /** The head a thread has read is not so old that what it now reckons from it runs over 32 bits. */
  ghost predicate Recent(s: Shared, p: Pc) {
    && (p.PushLoadTail? ==> s.max + s.ct - p.head < TWO_TO_THE_32)
    && (p.PopLoadTail? ==> s.pt - p.head < TWO_TO_THE_32)
  }

  lemma RecentlyRead(s: Tracked, t: nat)
    requires Inv(s) && t < |s.m.ts| && AsleepFor(s.m.sh, s.m.ts[t]) < TWO_TO_THE_32 - s.m.sh.max
    ensures Recent(s.m.sh, s.m.ts[t])
  {
  }

  /** How many values a consumer was asked for, as long as it has not returned. */
  ghost predicate Asks(p: Pc, n: nat) {
    (p.PopLoadHead? || p.PopLoadTail? || p.PopCas? || Taking(p) || p.PopTally?) && p.n == n
  }

  /** Wherever a thread stands, its next step returns fewer values than it was asked for only when the queue
      holds fewer, and then it returns none. */
  lemma EmptyMeansEmpty(s: Tracked, t: nat, op: Op, n: nat)
    requires Inv(s) && t < |s.m.ts| && Asks(s.m.ts[t], n) && Recent(s.m.sh, s.m.ts[t])
    ensures s.m.sh.max > 0
    ensures var q := Track(s, t, op).m.ts[t];
      Asks(q, n) || (q.PopReturn? && (|q.out| == n || (q.out == [] && |Queue(s)| < n)))
  {
    MaxBound(s.m.sh);
    var p := s.m.ts[t];
    assert PcOk(ViewOf(s), t, p);
    if p.PopLoadTail? { SmallWord(s.m.sh.pt - p.head); }
    hide Lo, AllOk, Covered, Stored, WellFormed;
  }

  /** The values a producer was asked to push, as long as it has not returned. */
  ghost predicate Offers(p: Pc, addr: seq<Addr>) {
    (p.PushLoadHead? || p.PushLoadTail? || p.PushCas? || Pending(p) || p.PushTally?) && p.addr == addr
  }

  /** Wherever a thread stands, its next step gives a push up only when the places asked for, with those
      still reserved at either end, exceed the ring; with every thread outside the ring, only when the queue
      has no room. */
  lemma FullMeansFull(s: Tracked, t: nat, op: Op, addr: seq<Addr>)
    requires Inv(s) && t < |s.m.ts| && Offers(s.m.ts[t], addr) && Recent(s.m.sh, s.m.ts[t])
    ensures s.m.sh.max > 0
    ensures var q := Track(s, t, op).m.ts[t];
      Offers(q, addr) || (q.PushReturn? && q.addr == addr && (q.ok || s.m.sh.max < s.m.sh.ph - s.m.sh.ct + |addr|))
    ensures Track(s, t, op).m.ts[t] == PushReturn(addr, false) && (forall u :: 0 <= u < |s.m.ts| ==>
      !Pending(s.m.ts[u]) && !Taking(s.m.ts[u]))
      ==> s.m.sh.max < |Queue(s)| + |addr|
  {
    MaxBound(s.m.sh);
    var v, p := ViewOf(s), s.m.ts[t];
    assert PcOk(v, t, p);
    if p.PushLoadTail? { SmallWord(v.max + v.ct - p.head); }
    if v.pt < v.ph { assert Writes(s.m.ts[v.powner[v.pt]], v.pt); }
    if v.ct < v.ch { assert Reads(s.m.ts[v.cowner[v.ct]], v.ct); }
    hide Lo, AllOk, Covered, Stored, WellFormed;
  }

  /** `k` steps of one thread while the others rest, on unbounded indices. */
  ghost function Alone(s: Shared, p: Pc, op: Op, k: nat): (Shared, Pc)
    requires s.max > 0 && |s.data| == s.max
    decreases k
  {
    if k == 0 then (s, p) else var (s', p') := TrackAct(s, p, op); Alone(s', p', op, k - 1)
  }

  /** A producer left alone while there is room has its places within six steps, even after it has lost the
      compare-and-set to another. */
  lemma PushReservesAlone(s: Shared, p: Pc, op: Op, addr: seq<Addr>)
    requires 0 < s.max == |s.data| < TWO_TO_THE_32 && s.ct <= s.ph && s.ph + |addr| <= s.ct + s.max
    requires (p.PushLoadHead? || p.PushLoadTail? || p.PushCas?) && p.addr == addr && Recent(s, p) && Fresh(s, p)
    requires p.PushLoadTail? || p.PushCas? ==> p.head <= s.ph
    ensures exists k :: 0 <= k <= 6 && Alone(s, p, op, k) == (s.(ph := s.ph + |addr|), PushCopy(addr, s.ph, 0))
  {
    var won := (s.(ph := s.ph + |addr|), PushCopy(addr, s.ph, 0));
    PushFromHead(s, op, addr);
    if p.PushLoadHead? {
      assert Alone(s, p, op, 3) == won;
    } else if p.PushCas? {
      if Lo(s.ph) == Lo(p.head) {
        assert Alone(s, p, op, 1) == won;
      } else {
        assert Alone(s, p, op, 4) == Alone(s, PushLoadHead(addr), op, 3);
      }
    } else {
      SmallWord(s.max + s.ct - p.head);
      assert Alone(s, p, op, 1) == (s, PushCas(addr, p.head, s.ct));
      if Lo(s.ph) == Lo(p.head) {
        assert Alone(s, p, op, 2) == Alone(s, PushCas(addr, p.head, s.ct), op, 1) == won;
      } else {
        assert Alone(s, p, op, 5) == Alone(s, PushCas(addr, p.head, s.ct), op, 4)
          == Alone(s, PushLoadHead(addr), op, 3);
      }
    }
  }

  lemma PushFromHead(s: Shared, op: Op, addr: seq<Addr>)
    requires 0 < s.max == |s.data| < TWO_TO_THE_32 && s.ct <= s.ph && s.ph + |addr| <= s.ct + s.max
    ensures Alone(s, PushLoadHead(addr), op, 3) == (s.(ph := s.ph + |addr|), PushCopy(addr, s.ph, 0))
  {
    SmallWord(s.max + s.ct - s.ph);
    assert Alone(s, PushCas(addr, s.ph, s.ct), op, 1) == (s.(ph := s.ph + |addr|), PushCopy(addr, s.ph, 0));
    assert Alone(s, PushLoadTail(addr, s.ph), op, 2) == Alone(s, PushCas(addr, s.ph, s.ct), op, 1);
  }

  /** And so has a consumer its values, while there are as many as it asks for. */
  lemma PopTakesAlone(s: Shared, p: Pc, op: Op, n: nat)
    requires 0 < s.max == |s.data| < TWO_TO_THE_32 && s.ch + n <= s.pt <= s.ch + s.max
    requires (p.PopLoadHead? || p.PopLoadTail? || p.PopCas?) && p.n == n && Recent(s, p) && Fresh(s, p)
    requires p.PopLoadTail? || p.PopCas? ==> p.head <= s.ch
    ensures exists k :: 0 <= k <= 6 && Alone(s, p, op, k) == (s.(ch := s.ch + n), PopCopy(n, s.ch, []))
  {
    var won := (s.(ch := s.ch + n), PopCopy(n, s.ch, []));
    PopFromHead(s, op, n);
    if p.PopLoadHead? {
      assert Alone(s, p, op, 3) == won;
    } else if p.PopCas? {
      if Lo(s.ch) == Lo(p.head) {
        assert Alone(s, p, op, 1) == won;
      } else {
        assert Alone(s, p, op, 4) == Alone(s, PopLoadHead(n), op, 3);
      }
    } else {
      SmallWord(s.pt - p.head);
      assert Alone(s, p, op, 1) == (s, PopCas(n, p.head, s.pt));
      if Lo(s.ch) == Lo(p.head) {
        assert Alone(s, p, op, 2) == Alone(s, PopCas(n, p.head, s.pt), op, 1) == won;
      } else {
        assert Alone(s, p, op, 5) == Alone(s, PopCas(n, p.head, s.pt), op, 4) == Alone(s, PopLoadHead(n), op, 3);
      }
    }
  }

  lemma PopFromHead(s: Shared, op: Op, n: nat)
    requires 0 < s.max == |s.data| < TWO_TO_THE_32 && s.ch + n <= s.pt <= s.ch + s.max
    ensures Alone(s, PopLoadHead(n), op, 3) == (s.(ch := s.ch + n), PopCopy(n, s.ch, []))
  {
    SmallWord(s.pt - s.ch);
    assert Alone(s, PopCas(n, s.ch, s.pt), op, 1) == (s.(ch := s.ch + n), PopCopy(n, s.ch, []));
    assert Alone(s, PopLoadTail(n, s.ch), op, 2) == Alone(s, PopCas(n, s.ch, s.pt), op, 1);
  }

  ghost predicate MovesOn(s: Tracked, t: nat, op: Op)
    requires t < |s.m.ts| && s.m.sh.max > 0 && |s.m.sh.data| == s.m.sh.max
  {
    Track(s, t, op).m.ts[t] != s.m.ts[t]
  }

  predicate Waits(s: Shared, p: Pc) {
    (p.PushAwait? && Lo(s.pt) != Lo(p.head)) || (p.PopAwait? && Lo(s.ct) != Lo(p.head))
  }

  /** A step that changes nothing is a wait for one's turn. */
  lemma OnlyWaits(s: Tracked, t: nat, op: Op)
    requires t < |s.m.ts| && s.m.sh.max > 0 && |s.m.sh.data| == s.m.sh.max
    ensures MovesOn(s, t, op) || Waits(s.m.sh, s.m.ts[t])
  {
  }

  /** A thread takes on only what it is asked, and a caller hears back from every call. */
  lemma CallsReturn(s: Tracked, t: nat, op: Op)
    requires t < |s.m.ts| && s.m.sh.max > 0 && |s.m.sh.data| == s.m.sh.max
    ensures var p, q := s.m.ts[t], Track(s, t, op).m.ts[t];
      && (p.Idle? ==> match op case Push(addr) => Offers(q, addr) case Pop(n) => Asks(q, n))
      && (p.PushReturn? || p.PopReturn? ==> q.Idle?)
      && (q.Idle? ==> p.PushReturn? || p.PopReturn?)
  {
  }

  // ---------------------------------------------------------------- no thread waits for ever

  /** While places are reserved, the thread owning the first of them waits for nobody; and so at the
      consumers' end. */
  lemma FirstInLineMoves(s: Tracked, op: Op)
    requires Inv(s)
    ensures s.m.sh.max > 0
    ensures s.m.sh.pt < s.m.sh.ph ==>
      exists t :: 0 <= t < |s.m.ts| && Pending(s.m.ts[t]) && s.m.ts[t].head == s.m.sh.pt && MovesOn(s, t, op)
    ensures s.m.sh.ct < s.m.sh.ch ==>
      exists t :: 0 <= t < |s.m.ts| && Taking(s.m.ts[t]) && s.m.ts[t].head == s.m.sh.ct && MovesOn(s, t, op)
  {
    MaxBound(s.m.sh);
    var v := ViewOf(s);
    if v.pt < v.ph {
      var t := v.powner[v.pt];
      assert Writes(s.m.ts[t], v.pt) && PcOk(v, t, s.m.ts[t]);
      OnlyWaits(s, t, op);
    }
    if v.ct < v.ch {
      var t := v.cowner[v.ct];
      assert Reads(s.m.ts[t], v.ct) && PcOk(v, t, s.m.ts[t]);
      OnlyWaits(s, t, op);
    }
  }

  // ---------------------------------------------------------------- the count

  function Minus(n: int): int { -n }

  /** What a thread still has to add to `num`. */
  ghost function OwedBy(p: Pc): int {
    if p.PopTally? then Minus(p.n) else if p.PushTally? then |p.addr| else 0
  }

  ghost function Owed(ts: seq<Pc>): int {
    if ts == [] then 0 else OwedBy(ts[0]) + Owed(ts[1..])
  }

  lemma {:induction false} OwedMoves(ts: seq<Pc>, t: nat, q: Pc)
    requires t < |ts|
    ensures Owed(ts[t := q]) == Owed(ts) - OwedBy(ts[t]) + OwedBy(q)
  {
    if t > 0 {
      assert ts[t := q][1..] == ts[1..][t - 1 := q];
      OwedMoves(ts[1..], t - 1, q);
    } else {
      assert ts[t := q][1..] == ts[1..];
    }
  }

  /** `num`, with all additions still owed, is the number of values between the two tails. */
  ghost predicate Counted(s: Tracked) {
    Lo(s.m.sh.num + Owed(s.m.ts)) == Lo(s.m.sh.pt - s.m.sh.ct)
  }

  /** What a step changes of the count, of what is owed, and of the distance between the tails. */
  lemma CountMoves(s: Shared, p: Pc, op: Op)
    requires s.max > 0 && |s.data| == s.max
    requires p.PushPublish? ==> p.head == s.pt
    requires p.PopPublish? ==> p.head == s.ct
    ensures var (s', q) := TrackAct(s, p, op);
      var done := if p.PushTally? then |p.addr| else if p.PopTally? then Minus(p.n) else 0;
      var due := if p.PushPublish? then |p.addr| else if p.PopPublish? then Minus(p.n) else 0;
      && s'.num == (if p.PushTally? || p.PopTally? then Lo(s.num + done) else s.num)
      && OwedBy(q) == OwedBy(p) - done + due
      && s'.pt - s'.ct == s.pt - s.ct + due
  {
    hide Lo;
  }

  lemma StepKeepsCount(s: Tracked, t: nat, op: Op)
    requires Inv(s) && t < |s.m.ts| && Counted(s) && Tame(s.m.sh, s.m.ts[t])
    ensures s.m.sh.max > 0 && Counted(Track(s, t, op))
  {
    hide Inv, Track, TrackAct, Lo, Owed, OwedBy;
    var v, p := ViewOf(s), s.m.ts[t];
    AtItsTurn(s, t);
    TrackIs(s, t, op);
    CountMoves(s.m.sh, p, op);
    OwedMoves(s.m.ts, t, TrackAct(s.m.sh, p, op).1);
    var tallies := p.PushTally? || p.PopTally?;
    var done := if p.PushTally? then |p.addr| else if p.PopTally? then Minus(p.n) else 0;
    var due := if p.PushPublish? then |p.addr| else if p.PopPublish? then Minus(p.n) else 0;
    CountCase(s.m.sh.num, Owed(s.m.ts), v.pt - v.ct, tallies, done, due);
  }

  /** Whoever is about to store a tail index stands where the tail is. */
  lemma AtItsTurn(s: Tracked, t: nat)
    requires Inv(s) && t < |s.m.ts| && Tame(s.m.sh, s.m.ts[t])
    ensures |s.m.sh.data| == s.m.sh.max > 0
    ensures s.m.ts[t].PushPublish? ==> s.m.ts[t].head == s.m.sh.pt
    ensures s.m.ts[t].PopPublish? ==> s.m.ts[t].head == s.m.sh.ct
  {
    MaxBound(s.m.sh);
    assert PcOk(ViewOf(s), t, s.m.ts[t]);
  }

  lemma CountCase(num: int, owed: int, size: int, tallies: bool, done: int, due: int)
    requires Lo(num + owed) == Lo(size) && if tallies then due == 0 else done == 0
    ensures Lo((if tallies then Lo(num + done) else num) + (owed - done + due)) == Lo(size + due)
  {
    CountArith(num, owed, size, done);
    CountArith(num, owed, size, due);
  }

  lemma TrackIs(s: Tracked, t: nat, op: Op)
    requires t < |s.m.ts| && |s.m.sh.data| == s.m.sh.max > 0
    ensures var (sh, q) := TrackAct(s.m.sh, s.m.ts[t], op);
      Track(s, t, op).m == Machine(sh, s.m.ts[t := q])
  {
  }

  lemma CountArith(num: int, owed: int, size: int, n: int)
    requires Lo(num + owed) == Lo(size)
    ensures Lo(Lo(num + n) + owed - n) == Lo(size)
    ensures Lo(num + owed + n) == Lo(size + n)
  {
  }
}
