/** The lock-free ring of `ring.c`, as the atomic steps of any number of threads.

    `Machine` steps do what the code does, with every index a 32-bit word.  `Tracked` steps are the
    same steps with indices that never wrap, and remember who reserved what; `Residue` takes the
    second back to the first. */
module Ring {
  import opened Arith

  type Addr = int

  const TWO_TO_THE_32 := 0x1_0000_0000

  function Lo(x: int): (r: nat) { x % TWO_TO_THE_32 }

  /** Where a thread stands inside `ring_mpush` or `ring_mpop`: what it will do next, and its locals. */
  datatype Pc =
    | Idle
    | PushLoadHead(addr: seq<Addr>)
    | PushLoadTail(addr: seq<Addr>, head: nat)
    | PushCas(addr: seq<Addr>, head: nat, tail: nat)
    | PushCopy(addr: seq<Addr>, head: nat, i: nat)
    | PushAwait(addr: seq<Addr>, head: nat)
    | PushPublish(addr: seq<Addr>, head: nat)
    | PushTally(addr: seq<Addr>)
    | PushReturn(addr: seq<Addr>, ok: bool)
    | PopLoadHead(n: nat)
    | PopLoadTail(n: nat, head: nat)
    | PopCas(n: nat, head: nat, tail: nat)
    | PopCopy(n: nat, head: nat, out: seq<Addr>)
    | PopAwait(n: nat, head: nat, out: seq<Addr>)
    | PopPublish(n: nat, head: nat, out: seq<Addr>)
    | PopTally(n: nat, out: seq<Addr>)
    | PopReturn(out: seq<Addr>)

  datatype Shared = Shared(max: nat, num: nat, data: seq<Addr>, ph: nat, pt: nat, ch: nat, ct: nat)

  datatype Machine = Machine(sh: Shared, ts: seq<Pc>)

  /** What a scheduled thread is asked to do when it stands idle. */
  datatype Op = Push(addr: seq<Addr>) | Pop(n: nat)

  ghost predicate WellFormed(s: Shared) {
    (exists k: nat :: k <= 31 && s.max == Pow2(k)) && |s.data| == s.max
  }

  // ---------------------------------------------------------------- the code, on 32-bit words

  /** What one atomic step makes of the ring and of the place of the thread that takes it.
      A wait that does not succeed leaves both as they are. */
  function Act(s: Shared, p: Pc, op: Op): (Shared, Pc)
    requires s.max > 0 && |s.data| == s.max
  {
    match p
    case Idle => (s, match op case Push(addr) => PushLoadHead(addr) case Pop(n) => PopLoadHead(n))
    case PushLoadHead(addr) => (s, PushLoadTail(addr, s.ph))
    case PushLoadTail(addr, head) =>
      (s, if |addr| > Lo(s.max + s.ct - head) then PushReturn(addr, false) else PushCas(addr, head, s.ct))
    case PushCas(addr, head, tail) =>
      if s.ph == head then (s.(ph := Lo(head + |addr|)), PushCopy(addr, head, 0)) else (s, PushLoadHead(addr))
    case PushCopy(addr, head, i) =>
      if i < |addr| then (s.(data := s.data[Lo(head + i) % s.max := addr[i]]), PushCopy(addr, head, i + 1))
      else (s, PushAwait(addr, head))
    case PushAwait(addr, head) => (s, if s.pt == head then PushPublish(addr, head) else p)
    case PushPublish(addr, head) => (s.(pt := Lo(head + |addr|)), PushTally(addr))
    case PushTally(addr) => (s.(num := Lo(s.num + |addr|)), PushReturn(addr, true))
    case PushReturn(_, _) => (s, Idle)
    case PopLoadHead(n) => (s, PopLoadTail(n, s.ch))
    case PopLoadTail(n, head) => (s, if n > Lo(s.pt - head) then PopReturn([]) else PopCas(n, head, s.pt))
    case PopCas(n, head, tail) =>
      if s.ch == head then (s.(ch := Lo(head + n)), PopCopy(n, head, [])) else (s, PopLoadHead(n))
    case PopCopy(n, head, out) =>
      (s, if |out| < n then PopCopy(n, head, out + [s.data[Lo(head + |out|) % s.max]]) else PopAwait(n, head, out))
    case PopAwait(n, head, out) => (s, if s.ct == head then PopPublish(n, head, out) else p)
    case PopPublish(n, head, out) => (s.(ct := Lo(head + n)), PopTally(n, out))
    case PopTally(n, out) => (s.(num := Lo(s.num - n)), PopReturn(out))
    case PopReturn(_) => (s, Idle)
  }

  function Step(m: Machine, t: nat, op: Op): Machine
    requires t < |m.ts| && m.sh.max > 0 && |m.sh.data| == m.sh.max
  {
    var (s, p) := Act(m.sh, m.ts[t], op);
    Machine(s, m.ts[t := p])
  }

  // ---------------------------------------------------------------- the same steps, tracked

  /** The machine with unbounded indices, the value ever reserved at each index, and for each index
      the thread that reserved it for writing and for reading. */
  datatype Tracked = Tracked(m: Machine, log: seq<Addr>, powner: seq<nat>, cowner: seq<nat>)

  /** `Act` on unbounded indices; the tests are those of the code, on the words. */
  function TrackAct(s: Shared, p: Pc, op: Op): (Shared, Pc)
    requires s.max > 0 && |s.data| == s.max
  {
    match p
    case PushCas(addr, head, tail) =>
      if Lo(s.ph) == Lo(head) then (s.(ph := s.ph + |addr|), PushCopy(addr, s.ph, 0)) else (s, PushLoadHead(addr))
    case PushCopy(addr, head, i) =>
      if i < |addr| then (s.(data := s.data[(head + i) % s.max := addr[i]]), PushCopy(addr, head, i + 1))
      else (s, PushAwait(addr, head))
    case PushAwait(addr, head) => (s, if Lo(s.pt) == Lo(head) then PushPublish(addr, head) else p)
    case PushPublish(addr, head) => (s.(pt := head + |addr|), PushTally(addr))
    case PopCas(n, head, tail) =>
      if Lo(s.ch) == Lo(head) then (s.(ch := s.ch + n), PopCopy(n, s.ch, [])) else (s, PopLoadHead(n))
    case PopCopy(n, head, out) =>
      (s, if |out| < n then PopCopy(n, head, out + [s.data[(head + |out|) % s.max]]) else PopAwait(n, head, out))
    case PopAwait(n, head, out) => (s, if Lo(s.ct) == Lo(head) then PopPublish(n, head, out) else p)
    case PopPublish(n, head, out) => (s.(ct := head + n), PopTally(n, out))
    case _ => Act(s, p, op)
  }

  /** The values a step reserves places for, and the number of values it takes. */
  function Reserves(s: Shared, p: Pc): seq<Addr> {
    if p.PushCas? && Lo(s.ph) == Lo(p.head) then p.addr else []
  }

  function Takes(s: Shared, p: Pc): nat {
    if p.PopCas? && Lo(s.ch) == Lo(p.head) then p.n else 0
  }

  function Same(t: nat, n: nat): seq<nat> { seq(n, i => t) }

  function Track(s: Tracked, t: nat, op: Op): Tracked
    requires t < |s.m.ts| && s.m.sh.max > 0 && |s.m.sh.data| == s.m.sh.max
  {
    var (sh, p) := TrackAct(s.m.sh, s.m.ts[t], op);
    var added := Reserves(s.m.sh, s.m.ts[t]);
    Tracked(Machine(sh, s.m.ts[t := p]), s.log + added,
            s.powner + Same(t, |added|), s.cowner + Same(t, Takes(s.m.sh, s.m.ts[t])))
  }

  /** The 32-bit words behind the unbounded indices. */
  function ResiduePc(p: Pc): Pc {
    match p
    case PushLoadTail(addr, head) => PushLoadTail(addr, Lo(head))
    case PushCas(addr, head, tail) => PushCas(addr, Lo(head), Lo(tail))
    case PushCopy(addr, head, i) => PushCopy(addr, Lo(head), i)
    case PushAwait(addr, head) => PushAwait(addr, Lo(head))
    case PushPublish(addr, head) => PushPublish(addr, Lo(head))
    case PopLoadTail(n, head) => PopLoadTail(n, Lo(head))
    case PopCas(n, head, tail) => PopCas(n, Lo(head), Lo(tail))
    case PopCopy(n, head, out) => PopCopy(n, Lo(head), out)
    case PopAwait(n, head, out) => PopAwait(n, Lo(head), out)
    case PopPublish(n, head, out) => PopPublish(n, Lo(head), out)
    case _ => p
  }

  function ResidueShared(s: Shared): Shared {
    s.(num := Lo(s.num), ph := Lo(s.ph), pt := Lo(s.pt), ch := Lo(s.ch), ct := Lo(s.ct))
  }

  function Residue(m: Machine): (r: Machine)
    ensures |r.ts| == |m.ts| && r.sh.max == m.sh.max && r.sh.data == m.sh.data
  {
    Machine(ResidueShared(m.sh), seq(|m.ts|, i requires 0 <= i < |m.ts| => ResiduePc(m.ts[i])))
  }

  lemma LoCollapse(a: int, b: int)
    ensures Lo(a + Lo(b)) == Lo(a + b) && Lo(a - Lo(b)) == Lo(a - b) && Lo(Lo(b)) == Lo(b)
  {
    var q := b / TWO_TO_THE_32;
    assert b == q * TWO_TO_THE_32 + Lo(b);
    LoShift(a + Lo(b), q);
    LoShift(a - Lo(b), -q);
  }

  lemma LoShift(x: int, q: int)
    ensures Lo(x + q * TWO_TO_THE_32) == Lo(x)
  {
  }

  lemma Pow2Of32()
    ensures Pow2(32) == TWO_TO_THE_32
  {
    assert Pow2(8) == 256;
    assert Pow2(16) == 0x1_0000;
    assert Pow2(24) == 0x100_0000;
  }

  /** The slot of a wrapped index is the slot of the index: `max` divides 2^32. */
  lemma SlotOfLo(s: Shared, x: nat)
    requires WellFormed(s)
    ensures s.max > 0 && Lo(x) % s.max == x % s.max
  {
    var k: nat :| k <= 31 && s.max == Pow2(k);
    Pow2Of32();
    Pow2Sum(32 - k, k);
    ModOfMod(x, Pow2(32 - k), Pow2(k));
  }

  /** Every step of the code is the tracked step seen through `Residue`. */
  lemma TrackIsStep(s: Tracked, t: nat, op: Op)
    requires t < |s.m.ts| && WellFormed(s.m.sh)
    ensures s.m.sh.max > 0 && Residue(Track(s, t, op).m) == Step(Residue(s.m), t, op)
  {
    SlotOfLo(s.m.sh, 0);
    TrackActIsAct(s.m.sh, s.m.ts[t], op);
    hide Act, TrackAct, ResiduePc;
    assert Residue(Track(s, t, op).m).ts == Step(Residue(s.m), t, op).ts;
  }

  lemma TrackActIsAct(s: Shared, p: Pc, op: Op)
    requires WellFormed(s)
    ensures s.max > 0
    ensures var (s', p') := TrackAct(s, p, op);
      (ResidueShared(s'), ResiduePc(p')) == Act(ResidueShared(s), ResiduePc(p), op)
  {
    SlotOfLo(s, 0);
    if p.PushTally? || p.PopTally? || p.PushPublish? || p.PopPublish? {
      TrackEnds(s, p, op);
    } else {
      TrackMiddle(s, p, op);
    }
  }

  lemma TrackMiddle(s: Shared, p: Pc, op: Op)
    requires WellFormed(s) && !p.PushTally? && !p.PopTally? && !p.PushPublish? && !p.PopPublish?
    ensures s.max > 0
    ensures var (s', p') := TrackAct(s, p, op);
      (ResidueShared(s'), ResiduePc(p')) == Act(ResidueShared(s), ResiduePc(p), op)
  {
    hide Lo, WellFormed;
    SlotOfLo(s, 0);
    if p.PushCopy? || p.PopCopy? {
      TrackCopy(s, p, op);
    } else {
      match p
      case PushLoadTail(addr, head) =>
        LoCollapse(s.max + s.ct, head);
        LoCollapse(s.max - Lo(head), s.ct);
      case PopLoadTail(n, head) =>
        LoCollapse(s.pt, head);
        LoCollapse(0 - Lo(head), s.pt);
      case PushCas(addr, head, _) => LoCollapse(|addr|, s.ph);
      case PopCas(n, head, _) => LoCollapse(n, s.ch);
      case _ =>
    }
  }

  lemma TrackCopy(s: Shared, p: Pc, op: Op)
    requires WellFormed(s) && (p.PushCopy? || p.PopCopy?)
    ensures s.max > 0
    ensures var (s', p') := TrackAct(s, p, op);
      (ResidueShared(s'), ResiduePc(p')) == Act(ResidueShared(s), ResiduePc(p), op)
  {
    hide Lo, WellFormed;
    SlotOfLo(s, 0);
    match p
    case PushCopy(addr, head, i) =>
      LoCollapse(i, head);
      SlotOfLo(s, head + i);
    case PopCopy(n, head, out) =>
      LoCollapse(|out|, head);
      SlotOfLo(s, head + |out|);
  }

  lemma TrackEnds(s: Shared, p: Pc, op: Op)
    requires WellFormed(s) && (p.PushTally? || p.PopTally? || p.PushPublish? || p.PopPublish?)
    ensures s.max > 0
    ensures var (s', p') := TrackAct(s, p, op);
      (ResidueShared(s'), ResiduePc(p')) == Act(ResidueShared(s), ResiduePc(p), op)
  {
    hide Lo;
    SlotOfLo(s, 0);
    match p
    case PushPublish(addr, head) => LoCollapse(|addr|, head);
    case PopPublish(n, head, _) => LoCollapse(n, head);
    case PushTally(addr) =>
      LoCollapse(|addr|, s.num);
      LoCollapse(0, s.num + |addr|);
    case PopTally(n, _) =>
      LoCollapse(0 - n, s.num);
      LoCollapse(0, s.num - n);
  }
}
