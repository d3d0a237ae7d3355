/** The block pool of `slot.c` and the queue of `queue.c`: two rings worked by the same threads, one
    holding the free blocks and one the queued ones. */
module Queue {
  import opened Arith
  import opened Records
  import opened Ring
  import opened RingSafety
  import opened RingFifo
  import opened RingCreat

  // ---------------------------------------------------------------- creating the pool

  /** `slot_creat` after its allocations: every block pushed, one `ring_push` after another. */
  method SlotCreat(ring: Shared, blocks: seq<Addr>) returns (slots: Shared, ok: bool)
    requires |ring.data| == ring.max <= 0x8000_0000 && ring == Holding(ring.max, ring.data, 0)
    requires |blocks| <= ring.max
    ensures ok && slots == Holding(ring.max, blocks + ring.data[|blocks|..], |blocks|)
  {
    hide Solo;
    slots, ok := ring, true;
    for i := 0 to |blocks|
      invariant ok && slots == Holding(ring.max, blocks[..i] + ring.data[i..], i)
    {
      HoldsOneMore(ring.max, slots.data, i, blocks[i]);
      PushesAlone(slots, blocks[i]);
      var (s, p) := Solo(slots, Idle, Push([blocks[i]]), 9);
      slots, ok := s, p == PushReturn([blocks[i]], true);
      assert (blocks[..i] + ring.data[i..])[i := blocks[i]] == blocks[..i + 1] + ring.data[i + 1..];
    }
    assert blocks[..|blocks|] == blocks;
  }

  /** The pool's ring as `slot_creat` leaves it, tracked, with `n` idle threads. */
  ghost function Filled(k: nat, blocks: seq<Addr>, n: nat): Tracked
    requires |blocks| <= Pow2(k)
  {
    Tracked(Machine(Holding(Pow2(k), blocks + seq(Pow2(k) - |blocks|, i => 0), |blocks|), seq(n, i => Idle)),
            blocks, Same(0, |blocks|), [])
  }

  lemma FilledIsSound(k: nat, blocks: seq<Addr>, n: nat)
    requires k <= 31 && |blocks| <= Pow2(k)
    ensures Inv(Filled(k, blocks, n))
    ensures RingFifo.Queue(Filled(k, blocks, n)) == blocks
  {
    var s := Filled(k, blocks, n);
    assert WellFormed(s.m.sh);
    forall j | 0 <= j < |blocks| ensures s.m.sh.data[j % s.m.sh.max] == blocks[j] {
      ModUnique(j, s.m.sh.max, 0, j);
    }
  }

  // ---------------------------------------------------------------- the two rings together

  datatype Which = FreeRing | BusyRing

  datatype System = System(free: Tracked, busy: Tracked, hands: seq<multiset<Addr>>)

  datatype Move = Move(t: nat, which: Which, op: Op)

  function RingOf(sys: System, w: Which): Tracked { if w == FreeRing then sys.free else sys.busy }

  function Other(w: Which): Which { if w == FreeRing then BusyRing else FreeRing }

  /** Blocks inside a ring: from the moment a place is reserved for them to the moment it is given back. */
  ghost function Inside(s: Tracked): multiset<Addr>
    requires Indices(ViewOf(s))
  {
    multiset(s.log[s.m.sh.ct..])
  }

  function HandsBack(p: Pc): seq<Addr> { if p.PopPublish? then p.out else [] }

  /** The move can be made: the thread is in no other call, and asks to push only blocks it holds. */
  ghost predicate Enabled(sys: System, mv: Move) {
    var r, o := RingOf(sys, mv.which), RingOf(sys, Other(mv.which));
    && mv.t < |r.m.ts| && mv.t < |o.m.ts| && mv.t < |sys.hands| && NoLap(r) && Tame(r.m.sh, r.m.ts[mv.t])
    && o.m.ts[mv.t].Idle?
    && (r.m.ts[mv.t].Idle? && mv.op.Push? ==> multiset(mv.op.addr) <= sys.hands[mv.t])
  }

  ghost function Advance(sys: System, mv: Move): System
    requires Enabled(sys, mv) && |sys.hands| == |RingOf(sys, mv.which).m.ts|
    requires var r := RingOf(sys, mv.which); r.m.sh.max > 0 && |r.m.sh.data| == r.m.sh.max
  {
    var r := RingOf(sys, mv.which);
    var hands := HandsAfter(r, mv.t, sys.hands);
    if mv.which == FreeRing then System(Track(r, mv.t, mv.op), sys.busy, hands)
    else System(sys.free, Track(r, mv.t, mv.op), hands)
  }

  /** A thread on its way into a ring still holds what it wants to push. */
  ghost predicate WantsToPush(p: Pc) { p.PushLoadHead? || p.PushLoadTail? || p.PushCas? }

  ghost predicate HoldsIt(ts: seq<Pc>, hands: seq<multiset<Addr>>)
    requires |ts| == |hands|
  {
    forall t :: 0 <= t < |ts| && WantsToPush(ts[t]) ==> multiset(ts[t].addr) <= hands[t]
  }

  ghost function Sum(hands: seq<multiset<Addr>>): multiset<Addr> {
    if hands == [] then multiset{} else hands[0] + Sum(hands[1..])
  }

  ghost predicate SysInv(sys: System, blocks: multiset<Addr>) {
    && Inv(sys.free) && Inv(sys.busy)
    && |sys.hands| == |sys.free.m.ts| == |sys.busy.m.ts|
    && (forall t :: 0 <= t < |sys.hands| ==> sys.free.m.ts[t].Idle? || sys.busy.m.ts[t].Idle?)
    && HoldsIt(sys.free.m.ts, sys.hands) && HoldsIt(sys.busy.m.ts, sys.hands)
    && Total(sys) == blocks
    && |blocks| <= sys.free.m.sh.max && |blocks| <= sys.busy.m.sh.max
  }

  lemma {:induction false} SumMoves(hands: seq<multiset<Addr>>, t: nat, h: multiset<Addr>)
    requires t < |hands|
    ensures Sum(hands[t := h]) + hands[t] == Sum(hands) + h
    ensures hands[t] <= Sum(hands)
  {
    var first, rest := hands[0], hands[1..];
    if t == 0 {
      assert hands[0 := h][1..] == rest;
    } else {
      assert hands[t := h][1..] == rest[t - 1 := h] && hands[t := h][0] == first && hands[t] == rest[t - 1];
      SumMoves(rest, t - 1, h);
      Swapped(first, Sum(rest[t - 1 := h]), rest[t - 1], Sum(rest), h);
    }
  }

  lemma Swapped(a: multiset<Addr>, x: multiset<Addr>, y: multiset<Addr>, z: multiset<Addr>, h: multiset<Addr>)
    requires x + y == z + h && y <= z
    ensures (a + x) + y == (a + z) + h && y <= a + z
  {
    assert (a + x) + y == a + (x + y);
  }

  /** A consumer hands back what lies at the front of the ring. */
  lemma FromTheFront(s: Tracked, t: nat)
    requires Inv(s) && t < |s.m.ts| && Tame(s.m.sh, s.m.ts[t])
    ensures var ct, g, p := s.m.sh.ct, HandsBack(s.m.ts[t]), s.m.ts[t];
      && ct + |g| <= |s.log| && g == s.log[ct..ct + |g|]
      && (p.PopPublish? ==> p.head == ct && p.n == |g|)
  {
    assert PcOk(ViewOf(s), t, s.m.ts[t]);
  }

  lemma FrontOut(log: seq<Addr>, ct: nat, g: seq<Addr>, r: seq<Addr>)
    requires ct + |g| <= |log| && g == log[ct..ct + |g|]
    ensures multiset((log + r)[ct + |g|..]) + multiset(g) == multiset(log[ct..]) + multiset(r)
  {
    assert (log + r)[ct + |g|..] == log[ct + |g|..] + r;
    assert log[ct..] == g + log[ct + |g|..];
  }

  lemma InvSized(s: Tracked)
    requires Inv(s)
    ensures s.m.sh.max > 0 && |s.m.sh.data| == s.m.sh.max
  {
    MaxBound(s.m.sh);
  }

  lemma InsideIs(s: Tracked)
    requires Indices(ViewOf(s))
    ensures s.m.sh.ct <= |s.log| && Inside(s) == multiset(s.log[s.m.sh.ct..])
  {
  }

  lemma BackIs(p: Pc)
    ensures !p.PopPublish? ==> HandsBack(p) == []
  {
  }

  /** What a step moves into and out of a ring. */
  lemma RingExchanges(s: Tracked, t: nat, op: Op)
    requires Inv(s) && NoLap(s) && t < |s.m.ts| && Tame(s.m.sh, s.m.ts[t])
    ensures s.m.sh.max > 0 && Inv(Track(s, t, op))
    ensures Inside(Track(s, t, op)) + multiset(HandsBack(s.m.ts[t]))
      == Inside(s) + multiset(Reserves(s.m.sh, s.m.ts[t]))
  {
    hide *;
    StepKeepsInv(s, t, op);
    InvSized(s);
    IndicesMove(s, t, op);
    FromTheFront(s, t);
    InvIndices(s);
    InvIndices(Track(s, t, op));
    InsideIs(s);
    InsideIs(Track(s, t, op));
    BackIs(s.m.ts[t]);
    FrontOut(s.log, s.m.sh.ct, HandsBack(s.m.ts[t]), Reserves(s.m.sh, s.m.ts[t]));
  }

  /** No move of any thread gives up a push of blocks the thread holds: the rings are as large as the pool. */
  lemma PushNeverRefused(sys: System, blocks: multiset<Addr>, mv: Move)
    requires SysInv(sys, blocks) && Enabled(sys, mv)
    requires Recent(RingOf(sys, mv.which).m.sh, RingOf(sys, mv.which).m.ts[mv.t])
    ensures var r := RingOf(sys, mv.which); r.m.sh.max > 0 && |r.m.sh.data| == r.m.sh.max
    ensures var r := RingOf(sys, mv.which);
      var q := Track(r, mv.t, mv.op).m.ts[mv.t]; q.PushReturn? ==> q.ok
  {
    var r := RingOf(sys, mv.which);
    var p := r.m.ts[mv.t];
    InvSized(r);
    Refusal(r, mv.t, mv.op);
    hide SysInv, Inv, Track;
    if p.PushLoadTail? {
      BlocksFit(sys, blocks, mv);
      FullMeansFull(r, mv.t, mv.op, p.addr);
    }
  }

  /** The blocks a thread is about to push find room beside those in the ring. */
  lemma BlocksFit(sys: System, blocks: multiset<Addr>, mv: Move)
    requires SysInv(sys, blocks) && Enabled(sys, mv) && RingOf(sys, mv.which).m.ts[mv.t].PushLoadTail?
    ensures var r := RingOf(sys, mv.which); Inv(r) && r.m.sh.ph - r.m.sh.ct + |r.m.ts[mv.t].addr| <= r.m.sh.max
  {
    var r := RingOf(sys, mv.which);
    var p := r.m.ts[mv.t];
    SumMoves(sys.hands, mv.t, multiset{});
    var inside := Inside(r);
    assert multiset(p.addr) <= sys.hands[mv.t];
    assert |inside| == r.m.sh.ph - r.m.sh.ct;
    assert inside + multiset(p.addr) <= blocks;
    SubsetSize(inside + multiset(p.addr), blocks);
  }

  lemma Refusal(s: Tracked, t: nat, op: Op)
    requires t < |s.m.ts| && s.m.sh.max > 0 && |s.m.sh.data| == s.m.sh.max
    ensures var q := Track(s, t, op).m.ts[t]; q.PushReturn? && !q.ok ==> s.m.ts[t].PushLoadTail?
  {
  }

  lemma SubsetSize(a: multiset<Addr>, b: multiset<Addr>)
    requires a <= b
    ensures |a| <= |b|
  {
    assert a + (b - a) == b;
  }

  /** The hands after thread `t` has stepped in ring `r`. */
  ghost function HandsAfter(r: Tracked, t: nat, hands: seq<multiset<Addr>>): (after: seq<multiset<Addr>>)
    requires t < |r.m.ts| == |hands|
    ensures |after| == |hands|
  {
    hands[t := hands[t] - multiset(Reserves(r.m.sh, r.m.ts[t])) + multiset(HandsBack(r.m.ts[t]))]
  }

  /** What a step puts into a ring, the thread no longer holds; what it takes out, the thread holds. */
  lemma BlocksMove(r: Tracked, t: nat, op: Op, hands: seq<multiset<Addr>>)
    requires Inv(r) && NoLap(r) && t < |r.m.ts| == |hands| && Tame(r.m.sh, r.m.ts[t]) && HoldsIt(r.m.ts, hands)
    requires r.m.ts[t].Idle? && op.Push? ==> multiset(op.addr) <= hands[t]
    ensures r.m.sh.max > 0 && Inv(Track(r, t, op))
    ensures Inside(Track(r, t, op)) + Sum(HandsAfter(r, t, hands)) == Inside(r) + Sum(hands)
  {
    RingExchanges(r, t, op);
    HandStep(r, t, op, hands);
    InvIndices(r);
    InvIndices(Track(r, t, op));
    hide Inv, NoLap, TrackAct, Track, Reserves, Inside, Sum, HandsBack, HoldsIt, Tame, Indices;
    var in_, out := multiset(Reserves(r.m.sh, r.m.ts[t])), multiset(HandsBack(r.m.ts[t]));
    SumMoves(hands, t, hands[t] - in_ + out);
    Balanced(Inside(Track(r, t, op)), out, Inside(r), in_, hands[t], Sum(HandsAfter(r, t, hands)), Sum(hands));
  }

  /** Threads on their way in still hold what they want to push, in the ring stepped and in the other. */
  lemma StillHolds(r: Tracked, o: Tracked, t: nat, op: Op, hands: seq<multiset<Addr>>)
    requires Inv(r) && t < |r.m.ts| == |hands| == |o.m.ts| && HoldsIt(r.m.ts, hands) && HoldsIt(o.m.ts, hands)
    requires o.m.ts[t].Idle?
    requires r.m.ts[t].Idle? && op.Push? ==> multiset(op.addr) <= hands[t]
    ensures r.m.sh.max > 0 && |Track(r, t, op).m.ts| == |hands|
    ensures HoldsIt(Track(r, t, op).m.ts, HandsAfter(r, t, hands)) && HoldsIt(o.m.ts, HandsAfter(r, t, hands))
  {
    HandStep(r, t, op, hands);
    MaxBound(r.m.sh);
    IndicesMove(r, t, op);
    hide Inv, TrackAct, Track, Reserves, HandsBack;
  }

  lemma Balanced(x': multiset<Addr>, out: multiset<Addr>, x: multiset<Addr>, in_: multiset<Addr>,
                 hand: multiset<Addr>, all': multiset<Addr>, all: multiset<Addr>)
    requires x' + out == x + in_ && in_ <= hand && all' + hand == all + (hand - in_ + out)
    ensures x' + all' == x + all
  {
    forall b: Addr ensures (x' + all')[b] == (x + all)[b] {
      assert (x' + out)[b] == (x + in_)[b] && (all' + hand)[b] == (all + (hand - in_ + out))[b];
    }
  }

  ghost function Total(sys: System): multiset<Addr>
    requires Indices(ViewOf(sys.free)) && Indices(ViewOf(sys.busy))
  {
    Inside(sys.free) + Inside(sys.busy) + Sum(sys.hands)
  }

  lemma InvSizes(s: Tracked)
    requires Inv(s)
    ensures Indices(ViewOf(s)) && s.m.sh.max > 0 && |s.m.sh.data| == s.m.sh.max
  {
    MaxBound(s.m.sh);
  }

  /** Every move of every thread keeps every block in exactly one place. */
  lemma AdvanceKeeps(sys: System, blocks: multiset<Addr>, mv: Move)
    requires SysInv(sys, blocks) && Enabled(sys, mv)
    ensures var r := RingOf(sys, mv.which); r.m.sh.max > 0 && |r.m.sh.data| == r.m.sh.max
    ensures SysInv(Advance(sys, mv), blocks)
  {
    hide Inv, NoLap, TrackAct, Track, Inside, Sum, Reserves, Takes, HandsBack, Tame, HoldsIt, Indices, HandsAfter;
    var t, r, o := mv.t, RingOf(sys, mv.which), RingOf(sys, Other(mv.which));
    InvSizes(sys.free);
    InvSizes(sys.busy);
    BlocksMove(r, t, mv.op, sys.hands);
    StillHolds(r, o, t, mv.op, sys.hands);
    IndicesMove(r, t, mv.op);
    InvSizes(Track(r, t, mv.op));
    var sys', r' := Advance(sys, mv), Track(r, t, mv.op);
    assert Total(sys) == Inside(r) + Sum(sys.hands) + Inside(o);
    assert Total(sys') == Inside(r') + Sum(sys'.hands) + Inside(o);
  }

  /** A thread reserves places only for blocks it holds, and goes on holding what it still wants to push. */
  lemma HandStep(s: Tracked, t: nat, op: Op, hands: seq<multiset<Addr>>)
    requires Inv(s) && t < |s.m.ts| == |hands| && HoldsIt(s.m.ts, hands)
    requires s.m.ts[t].Idle? && op.Push? ==> multiset(op.addr) <= hands[t]
    ensures s.m.sh.max > 0
    ensures multiset(Reserves(s.m.sh, s.m.ts[t])) <= hands[t]
    ensures var q := Track(s, t, op).m.ts[t];
      WantsToPush(q) ==>
        multiset(q.addr) <= hands[t] - multiset(Reserves(s.m.sh, s.m.ts[t]))
        + multiset(HandsBack(s.m.ts[t]))
  {
    MaxBound(s.m.sh);
    hide Inv, Lo, WellFormed;
  }

  // ---------------------------------------------------------------- runs

  ghost predicate Playable(sys: System, moves: seq<Move>)
    decreases |moves|
  {
    moves == [] ||
    (&& Enabled(sys, moves[0])
     && |sys.hands| == |RingOf(sys, moves[0].which).m.ts|
     && (var r := RingOf(sys, moves[0].which); r.m.sh.max > 0 && |r.m.sh.data| == r.m.sh.max)
     && Playable(Advance(sys, moves[0]), moves[1..]))
  }

  ghost function Play(sys: System, moves: seq<Move>): System
    requires Playable(sys, moves)
    decreases |moves|
  {
    if moves == [] then sys else Play(Advance(sys, moves[0]), moves[1..])
  }

  lemma {:induction false} PlayKeeps(sys: System, blocks: multiset<Addr>, moves: seq<Move>)
    requires SysInv(sys, blocks) && Playable(sys, moves)
    ensures SysInv(Play(sys, moves), blocks)
    decreases |moves|
  {
    hide SysInv, Enabled, Advance;
    if moves != [] {
      AdvanceKeeps(sys, blocks, moves[0]);
      PlayKeeps(Advance(sys, moves[0]), blocks, moves[1..]);
    }
  }

  ghost function Nobody(n: nat): seq<multiset<Addr>> { seq(n, i => multiset{}) }

  lemma {:induction false} SumNobody(n: nat)
    ensures Sum(Nobody(n)) == multiset{}
  {
    if n > 0 {
      assert Nobody(n)[1..] == Nobody(n - 1);
      SumNobody(n - 1);
    }
  }

  /** The queue as `queue_creat` leaves it: every block free, nothing queued, nobody holding anything. */
  lemma QueueCreated(k: nat, blocks: seq<Addr>, n: nat)
    requires k <= 31 && |blocks| <= Pow2(k)
    ensures SysInv(System(Filled(k, blocks, n), Created(k, n), Nobody(n)), multiset(blocks))
  {
    FilledIsSound(k, blocks, n);
    CreatedIsSound(k, n);
    SumNobody(n);
    assert blocks[0..] == blocks;
    assert |multiset(blocks)| == |blocks|;
  }

  /** The blocks of the pool: `num` of them, `size` bytes apart. */
  function BlocksAt(base: Addr, num: nat, size: nat): (blocks: seq<Addr>)
    ensures |blocks| == num
  {
    seq(num, i => base + i * size)
  }

  /** They are different ones, since their size is not zero. */
  lemma BlocksDiffer(base: Addr, num: nat, size: nat)
    requires size > 0
    ensures forall b :: b in BlocksAt(base, num, size) ==> multiset(BlocksAt(base, num, size))[b] == 1
  {
    var blocks := BlocksAt(base, num, size);
    forall i, j | 0 <= i < j < num ensures blocks[i] != blocks[j] { BlocksSpaced(i, j, size); }
    forall b | b in blocks ensures multiset(blocks)[b] == 1 { OnlyOnce(blocks, b); }
  }

  lemma BlocksSpaced(i: nat, j: nat, size: nat)
    requires i < j
    ensures i * size + size <= j * size
  {
    assert j * size - i * size == (j - i) * size;
    AtLeastOne(j - i, size);
  }

  lemma {:induction false} OnlyOnce(s: seq<Addr>, b: Addr)
    requires b in s && forall i, j :: 0 <= i < j < |s| ==> s[i] != s[j]
    ensures multiset(s)[b] == 1
  {
    assert s == [s[0]] + s[1..];
    if s[0] == b {
      assert b !in s[1..];
    } else {
      OnlyOnce(s[1..], b);
    }
  }

  /** `slot_alloc`: nothing for a size above that of the blocks, otherwise a block off the free ring. */
  function Malloc(slotSize: int, size: int): Option<Op> { if size > slotSize then None else Some(Pop(1)) }

  /** The sizes it turns down are those for which two blocks next to each other would overlap. */
  lemma MallocIsRight(base: Addr, num: nat, slotSize: nat, size: int)
    requires num >= 2
    ensures Malloc(slotSize, size).Some? <==>
      forall i, j :: 0 <= i < j < num ==> BlocksAt(base, num, slotSize)[i] + size <= BlocksAt(base, num, slotSize)[j]
  {
    var blocks := BlocksAt(base, num, slotSize);
    forall i, j | 0 <= i < j < num ensures blocks[i] + slotSize <= blocks[j] { BlocksSpaced(i, j, slotSize); }
    assert blocks[1] == blocks[0] + slotSize;
  }

  /** `queue_creat`, from the two ring buffers and the pool memory at `base` it is given: every block is free, nothing
      is queued, and each block is the only one at its address. There is no buffer of a negative size to be had. */
  method QueueCreat(max: nat, size: nat, base: Addr, allocOk: bool, n: nat)
    returns (made: bool, slots: Shared, ring: Shared, ghost sys: System)
    requires max < 0x8000_0000
    ensures made <==> 0 < max <= 0x4000_0000 && size != 0 && allocOk
    ensures made ==> SysInv(sys, multiset(BlocksAt(base, max, size))) && |sys.hands| == n
    ensures made ==> sys.free.m.sh == slots && sys.busy.m.sh == ring && max <= slots.max == ring.max
    ensures made ==> RingFifo.Queue(sys.free) == BlocksAt(base, max, size) && RingFifo.Queue(sys.busy) == []
    ensures made ==> forall b :: b in BlocksAt(base, max, size) ==> multiset(BlocksAt(base, max, size))[b] == 1
  {
    hide SysInv, Inv, Inside, Solo;
    ring := Shared(0, 0, [], 0, 0, 0, 0);
    slots, made, sys := ring, false, System(Created(0, n), Created(0, n), Nobody(n));
    if max == 0 || size == 0 || !allocOk { return; }
    var cap := Power2(max);
    if cap < 0 { return; }
    ghost var k: nat :| k <= 30 && cap == Pow2(k);
    TwoTo31(k);
    ring := Shared(cap, 0, seq(cap, i => 0), 0, 0, 0, 0);
    var blocks := BlocksAt(base, max, size);
    slots, made := SlotCreat(ring, blocks);
    assert ring.data[max..] == seq(cap - max, i => 0);
    QueueCreated(k, blocks, n);
    FilledIsSound(k, blocks, n);
    CreatedIsSound(k, n);
    BlocksDiffer(base, max, size);
    sys := System(Filled(k, blocks, n), Created(k, n), Nobody(n));
  }

  lemma TwoTo31(k: nat)
    requires k <= 31
    ensures Pow2(k) <= 0x8000_0000
  {
    Pow2Grows(k, 31);
    Pow2Of32();
  }

  /** When the blocks are different ones, each is in one place only: the free ring, the queue, or the
      hand of one thread. */
  lemma OnePlace(sys: System, blocks: multiset<Addr>, b: Addr)
    requires SysInv(sys, blocks) && blocks[b] == 1
    ensures Inside(sys.free)[b] + Inside(sys.busy)[b] + Sum(sys.hands)[b] == 1
    ensures forall t, u :: 0 <= t < u < |sys.hands| ==> !(b in sys.hands[t] && b in sys.hands[u])
    ensures forall t :: 0 <= t < |sys.hands| && b in sys.hands[t] ==> b !in Inside(sys.free) && b !in Inside(sys.busy)
  {
    InvIndices(sys.free);
    InvIndices(sys.busy);
    hide Inv, HoldsIt, Inside, Sum, Indices;
    assert Total(sys)[b] == 1;
    forall t | 0 <= t < |sys.hands| ensures sys.hands[t] <= Sum(sys.hands) { SumMoves(sys.hands, t, multiset{}); }
    forall t, u | 0 <= t < u < |sys.hands| ensures !(b in sys.hands[t] && b in sys.hands[u]) {
      TwoHands(sys.hands, t, u);
    }
  }

  lemma TwoHands(hands: seq<multiset<Addr>>, t: nat, u: nat)
    requires t < u < |hands|
    ensures hands[t] + hands[u] <= Sum(hands)
  {
    var without := hands[t := multiset{}];
    SumMoves(hands, t, multiset{});
    SumMoves(without, u, multiset{});
    assert without[u] == hands[u];
    assert Sum(hands) == Sum(without) + hands[t];
  }
}
