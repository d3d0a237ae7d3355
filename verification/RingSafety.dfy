/** What every step of the ring keeps, for any number of threads and any interleaving. */
module RingSafety {
  import opened Arith
  import opened Ring

  /** Reserved for writing and not yet published; for reading and not yet given back. */
  ghost predicate Pending(p: Pc) { p.PushCopy? || p.PushAwait? || p.PushPublish? }

  ghost predicate Taking(p: Pc) { p.PopCopy? || p.PopAwait? || p.PopPublish? }

  ghost predicate Writes(p: Pc, j: nat) { Pending(p) && p.head <= j < p.head + |p.addr| }

  ghost predicate Reads(p: Pc, j: nat) { Taking(p) && p.head <= j < p.head + p.n }

  ghost function Copied(p: Pc): nat
    requires Pending(p)
  {
    if p.PushCopy? then p.i else |p.addr|
  }

  /** The indices and histories of a tracked machine: all but its slots, its count and its threads. */
  datatype View = View(max: nat, ph: nat, pt: nat, ch: nat, ct: nat,
                       log: seq<Addr>, powner: seq<nat>, cowner: seq<nat>)

  ghost function ViewOf(s: Tracked): View {
    View(s.m.sh.max, s.m.sh.ph, s.m.sh.pt, s.m.sh.ch, s.m.sh.ct, s.log, s.powner, s.cowner)
  }

  ghost predicate Indices(v: View) {
    && v.ct <= v.ch <= v.pt <= v.ph <= v.ct + v.max
    && |v.log| == |v.powner| == v.ph && |v.cowner| == v.ch
  }

  /** The interval a pending producer reserved is its own, unpublished, and logged with its values. An empty
      one is nobody's, and the tail may pass it. */
  ghost predicate ProducerOk(v: View, t: nat, p: Pc)
    requires Indices(v) && Pending(p)
  {
    if p.addr == [] then Copied(p) == 0 && p.head <= v.ph && (p.PushPublish? ==> p.head <= v.pt) else
    && Copied(p) <= |p.addr| && v.pt <= p.head && p.head + |p.addr| <= v.ph
    && (forall j :: p.head <= j < p.head + |p.addr| ==> v.powner[j] == t && v.log[j] == p.addr[j - p.head])
    && (p.PushPublish? ==> p.head == v.pt)
  }

  /** The interval a pending consumer took is its own, and what it copied out is what was logged there. */
  ghost predicate ConsumerOk(v: View, t: nat, p: Pc)
    requires Indices(v) && Taking(p)
  {
    if p.n == 0 then p.out == [] && p.head <= v.ch && (p.PopPublish? ==> p.head <= v.ct) else
    && |p.out| <= p.n && v.ct <= p.head && p.head + p.n <= v.ch
    && (forall j :: p.head <= j < p.head + p.n ==> v.cowner[j] == t)
    && p.out == v.log[p.head..p.head + |p.out|]
    && (!p.PopCopy? ==> |p.out| == p.n) && (p.PopPublish? ==> p.head == v.ct)
  }

  ghost predicate PcOk(v: View, t: nat, p: Pc)
    requires Indices(v)
  {
    match p
    case PushLoadTail(addr, head) => head <= v.ph
    case PushCas(addr, head, tail) =>
      head <= v.ph && tail <= v.ct && head <= tail + v.max && |addr| <= Lo(v.max + tail - head)
    case PopLoadTail(n, head) => head <= v.ch
    case PopTally(n, out) => |out| == n
    case PopCas(n, head, tail) => head <= v.ch && head <= tail <= v.pt && n <= Lo(tail - head)
    case _ => (Pending(p) ==> ProducerOk(v, t, p)) && (Taking(p) ==> ConsumerOk(v, t, p))
  }

  ghost predicate AllOk(v: View, ts: seq<Pc>)
    requires Indices(v)
  {
    forall t :: 0 <= t < |ts| ==> PcOk(v, t, ts[t])
  }

  /** Every reserved place belongs to a thread that is still busy with it. */
  ghost predicate Covered(v: View, ts: seq<Pc>)
    requires Indices(v)
  {
    && (forall j :: v.pt <= j < v.ph ==> v.powner[j] < |ts| && Writes(ts[v.powner[j]], j))
    && (forall j :: v.ct <= j < v.ch ==> v.cowner[j] < |ts| && Reads(ts[v.cowner[j]], j))
  }

  /** The value for index `j` has reached its slot. */
  ghost predicate Filled(v: View, ts: seq<Pc>, j: nat)
    requires Indices(v) && j < v.ph
  {
    j < v.pt || (v.powner[j] < |ts| && Pending(ts[v.powner[j]]) && j < ts[v.powner[j]].head + Copied(ts[v.powner[j]]))
  }

  ghost predicate Stored(v: View, ts: seq<Pc>, data: seq<Addr>)
    requires Indices(v) && |data| == v.max
  {
    forall j :: v.ct <= j < v.ph && Filled(v, ts, j) ==> data[j % v.max] == v.log[j]
  }

  ghost predicate Inv(s: Tracked) {
    var v := ViewOf(s);
    && WellFormed(s.m.sh) && Indices(v)
    && AllOk(v, s.m.ts) && Covered(v, s.m.ts) && Stored(v, s.m.ts, s.m.sh.data)
  }

  /** No compare-and-set wins on a head index that has moved on and come round to the same word. */
  ghost predicate NoLap(s: Tracked) {
    forall t :: 0 <= t < |s.m.ts| ==> Fresh(s.m.sh, s.m.ts[t])
  }

  ghost predicate Fresh(s: Shared, p: Pc) {
    && (p.PushCas? && Lo(s.ph) == Lo(p.head) ==> s.ph == p.head)
    && (p.PopCas? && Lo(s.ch) == Lo(p.head) ==> s.ch == p.head)
  }

  /** So it is, in particular, when no thread sleeps there while that index runs through a whole lap. */
  lemma ShortSleeps(s: Tracked)
    requires Inv(s)
    requires forall t :: 0 <= t < |s.m.ts| ==> AsleepFor(s.m.sh, s.m.ts[t]) < TWO_TO_THE_32
    ensures NoLap(s)
  {
    forall t | 0 <= t < |s.m.ts| ensures Fresh(s.m.sh, s.m.ts[t]) {
      var p := s.m.ts[t];
      assert PcOk(ViewOf(s), t, p) && AsleepFor(s.m.sh, p) < TWO_TO_THE_32;
      if p.PushCas? && Lo(s.m.sh.ph) == Lo(p.head) { SameWord(p.head, s.m.sh.ph); }
      if p.PopCas? && Lo(s.m.sh.ch) == Lo(p.head) { SameWord(p.head, s.m.sh.ch); }
    }
  }

  /** How far the head index has moved on since the thread read it. */
  function AsleepFor(s: Shared, p: Pc): int {
    if p.PushLoadTail? || p.PushCas? then s.ph - p.head
    else if p.PopLoadTail? || p.PopCas? then s.ch - p.head
    else 0
  }

  /** The step does not turn a tail back, as an empty request does that publishes when others have moved
      the tail on since its turn came. */
  predicate Tame(s: Shared, p: Pc) {
    && (p.PushPublish? && p.addr == [] ==> s.pt == p.head)
    && (p.PopPublish? && p.n == 0 ==> s.ct == p.head)
  }

  // ---------------------------------------------------------------- steps that only move a thread

  /** What a thread holds does not change hands. */
  ghost predicate SameHold(p: Pc, q: Pc) {
    && (Pending(p) <==> Pending(q)) && (Taking(p) <==> Taking(q))
    && (Pending(p) ==> p.addr == q.addr && p.head == q.head && Copied(p) == Copied(q))
    && (Taking(p) ==> p.n == q.n && p.head == q.head)
  }

  lemma HoldKept(v: View, ts: seq<Pc>, t: nat, q: Pc, data: seq<Addr>)
    requires Indices(v) && |data| == v.max && t < |ts| && SameHold(ts[t], q)
    requires AllOk(v, ts) && Covered(v, ts) && Stored(v, ts, data) && PcOk(v, t, q)
    ensures AllOk(v, ts[t := q]) && Covered(v, ts[t := q]) && Stored(v, ts[t := q], data)
  {
    hide PcOk;
    assert Covered(v, ts[t := q]);
    assert forall j :: v.ct <= j < v.ph && Filled(v, ts[t := q], j) ==> Filled(v, ts, j);
  }

  // ---------------------------------------------------------------- steps that move an index

  /** The standing of a thread survives the indices growing, as long as they do not pass what it holds. */
  lemma PcOkGrows(v: View, w: View, t: nat, p: Pc)
    requires Indices(v) && Indices(w) && PcOk(v, t, p)
    requires w.max == v.max && v.ph <= w.ph && v.pt <= w.pt && v.ch <= w.ch && v.ct <= w.ct
    requires v.log <= w.log && v.powner <= w.powner && v.cowner <= w.cowner
    requires Pending(p) && p.addr != [] ==> w.pt <= p.head && (p.PushPublish? ==> w.pt == p.head)
    requires Taking(p) && p.n > 0 ==> w.ct <= p.head && (p.PopPublish? ==> w.ct == p.head)
    ensures PcOk(w, t, p)
  {
    hide Lo, ProducerOk, ConsumerOk;
    if Pending(p) {
      ProducerGrows(v, w, t, p);
    } else if Taking(p) {
      ConsumerGrows(v, w, t, p);
    }
  }

  lemma ProducerGrows(v: View, w: View, t: nat, p: Pc)
    requires Indices(v) && Indices(w) && Pending(p) && ProducerOk(v, t, p)
    requires v.ph <= w.ph && v.pt <= w.pt && v.log <= w.log && v.powner <= w.powner
    requires p.addr != [] ==> w.pt <= p.head && (p.PushPublish? ==> w.pt == p.head)
    ensures ProducerOk(w, t, p)
  {
  }

  lemma ConsumerGrows(v: View, w: View, t: nat, p: Pc)
    requires Indices(v) && Indices(w) && Taking(p) && ConsumerOk(v, t, p)
    requires v.ch <= w.ch && v.ct <= w.ct && v.log <= w.log && v.cowner <= w.cowner
    requires p.n > 0 ==> w.ct <= p.head && (p.PopPublish? ==> w.ct == p.head)
    ensures ConsumerOk(w, t, p)
  {
    assert w.log[..v.ph] == v.log;
  }

  lemma Reserved(v: View, ts: seq<Pc>, t: nat, addr: seq<Addr>, data: seq<Addr>)
    requires Indices(v) && |data| == v.max && t < |ts| && ts[t].PushCas?
    requires AllOk(v, ts) && Covered(v, ts) && Stored(v, ts, data) && v.ph + |addr| <= v.ct + v.max
    ensures var w := v.(ph := v.ph + |addr|, log := v.log + addr, powner := v.powner + Same(t, |addr|));
      var ts' := ts[t := PushCopy(addr, v.ph, 0)];
      Indices(w) && AllOk(w, ts') && Covered(w, ts') && Stored(w, ts', data)
  {
    var w := v.(ph := v.ph + |addr|, log := v.log + addr, powner := v.powner + Same(t, |addr|));
    var ts' := ts[t := PushCopy(addr, v.ph, 0)];
    forall u | 0 <= u < |ts'| ensures PcOk(w, u, ts'[u]) {
      if u != t { PcOkGrows(v, w, u, ts[u]); }
    }
    hide PcOk;
    assert Covered(w, ts');
    assert forall j :: w.ct <= j < w.ph && Filled(w, ts', j) ==> j < v.ph && Filled(v, ts, j);
  }

  lemma CopiedIn(v: View, ts: seq<Pc>, t: nat, data: seq<Addr>)
    requires Indices(v) && |data| == v.max && t < |ts| && ts[t].PushCopy? && ts[t].i < |ts[t].addr|
    requires AllOk(v, ts) && Covered(v, ts) && Stored(v, ts, data)
    ensures v.max > 0
    ensures var p := ts[t];
      var ts' := ts[t := p.(i := p.i + 1)];
      AllOk(v, ts') && Covered(v, ts') && Stored(v, ts', data[(p.head + p.i) % v.max := p.addr[p.i]])
  {
    var p := ts[t];
    assert PcOk(v, t, p);
    var k := p.head + p.i;
    var ts', data' := ts[t := p.(i := p.i + 1)], data[k % v.max := p.addr[p.i]];
    assert PcOk(v, t, ts'[t]);
    assert Covered(v, ts') by { hide PcOk; }
    forall j | v.ct <= j < v.ph && Filled(v, ts', j) ensures data'[j % v.max] == v.log[j] {
      if j < k {
        ModDistinct(j, k, v.max);
        assert Filled(v, ts, j);
      } else if k < j {
        ModDistinct(k, j, v.max);
        assert Filled(v, ts, j);
      }
    }
  }

  /** Nothing below the places thread `t` is about to publish belongs to anyone else. */
  lemma PublishFirst(v: View, ts: seq<Pc>, t: nat, u: nat)
    requires Indices(v) && AllOk(v, ts) && t < |ts| && u < |ts| && u != t && ts[t].PushPublish? && Pending(ts[u])
    requires ts[t].addr != [] && ts[u].addr != []
    ensures ts[t].head + |ts[t].addr| <= ts[u].head
    ensures !ts[u].PushPublish?
  {
    assert PcOk(v, t, ts[t]) && PcOk(v, u, ts[u]);
    var a, b := ts[t].head, ts[u].head;
    assert v.powner[a] == t && v.powner[b] == u;
  }

  lemma Published(v: View, ts: seq<Pc>, t: nat, data: seq<Addr>)
    requires Indices(v) && |data| == v.max && t < |ts| && ts[t].PushPublish?
    requires ts[t].addr == [] ==> v.pt == ts[t].head
    requires AllOk(v, ts) && Covered(v, ts) && Stored(v, ts, data)
    ensures ts[t].head == v.pt && v.pt + |ts[t].addr| <= v.ph && v.log[v.pt..v.pt + |ts[t].addr|] == ts[t].addr
    ensures var w := v.(pt := ts[t].head + |ts[t].addr|);
      var ts' := ts[t := PushTally(ts[t].addr)];
      Indices(w) && AllOk(w, ts') && Covered(w, ts') && Stored(w, ts', data)
  {
    var p := ts[t];
    assert PcOk(v, t, p);
    var w, ts' := v.(pt := p.head + |p.addr|), ts[t := PushTally(p.addr)];
    forall u | 0 <= u < |ts'| ensures PcOk(w, u, ts'[u]) {
      if u != t {
        if Pending(ts[u]) && p.addr != [] && ts[u].addr != [] { PublishFirst(v, ts, t, u); }
        PcOkGrows(v, w, u, ts[u]);
      }
    }
    hide PcOk;
    assert Covered(w, ts');
    assert forall j :: w.ct <= j < w.ph && Filled(w, ts', j) ==> Filled(v, ts, j);
  }

  lemma Taken(v: View, ts: seq<Pc>, t: nat, n: nat, data: seq<Addr>)
    requires Indices(v) && |data| == v.max && t < |ts| && ts[t].PopCas?
    requires AllOk(v, ts) && Covered(v, ts) && Stored(v, ts, data) && v.ch + n <= v.pt
    ensures var w := v.(ch := v.ch + n, cowner := v.cowner + Same(t, n));
      var ts' := ts[t := PopCopy(n, v.ch, [])];
      Indices(w) && AllOk(w, ts') && Covered(w, ts') && Stored(w, ts', data)
  {
    var w, ts' := v.(ch := v.ch + n, cowner := v.cowner + Same(t, n)), ts[t := PopCopy(n, v.ch, [])];
    forall u | 0 <= u < |ts'| ensures PcOk(w, u, ts'[u]) {
      if u != t { PcOkGrows(v, w, u, ts[u]); }
    }
    hide PcOk;
    assert Covered(w, ts');
    assert forall j :: w.ct <= j < w.ph && Filled(w, ts', j) ==> Filled(v, ts, j);
  }

  lemma GivenBackFirst(v: View, ts: seq<Pc>, t: nat, u: nat)
    requires Indices(v) && AllOk(v, ts) && t < |ts| && u < |ts| && u != t && ts[t].PopPublish? && Taking(ts[u])
    requires ts[t].n > 0 && ts[u].n > 0
    ensures ts[t].head + ts[t].n <= ts[u].head
    ensures !ts[u].PopPublish?
  {
    assert PcOk(v, t, ts[t]) && PcOk(v, u, ts[u]);
    var a, b := ts[t].head, ts[u].head;
    assert v.cowner[a] == t && v.cowner[b] == u;
  }

  lemma OtherAfterGivingBack(v: View, ts: seq<Pc>, t: nat, u: nat)
    requires Indices(v) && AllOk(v, ts) && t < |ts| && u < |ts| && u != t && ts[t].PopPublish?
    requires ts[t].head == v.ct && v.ct + ts[t].n <= v.ch
    ensures PcOk(v.(ct := ts[t].head + ts[t].n), u, ts[u])
  {
    assert PcOk(v, u, ts[u]);
    if Taking(ts[u]) && ts[t].n > 0 && ts[u].n > 0 { GivenBackFirst(v, ts, t, u); }
    PcOkGrows(v, v.(ct := ts[t].head + ts[t].n), u, ts[u]);
  }

  lemma Tallies(v: View, t: nat, p: Pc)
    requires Indices(v) && (p.PushTally? || (p.PopTally? && |p.out| == p.n))
    ensures PcOk(v, t, p)
  {
  }

  lemma GivenBack(v: View, ts: seq<Pc>, t: nat, data: seq<Addr>)
    requires Indices(v) && |data| == v.max && t < |ts| && ts[t].PopPublish?
    requires ts[t].n == 0 ==> v.ct == ts[t].head
    requires AllOk(v, ts) && Covered(v, ts) && Stored(v, ts, data)
    ensures ts[t].head == v.ct && v.ct + ts[t].n <= v.ch
    ensures var w := v.(ct := ts[t].head + ts[t].n);
      var ts' := ts[t := PopTally(ts[t].n, ts[t].out)];
      Indices(w) && AllOk(w, ts') && Covered(w, ts') && Stored(w, ts', data)
  {
    var p := ts[t];
    assert PcOk(v, t, p);
    hide PcOk, AllOk, Covered, Stored;
    GivenBackOk(v, ts, t);
    StillCovered(v, ts, t);
    StillStored(v, ts, t, data);
  }

  lemma GivenBackOk(v: View, ts: seq<Pc>, t: nat)
    requires Indices(v) && t < |ts| && ts[t].PopPublish? && AllOk(v, ts) && |ts[t].out| == ts[t].n
    requires ts[t].head == v.ct && v.ct + ts[t].n <= v.ch
    ensures AllOk(v.(ct := ts[t].head + ts[t].n), ts[t := PopTally(ts[t].n, ts[t].out)])
  {
    var w, ts' := v.(ct := ts[t].head + ts[t].n), ts[t := PopTally(ts[t].n, ts[t].out)];
    hide PcOk;
    forall u | 0 <= u < |ts'| ensures PcOk(w, u, ts'[u]) {
      if u != t { OtherAfterGivingBack(v, ts, t, u); } else { Tallies(w, t, ts'[t]); }
    }
  }

  lemma StillCovered(v: View, ts: seq<Pc>, t: nat)
    requires Indices(v) && t < |ts| && ts[t].PopPublish? && Covered(v, ts)
    requires ts[t].head == v.ct && v.ct + ts[t].n <= v.ch
    ensures Covered(v.(ct := ts[t].head + ts[t].n), ts[t := PopTally(ts[t].n, ts[t].out)])
  {
  }

  lemma StillStored(v: View, ts: seq<Pc>, t: nat, data: seq<Addr>)
    requires Indices(v) && |data| == v.max && t < |ts| && ts[t].PopPublish? && Stored(v, ts, data)
    requires ts[t].head == v.ct && v.ct + ts[t].n <= v.ch
    ensures Stored(v.(ct := ts[t].head + ts[t].n), ts[t := PopTally(ts[t].n, ts[t].out)], data)
  {
    var w, ts' := v.(ct := ts[t].head + ts[t].n), ts[t := PopTally(ts[t].n, ts[t].out)];
    assert forall j :: w.ct <= j < w.ph && Filled(w, ts', j) ==> Filled(v, ts, j);
  }

  // ---------------------------------------------------------------- every step

  lemma MaxBound(s: Shared)
    requires WellFormed(s)
    ensures 0 < s.max < TWO_TO_THE_32
  {
    var k: nat :| k <= 31 && s.max == Pow2(k);
    Pow2Of32();
    Pow2Sum(32 - k, k);
    AtLeastOne(Pow2(32 - k), s.max);
    assert Pow2(32 - k) == 2 * Pow2(31 - k);
    Distribute(Pow2(31 - k), Pow2(31 - k), s.max);
    AtLeastOne(Pow2(31 - k), s.max);
  }

  /** Words less than a lap apart are equal only if the indices are. */
  lemma SameWord(a: nat, b: nat)
    requires a <= b < a + TWO_TO_THE_32 && Lo(a) == Lo(b)
    ensures a == b
  {
  }

  lemma SmallWord(x: int)
    requires 0 <= x < TWO_TO_THE_32
    ensures Lo(x) == x
  {
  }

  /** A successful reservation stays within the room there is. */
  lemma RoomReserved(s: Tracked, t: nat)
    requires Inv(s) && NoLap(s) && t < |s.m.ts|
    requires s.m.ts[t].PushCas? && Lo(s.m.sh.ph) == Lo(s.m.ts[t].head)
    ensures s.m.sh.ph + |s.m.ts[t].addr| <= s.m.sh.ct + s.m.sh.max
  {
    var v, p := ViewOf(s), s.m.ts[t];
    MaxBound(s.m.sh);
    assert PcOk(v, t, p) && Fresh(s.m.sh, p);
    SmallWord(v.max + p.tail - p.head);
  }

  /** A successful taking stays within what is published. */
  lemma ValuesTaken(s: Tracked, t: nat)
    requires Inv(s) && NoLap(s) && t < |s.m.ts|
    requires s.m.ts[t].PopCas? && Lo(s.m.sh.ch) == Lo(s.m.ts[t].head)
    ensures s.m.sh.ch + s.m.ts[t].n <= s.m.sh.pt
  {
    var v, p := ViewOf(s), s.m.ts[t];
    MaxBound(s.m.sh);
    assert PcOk(v, t, p) && Fresh(s.m.sh, p);
    SmallWord(p.tail - p.head);
  }

  /** The wait for one's turn ends exactly when the tail index has come to one's own interval. */
  lemma TurnCome(s: Tracked, t: nat)
    requires Inv(s) && t < |s.m.ts|
    ensures s.m.ts[t].PushAwait? && s.m.ts[t].addr != [] ==>
      (Lo(s.m.sh.pt) == Lo(s.m.ts[t].head) <==> s.m.sh.pt == s.m.ts[t].head)
    ensures s.m.ts[t].PopAwait? && s.m.ts[t].n > 0 ==>
      (Lo(s.m.sh.ct) == Lo(s.m.ts[t].head) <==> s.m.sh.ct == s.m.ts[t].head)
    ensures s.m.ts[t].PushAwait? && Lo(s.m.sh.pt) == Lo(s.m.ts[t].head) ==> s.m.ts[t].head <= s.m.sh.pt
    ensures s.m.ts[t].PopAwait? && Lo(s.m.sh.ct) == Lo(s.m.ts[t].head) ==> s.m.ts[t].head <= s.m.sh.ct
  {
    var v, p := ViewOf(s), s.m.ts[t];
    MaxBound(s.m.sh);
    assert PcOk(v, t, p);
    if p.PushAwait? && Lo(v.pt) == Lo(p.head) && v.pt < p.head { SameWord(v.pt, p.head); }
    if p.PopAwait? && Lo(v.ct) == Lo(p.head) && v.ct < p.head { SameWord(v.ct, p.head); }
  }

  /** What a consumer reads from its slots is what was logged there. */
  lemma ReadsLog(s: Tracked, t: nat)
    requires Inv(s) && t < |s.m.ts| && s.m.ts[t].PopCopy? && |s.m.ts[t].out| < s.m.ts[t].n
    ensures var p := s.m.ts[t];
      0 < s.m.sh.max == |s.m.sh.data| && p.head + |p.out| < |s.log| &&
      s.m.sh.data[(p.head + |p.out|) % s.m.sh.max] == s.log[p.head + |p.out|]
  {
    var v, p := ViewOf(s), s.m.ts[t];
    MaxBound(s.m.sh);
    assert PcOk(v, t, p);
    assert Filled(v, s.m.ts, p.head + |p.out|);
  }

  /** The step changes no index and no slot. */
  ghost predicate OnlyMoves(s: Shared, p: Pc) {
    && !p.PushPublish? && !p.PopPublish? && !(p.PushCopy? && p.i < |p.addr|)
    && !(p.PushCas? && Lo(s.ph) == Lo(p.head)) && !(p.PopCas? && Lo(s.ch) == Lo(p.head))
  }

  ghost predicate MovesWell(s: Tracked, t: nat, op: Op)
    requires Indices(ViewOf(s)) && t < |s.m.ts| && s.m.sh.max > 0 && |s.m.sh.data| == s.m.sh.max
  {
    var (sh, q) := TrackAct(s.m.sh, s.m.ts[t], op);
    sh.(num := 0) == s.m.sh.(num := 0) && SameHold(s.m.ts[t], q) && PcOk(ViewOf(s), t, q)
  }

  lemma PushMoves(s: Tracked, t: nat, op: Op)
    requires Inv(s) && t < |s.m.ts| && OnlyMoves(s.m.sh, s.m.ts[t])
    requires var p := s.m.ts[t]; !p.PopLoadHead? && !p.PopLoadTail? && !p.PopCas? && !Taking(p)
    ensures s.m.sh.max > 0 && MovesWell(s, t, op)
  {
    hide Lo, Covered, Stored, WellFormed;
    MaxBound(s.m.sh);
    assert PcOk(ViewOf(s), t, s.m.ts[t]);
    TurnCome(s, t);
  }

  lemma PopMoves(s: Tracked, t: nat, op: Op)
    requires Inv(s) && t < |s.m.ts| && OnlyMoves(s.m.sh, s.m.ts[t])
    requires var p := s.m.ts[t]; p.PopLoadHead? || p.PopLoadTail? || p.PopCas? || p.PopAwait?
    ensures s.m.sh.max > 0 && MovesWell(s, t, op)
  {
    hide Lo, Covered, Stored, WellFormed;
    MaxBound(s.m.sh);
    assert PcOk(ViewOf(s), t, s.m.ts[t]);
    TurnCome(s, t);
  }

  lemma CopyOutMoves(s: Tracked, t: nat, op: Op)
    requires Inv(s) && t < |s.m.ts| && s.m.ts[t].PopCopy?
    ensures s.m.sh.max > 0 && MovesWell(s, t, op)
  {
    hide Lo, Covered, Stored, WellFormed;
    var v, p := ViewOf(s), s.m.ts[t];
    MaxBound(s.m.sh);
    assert PcOk(v, t, p);
    if |p.out| < p.n {
      ReadsLog(s, t);
      var out' := p.out + [v.log[p.head + |p.out|]];
      assert out' == v.log[p.head..p.head + |out'|];
    }
  }

  /** The step keeps the invariant when it turns no tail back and no compare-and-set has come round. */
  lemma StepKeepsInv(s: Tracked, t: nat, op: Op)
    requires Inv(s) && NoLap(s) && t < |s.m.ts| && Tame(s.m.sh, s.m.ts[t])
    ensures s.m.sh.max > 0 && Inv(Track(s, t, op))
  {
    hide Inv, NoLap, Tame, Track;
    if s.m.ts[t].PushCas? && Lo(s.m.sh.ph) == Lo(s.m.ts[t].head) { RoomReserved(s, t); }
    if s.m.ts[t].PopCas? && Lo(s.m.sh.ch) == Lo(s.m.ts[t].head) { ValuesTaken(s, t); }
    StepKeepsFit(s, t, op);
  }

  /** A winning compare-and-set finds the places or values it asks for. */
  predicate Fits(s: Shared, p: Pc) {
    && (p.PushCas? && Lo(s.ph) == Lo(p.head) ==> s.ph + |p.addr| <= s.ct + s.max)
    && (p.PopCas? && Lo(s.ch) == Lo(p.head) ==> s.ch + p.n <= s.pt)
  }

  lemma StepKeepsFit(s: Tracked, t: nat, op: Op)
    requires Inv(s) && t < |s.m.ts| && Tame(s.m.sh, s.m.ts[t]) && Fits(s.m.sh, s.m.ts[t])
    ensures s.m.sh.max > 0 && Inv(Track(s, t, op))
  {
    hide Lo, PcOk, Covered, Stored;
    MaxBound(s.m.sh);
    var v, ts, data, p := ViewOf(s), s.m.ts, s.m.sh.data, s.m.ts[t];
    var s' := Track(s, t, op);
    assert s.log + [] == s.log && s.powner + Same(t, 0) == s.powner && s.cowner + Same(t, 0) == s.cowner;
    if p.PushCas? && Lo(v.ph) == Lo(p.head) {
      Reserved(v, ts, t, p.addr, data);
    } else if p.PopCas? && Lo(v.ch) == Lo(p.head) {
      Taken(v, ts, t, p.n, data);
    } else {
      if p.PushCopy? && p.i < |p.addr| {
        CopiedIn(v, ts, t, data);
      } else if p.PushPublish? {
        Published(v, ts, t, data);
      } else if p.PopPublish? {
        GivenBack(v, ts, t, data);
      } else {
        if p.PopCopy? {
          CopyOutMoves(s, t, op);
        } else if p.PopLoadHead? || p.PopLoadTail? || p.PopCas? || p.PopAwait? {
          PopMoves(s, t, op);
        } else {
          PushMoves(s, t, op);
        }
        HoldKept(v, ts, t, s'.m.ts[t], data);
      }
    }
  }

  /** Every step keeps the invariant exactly when it turns no tail back and takes no more than there is. */
  lemma StepKeepsExactly(s: Tracked, t: nat, op: Op)
    requires Inv(s) && t < |s.m.ts|
    ensures s.m.sh.max > 0
    ensures Inv(Track(s, t, op)) <==> Tame(s.m.sh, s.m.ts[t]) && Fits(s.m.sh, s.m.ts[t])
  {
    MaxBound(s.m.sh);
    if !Tame(s.m.sh, s.m.ts[t]) {
      TurnedBack(s, t, op);
    } else if Fits(s.m.sh, s.m.ts[t]) {
      StepKeepsFit(s, t, op);
    } else {
      Overtaken(s, t, op);
    }
  }

  lemma Overtaken(s: Tracked, t: nat, op: Op)
    requires Inv(s) && t < |s.m.ts| && !Fits(s.m.sh, s.m.ts[t])
    ensures s.m.sh.max > 0 && !Inv(Track(s, t, op))
  {
    MaxBound(s.m.sh);
    hide AllOk, Covered, Stored, WellFormed, PcOk, Lo;
  }

  /** Nobody writes to a place that is published, or reads one that is given back. */
  lemma DoneWith(s: Tracked, u: nat)
    requires Inv(s) && u < |s.m.ts|
    ensures forall j :: 0 <= j < s.m.sh.pt ==> !Writes(s.m.ts[u], j)
    ensures forall j :: 0 <= j < s.m.sh.ct ==> !Reads(s.m.ts[u], j)
  {
    assert PcOk(ViewOf(s), u, s.m.ts[u]);
  }

  lemma TurnedBack(s: Tracked, t: nat, op: Op)
    requires Inv(s) && t < |s.m.ts| && !Tame(s.m.sh, s.m.ts[t])
    ensures s.m.sh.max > 0 && !Inv(Track(s, t, op))
  {
    MaxBound(s.m.sh);
    var p, s' := s.m.ts[t], Track(s, t, op);
    assert PcOk(ViewOf(s), t, p);
    forall u | 0 <= u < |s.m.ts| ensures !Writes(s'.m.ts[u], p.head) || p.PopPublish? {
      DoneWith(s, u);
    }
    forall u | 0 <= u < |s.m.ts| ensures !Reads(s'.m.ts[u], p.head) || p.PushPublish? {
      DoneWith(s, u);
    }
    hide PcOk, Stored, WellFormed;
    if p.PushPublish? {
      assert s'.m.sh.pt == p.head < s'.m.sh.ph && s'.powner == s.powner + Same(t, 0);
      var u := s'.powner[p.head];
      assert u < |s'.m.ts| ==> !Writes(s'.m.ts[u], p.head);
    } else {
      assert s'.m.sh.ct == p.head < s'.m.sh.ch && s'.cowner == s.cowner + Same(t, 0);
      var u := s'.cowner[p.head];
      assert u < |s'.m.ts| ==> !Reads(s'.m.ts[u], p.head);
    }
  }
}
