/** The reference counts of `mref.c`, as the steps of any number of threads.

    Memory is a set of live blocks, the table a map from a block's address to its entry.  Entries keep
    their number for ever, so that an address used again gets a new entry.  A reader-writer lock is
    described by who is inside it. */
module Mref {
  type Addr = nat

  const SLOT_LEN := 999
  const TWO_TO_THE_32 := 0x1_0000_0000

  function Slot(a: Addr): nat { a % SLOT_LEN }

  datatype Option<T> = None | Some(value: T)

  /** `given`: its block went back to the pool; `freed`: so did the entry itself. */
  datatype Item = Item(addr: Addr, count: nat, given: bool, freed: bool)

  datatype Call = Alloc | Inc | Dec | Check

  /** What a thread does next: the calls share the read-locked query, then part. */
  datatype Pc =
    | Idle
    | RdLock(call: Call, a: Addr)
    | RdQuery(call: Call, a: Addr)
    | RdCount(call: Call, a: Addr, i: nat)
    | RdUnlock(call: Call, a: Addr, seen: Option<nat>)
    | Create(a: Addr)
    | InsLock(a: Addr, i: nat)
    | Insert(a: Addr, i: nat)
    | InsRefused(a: Addr, i: nat)
    | InsFree(a: Addr, i: nat)
    | WrLock(a: Addr)
    | WrQuery(a: Addr)
    | WrCheck(a: Addr, i: nat)
    | WrDelete(a: Addr, i: nat)
    | WrUnlock(a: Addr)
    | GoneUnlock(a: Addr, i: nat)
    | Dealloc(a: Addr, i: nat)
    | FreeItem(a: Addr, i: nat)

  /** `refs` are the references callers hold and may give up by a call of `mref_dec`. */
  datatype Store = Store(table: map<Addr, nat>, items: seq<Item>, live: set<Addr>, refs: multiset<Addr>)

  datatype State = State(s: Store, ts: seq<Pc>)

  /** What an idle thread is asked to call.  For `Alloc` the address is the pool's choice. */
  datatype Op = Op(call: Call, a: Addr)

  function Word(x: int): nat { x % TWO_TO_THE_32 }

  /** `atomic32_inc`, `atomic32_dec` or a plain read: the entry's count afterwards. */
  function Counted(call: Call, count: nat): nat {
    match call
    case Dec => Word(count - 1)
    case Check => count
    case _ => Word(count + 1)
  }

  /** The references outstanding after the count was changed. */
  function Referred(call: Call, a: Addr, refs: multiset<Addr>): multiset<Addr> {
    if call == Alloc || call == Inc then refs + multiset{a} else refs
  }

  /** A dangling number, which the invariant excludes, changes nothing. */
  function SetCount(items: seq<Item>, i: nat, count: nat): seq<Item> {
    if i < |items| then items[i := items[i].(count := count)] else items
  }

  function SetGiven(items: seq<Item>, i: nat): seq<Item> {
    if i < |items| then items[i := items[i].(given := true)] else items
  }

  function SetFreed(items: seq<Item>, i: nat): seq<Item> {
    if i < |items| then items[i := items[i].(freed := true)] else items
  }

  function AddrOf(items: seq<Item>, i: nat): Addr { if i < |items| then items[i].addr else 0 }

  function CountOf(items: seq<Item>, i: nat): nat { if i < |items| then items[i].count else 0 }

  /** One atomic step of a thread that is not kept waiting. */
  function Act(s: Store, p: Pc, op: Op): (Store, Pc) {
    match p
    case Idle =>
      (match op.call
       case Alloc => s.(live := s.live + {op.a})
       case Dec => s.(refs := s.refs - multiset{op.a})
       case _ => s, RdLock(op.call, op.a))
    case RdLock(call, a) => (s, RdQuery(call, a))
    case RdQuery(call, a) => (s, if a in s.table then RdCount(call, a, s.table[a]) else RdUnlock(call, a, None))
    case RdCount(call, a, i) =>
      var count := Counted(call, CountOf(s.items, i));
      (s.(items := SetCount(s.items, i, count), refs := Referred(call, a, s.refs)), RdUnlock(call, a, Some(count)))
    case RdUnlock(call, a, seen) =>
      (s, if call == Alloc && seen == None then Create(a)
          else if call == Dec && seen == Some(0) then WrLock(a) else Idle)
    case Create(a) => (s.(items := s.items + [Item(a, 1, false, false)]), InsLock(a, |s.items|))
    case InsLock(a, i) => (s, Insert(a, i))
    case Insert(a, i) =>
      if a in s.table then (s, InsRefused(a, i))
      else (s.(table := s.table[a := i], refs := s.refs + multiset{a}), WrUnlock(a))
    case InsRefused(a, i) => (s, InsFree(a, i))
    case InsFree(a, i) => (s.(items := SetFreed(s.items, i)), RdLock(Alloc, a))
    case WrLock(a) => (s, WrQuery(a))
    case WrQuery(a) => (s, if a in s.table then WrCheck(a, s.table[a]) else WrUnlock(a))
    case WrCheck(a, i) => (s, if CountOf(s.items, i) == 0 then WrDelete(a, i) else WrUnlock(a))
    case WrDelete(a, i) => (s.(table := s.table - {a}), GoneUnlock(a, i))
    case WrUnlock(a) => (s, Idle)
    case GoneUnlock(a, i) => (s, Dealloc(a, i))
    case Dealloc(a, i) =>
      (s.(items := SetGiven(s.items, i), live := s.live - {AddrOf(s.items, i)}), FreeItem(a, i))
    case FreeItem(a, i) => (s.(items := SetFreed(s.items, i)), Idle)
  }

  // ---------------------------------------------------------------- locks

  predicate Reading(p: Pc) { p.RdQuery? || p.RdCount? || p.RdUnlock? }

  predicate Writing(p: Pc) {
    p.Insert? || p.InsRefused? || p.WrQuery? || p.WrCheck? || p.WrDelete? || p.WrUnlock? || p.GoneUnlock?
  }

  /** The lock the thread waits for is taken by another. */
  ghost predicate Blocked(ts: seq<Pc>, p: Pc) {
    || (p.RdLock? && exists u :: 0 <= u < |ts| && Writing(ts[u]) && Slot(ts[u].a) == Slot(p.a))
    || ((p.WrLock? || p.InsLock?)
        && exists u :: 0 <= u < |ts| && (Reading(ts[u]) || Writing(ts[u])) && Slot(ts[u].a) == Slot(p.a))
  }

  /** The pool hands out no live block; only a reference that is held is given up. */
  predicate Allowed(s: Store, p: Pc, op: Op) {
    p.Idle? ==> (op.call == Alloc ==> op.a !in s.live) && (op.call == Dec ==> op.a in s.refs)
  }

  ghost function Step(m: State, t: nat, op: Op): State
    requires t < |m.ts|
  {
    if Blocked(m.ts, m.ts[t]) then m
    else
      var (s, p) := Act(m.s, m.ts[t], op);
      State(s, m.ts[t := p])
  }

  // ---------------------------------------------------------------- the invariant

  /** A reference on its way to being given up: taken from its holder, not yet counted down. */
  predicate Owes(p: Pc, a: Addr) {
    (p.RdLock? || p.RdQuery? || p.RdCount?) && p.call == Dec && p.a == a
  }

  ghost function Owed(ts: seq<Pc>, a: Addr): nat {
    if ts == [] then 0 else (if Owes(ts[0], a) then 1 else 0) + Owed(ts[1..], a)
  }

  /** The thread alone answers for block `p.a`: it is live and not, or no longer, in the table. */
  predicate OwnsBlock(p: Pc) {
    || ((p.RdLock? || p.RdQuery? || p.RdUnlock?) && p.call == Alloc)
    || p.Create? || p.InsLock? || p.Insert? || p.GoneUnlock? || p.Dealloc?
  }

  /** The thread counted block `a` down to zero and has yet to look under the write lock. */
  predicate Doomed(p: Pc, a: Addr) {
    || (p.RdUnlock? && p.call == Dec && p.seen == Some(0) && p.a == a)
    || ((p.WrLock? || p.WrQuery? || p.WrCheck? || p.WrDelete?) && p.a == a)
  }

  ghost predicate PcOk(s: Store, p: Pc) {
    match p
    case RdCount(call, a, i) => call != Alloc && a in s.table && s.table[a] == i
    case RdUnlock(call, a, seen) => (call == Alloc ==> seen == None) && (call == Dec ==> seen != None)
    case InsLock(a, i) => i < |s.items| && s.items[i] == Item(a, 1, false, false)
    case Insert(a, i) => i < |s.items| && s.items[i] == Item(a, 1, false, false)
    case InsRefused(_, _) => false
    case InsFree(_, _) => false
    case WrCheck(a, i) => a in s.table && s.table[a] == i
    case WrDelete(a, i) => a in s.table && s.table[a] == i && i < |s.items| && s.items[i].count == 0
    case GoneUnlock(a, i) => i < |s.items| && s.items[i] == Item(a, 0, false, false)
    case Dealloc(a, i) => i < |s.items| && s.items[i] == Item(a, 0, false, false)
    case FreeItem(a, i) => i < |s.items| && s.items[i] == Item(a, 0, true, false)
    case _ => true
  }

  ghost predicate ThreadsOk(m: State) { forall t :: 0 <= t < |m.ts| ==> PcOk(m.s, m.ts[t]) }

  ghost predicate TableOk(s: Store) {
    forall a :: a in s.table ==> Tabled(s, a, s.table[a])
  }

  ghost predicate Tabled(s: Store, a: Addr, i: nat) {
    && i < |s.items| && s.items[i].addr == a && s.items[i].count < TWO_TO_THE_32
    && !s.items[i].given && !s.items[i].freed && a in s.live
  }

  ghost predicate Exclusive(ts: seq<Pc>) {
    forall t, u :: 0 <= t < |ts| && 0 <= u < |ts| && t != u && Writing(ts[t]) && (Reading(ts[u]) || Writing(ts[u]))
      ==> Slot(ts[t].a) != Slot(ts[u].a)
  }

  /** Blocks between pool and table have one owner each; so have entries about to be freed. */
  ghost predicate BlocksOwned(m: State) {
    && (forall t :: 0 <= t < |m.ts| && OwnsBlock(m.ts[t]) ==> m.ts[t].a in m.s.live && m.ts[t].a !in m.s.table)
    && (forall t, u :: 0 <= t < u < |m.ts| && OwnsBlock(m.ts[t]) && OwnsBlock(m.ts[u]) ==> m.ts[t].a != m.ts[u].a)
  }

  ghost predicate FreersOk(ts: seq<Pc>) {
    forall t, u :: 0 <= t < u < |ts| && ts[t].FreeItem? && ts[u].FreeItem? ==> ts[t].i != ts[u].i
  }

  ghost predicate OwnersOk(m: State) { BlocksOwned(m) && FreersOk(m.ts) }

  ghost predicate HasOwner(ts: seq<Pc>, a: Addr) { exists t :: 0 <= t < |ts| && OwnsBlock(ts[t]) && ts[t].a == a }

  /** No block is lost: it is in the table, or some thread is putting it in or taking it back. */
  ghost predicate NothingLost(m: State) { forall a :: a in m.s.live ==> a in m.s.table || HasOwner(m.ts, a) }

  function CountAt(s: Store, a: Addr): nat { if a in s.table then CountOf(s.items, s.table[a]) else 0 }

  /** Counts are exact: the references held, and those being given up. */
  ghost predicate CountsOk(m: State) {
    forall a: Addr :: m.s.refs[a] + Owed(m.ts, a) == CountAt(m.s, a)
  }

  ghost predicate IsDoomed(ts: seq<Pc>, a: Addr) { exists t :: 0 <= t < |ts| && Doomed(ts[t], a) }

  /** A count of zero does not stay in the table: some thread is on its way to remove the entry. */
  ghost predicate ZeroesOk(m: State) {
    forall a :: a in m.s.table && CountOf(m.s.items, m.s.table[a]) == 0 ==> IsDoomed(m.ts, a)
  }

  ghost predicate Inv(m: State) {
    && TableOk(m.s) && ThreadsOk(m) && Exclusive(m.ts) && OwnersOk(m)
    && NothingLost(m) && CountsOk(m) && ZeroesOk(m)
  }

  /** The step does not count up past the largest 32-bit word. */
  predicate Roomy(s: Store, p: Pc) { p.RdCount? && p.call == Inc ==> CountOf(s.items, p.i) < TWO_TO_THE_32 - 1 }

  // ---------------------------------------------------------------- each part is kept

  lemma {:induction false} OwedMoves(ts: seq<Pc>, t: nat, q: Pc, a: Addr)
    requires t < |ts|
    ensures Owed(ts[t := q], a) + (if Owes(ts[t], a) then 1 else 0) == Owed(ts, a) + (if Owes(q, a) then 1 else 0)
  {
    if t == 0 {
      assert ts[0 := q][1..] == ts[1..];
    } else {
      assert ts[t := q][1..] == ts[1..][t - 1 := q];
      OwedMoves(ts[1..], t - 1, q, a);
    }
  }

  lemma {:induction false} OwedBySome(ts: seq<Pc>, t: nat, a: Addr)
    requires t < |ts| && Owes(ts[t], a)
    ensures Owed(ts, a) > 0
  {
    if t > 0 { OwedBySome(ts[1..], t - 1, a); }
  }

  lemma ExclusiveKept(m: State, t: nat, op: Op)
    requires Exclusive(m.ts) && t < |m.ts|
    ensures Exclusive(Step(m, t, op).ts)
  {
    var ts' := Step(m, t, op).ts;
    assert forall u :: 0 <= u < |ts'| && u != t ==> ts'[u] == m.ts[u];
  }

  /** A reference given up, or about to be counted down, is one to an entry of the table. */
  lemma DecFinds(m: State, t: nat, a: Addr)
    requires CountsOk(m) && t < |m.ts| && Owes(m.ts[t], a)
    ensures a in m.s.table && CountOf(m.s.items, m.s.table[a]) > 0
  {
    OwedBySome(m.ts, t, a);
    assert m.s.refs[a] + Owed(m.ts, a) == CountAt(m.s, a);
  }

  function One(b: bool): int { if b then 1 else 0 }

  /** A step that moves references and counts alike keeps the counts exact. */
  lemma CountsMove(m: State, t: nat, s': Store, q: Pc)
    requires CountsOk(m) && t < |m.ts|
    requires forall a: Addr ::
      s'.refs[a] - m.s.refs[a] + One(Owes(q, a)) - One(Owes(m.ts[t], a))
      == CountAt(s', a) - CountAt(m.s, a)
    ensures CountsOk(State(s', m.ts[t := q]))
  {
    forall a: Addr ensures s'.refs[a] + Owed(m.ts[t := q], a) == CountAt(s', a) {
      OwedMoves(m.ts, t, q, a);
      assert m.s.refs[a] + Owed(m.ts, a) == CountAt(m.s, a);
    }
  }

  lemma CountStep(m: State, t: nat, op: Op)
    requires TableOk(m.s) && ThreadsOk(m) && CountsOk(m) && t < |m.ts| && m.ts[t].RdCount? && Roomy(m.s, m.ts[t])
    ensures CountsOk(Step(m, t, op))
  {
    var p, m' := m.ts[t], Step(m, t, op);
    assert PcOk(m.s, p) && Tabled(m.s, p.a, p.i);
    if p.call == Dec { DecFinds(m, t, p.a); }
    hide Owed, CountsOk, ThreadsOk, PcOk;
    forall a: Addr | a in m.s.table ensures a != p.a ==> CountAt(m'.s, a) == CountAt(m.s, a) {
      assert Tabled(m.s, a, m.s.table[a]);
    }
    CountsMove(m, t, m'.s, m'.ts[t]);
  }

  lemma CountsKept(m: State, t: nat, op: Op)
    requires TableOk(m.s) && ThreadsOk(m) && OwnersOk(m) && CountsOk(m)
    requires t < |m.ts| && Allowed(m.s, m.ts[t], op) && Roomy(m.s, m.ts[t])
    ensures CountsOk(Step(m, t, op))
  {
    if m.ts[t].RdCount? {
      CountStep(m, t, op);
    } else if !Blocked(m.ts, m.ts[t]) {
      var p := m.ts[t];
      var (s', q) := Act(m.s, p, op);
      assert PcOk(m.s, p);
      if p.RdQuery? && p.call == Dec { DecFinds(m, t, p.a); }
      forall a: Addr
        ensures s'.refs[a] - m.s.refs[a] + One(Owes(q, a)) - One(Owes(p, a)) == CountAt(s', a) - CountAt(m.s, a)
      {
        if a in m.s.table { assert Tabled(m.s, a, m.s.table[a]); }
      }
      CountsMove(m, t, s', q);
    }
  }

  lemma TableKept(m: State, t: nat, op: Op)
    requires TableOk(m.s) && ThreadsOk(m) && OwnersOk(m) && t < |m.ts| && Allowed(m.s, m.ts[t], op)
    ensures TableOk(Step(m, t, op).s)
  {
    var p, s' := m.ts[t], Step(m, t, op).s;
    assert PcOk(m.s, p);
    forall a | a in s'.table ensures Tabled(s', a, s'.table[a]) {
      if a in m.s.table { assert Tabled(m.s, a, m.s.table[a]); }
    }
  }

  /** The thread that steps finds everything as its next place expects. */
  lemma OwnPcKept(m: State, t: nat, op: Op)
    requires TableOk(m.s) && ThreadsOk(m) && OwnersOk(m) && CountsOk(m) && t < |m.ts| && Allowed(m.s, m.ts[t], op)
    ensures PcOk(Step(m, t, op).s, Step(m, t, op).ts[t])
  {
    var p := m.ts[t];
    assert PcOk(m.s, p);
    if p.RdQuery? && p.call == Dec { DecFinds(m, t, p.a); }
    if p.RdQuery? && p.a in m.s.table { assert Tabled(m.s, p.a, m.s.table[p.a]); }
    if p.WrCheck? || p.WrDelete? { assert Tabled(m.s, p.a, p.i); }
  }

  /** What another thread relies on is not taken from under it: by a lock, or by its being the owner. */
  lemma OtherPcKept(m: State, t: nat, op: Op, u: nat)
    requires TableOk(m.s) && ThreadsOk(m) && Exclusive(m.ts) && OwnersOk(m)
    requires t < |m.ts| && u < |m.ts| && u != t && Allowed(m.s, m.ts[t], op)
    ensures PcOk(Step(m, t, op).s, m.ts[u])
  {
    var p, r := m.ts[t], m.ts[u];
    assert PcOk(m.s, p) && PcOk(m.s, r);
    if p.RdCount? { assert Tabled(m.s, p.a, p.i); }
    if r.RdCount? || r.WrCheck? || r.WrDelete? { assert Tabled(m.s, r.a, r.i); }
  }

  lemma ThreadsKept(m: State, t: nat, op: Op)
    requires TableOk(m.s) && ThreadsOk(m) && Exclusive(m.ts) && OwnersOk(m) && CountsOk(m)
    requires t < |m.ts| && Allowed(m.s, m.ts[t], op)
    ensures ThreadsOk(Step(m, t, op))
  {
    hide PcOk, Act, Exclusive, OwnersOk, CountsOk, TableOk;
    var m' := Step(m, t, op);
    OwnPcKept(m, t, op);
    forall u | 0 <= u < |m.ts| && u != t ensures PcOk(m'.s, m'.ts[u]) { OtherPcKept(m, t, op, u); }
  }

  lemma OwnersKept(m: State, t: nat, op: Op)
    requires TableOk(m.s) && ThreadsOk(m) && OwnersOk(m) && NothingLost(m) && t < |m.ts| && Allowed(m.s, m.ts[t], op)
    ensures OwnersOk(Step(m, t, op))
  {
    hide PcOk, TableOk, ThreadsOk, NothingLost;
    BlocksKept(m, t, op);
    FreersKept(m, t, op);
  }

  lemma BlocksKept(m: State, t: nat, op: Op)
    requires TableOk(m.s) && ThreadsOk(m) && OwnersOk(m) && NothingLost(m) && t < |m.ts| && Allowed(m.s, m.ts[t], op)
    ensures BlocksOwned(Step(m, t, op))
  {
    var p, m' := m.ts[t], Step(m, t, op);
    assert PcOk(m.s, p);
    if p.WrDelete? { assert Tabled(m.s, p.a, p.i); }
    hide PcOk, TableOk, ThreadsOk, NothingLost;
    assert forall u :: 0 <= u < |m.ts| && u != t ==> m'.ts[u] == m.ts[u];
  }

  lemma FreersKept(m: State, t: nat, op: Op)
    requires ThreadsOk(m) && OwnersOk(m) && t < |m.ts|
    ensures FreersOk(Step(m, t, op).ts)
  {
    var p, m' := m.ts[t], Step(m, t, op);
    assert PcOk(m.s, p);
    forall u | 0 <= u < |m.ts| && u != t ensures m.ts[u].FreeItem? && m'.ts[t].FreeItem? ==> m.ts[u].i != m'.ts[t].i {
      assert PcOk(m.s, m.ts[u]);
    }
    hide PcOk, Act;
    assert forall u :: 0 <= u < |m.ts| && u != t ==> m'.ts[u] == m.ts[u];
  }

  lemma NothingLostKept(m: State, t: nat, op: Op)
    requires TableOk(m.s) && ThreadsOk(m) && NothingLost(m) && t < |m.ts|
    ensures NothingLost(Step(m, t, op))
  {
    var p, m' := m.ts[t], Step(m, t, op);
    assert PcOk(m.s, p);
    forall a | a in m'.s.live ensures a in m'.s.table || HasOwner(m'.ts, a) {
      if OwnsBlock(m'.ts[t]) && m'.ts[t].a == a {
      } else if a in m.s.live && a !in m.s.table {
        var u :| 0 <= u < |m.ts| && OwnsBlock(m.ts[u]) && m.ts[u].a == a;
        assert u != t ==> m'.ts[u] == m.ts[u];
      }
    }
  }

  lemma ZeroesKept(m: State, t: nat, op: Op)
    requires TableOk(m.s) && ThreadsOk(m) && OwnersOk(m) && CountsOk(m) && ZeroesOk(m)
    requires t < |m.ts| && Allowed(m.s, m.ts[t], op) && Roomy(m.s, m.ts[t])
    ensures ZeroesOk(Step(m, t, op))
  {
    var p, m' := m.ts[t], Step(m, t, op);
    assert PcOk(m.s, p);
    if p.RdCount? { assert Tabled(m.s, p.a, p.i); }
    forall a | a in m'.s.table && CountOf(m'.s.items, m'.s.table[a]) == 0 ensures IsDoomed(m'.ts, a) {
      if !Doomed(m'.ts[t], a) {
        assert a in m.s.table && Tabled(m.s, a, m.s.table[a]);
        assert CountOf(m.s.items, m.s.table[a]) == 0;
        var u :| 0 <= u < |m.ts| && Doomed(m.ts[u], a);
        assert u != t && m'.ts[u] == m.ts[u];
      }
    }
  }

  /** Every step of every thread keeps the invariant. */
  lemma StepKeeps(m: State, t: nat, op: Op)
    requires Inv(m) && t < |m.ts| && Allowed(m.s, m.ts[t], op) && Roomy(m.s, m.ts[t])
    ensures Inv(Step(m, t, op))
  {
    hide Step, TableOk, ThreadsOk, Exclusive, OwnersOk, NothingLost, CountsOk, ZeroesOk, Allowed, Roomy;
    TableKept(m, t, op);
    ThreadsKept(m, t, op);
    ExclusiveKept(m, t, op);
    OwnersKept(m, t, op);
    NothingLostKept(m, t, op);
    CountsKept(m, t, op);
    ZeroesKept(m, t, op);
  }

  // ---------------------------------------------------------------- what the invariant is for

  /** The entry whose fields the next step of a thread reads or writes. */
  function Touches(p: Pc): Option<nat> {
    if p.RdCount? || p.Insert? || p.InsFree? || p.WrCheck? || p.Dealloc? || p.FreeItem? then Some(p.i) else None
  }

  /** No thread touches an entry after it was freed; a count is read or changed only in the table, under
      a lock; and an entry is freed once. */
  lemma TouchedIsThere(m: State, t: nat)
    requires Inv(m) && t < |m.ts| && Touches(m.ts[t]) != None
    ensures var p := m.ts[t];
      && p.i < |m.s.items| && !m.s.items[p.i].freed && m.s.items[p.i].addr == p.a
      && (p.RdCount? || p.WrCheck? ==> p.a in m.s.table && m.s.table[p.a] == p.i)
  {
    var p := m.ts[t];
    assert PcOk(m.s, p);
    if p.RdCount? || p.WrCheck? { assert Tabled(m.s, p.a, p.i); }
  }

  /** A block goes back to its pool only while live, when its count is zero, its entry is out of the
      table, nobody holds a reference and no other thread is at its entry. */
  lemma DeallocIsLast(m: State, t: nat)
    requires Inv(m) && t < |m.ts| && m.ts[t].Dealloc?
    ensures var p := m.ts[t];
      && p.a in m.s.live && p.a !in m.s.table && m.s.refs[p.a] == 0 && Owed(m.ts, p.a) == 0
      && p.i < |m.s.items| && m.s.items[p.i].addr == p.a && m.s.items[p.i].count == 0 && !m.s.items[p.i].given
      && forall u :: 0 <= u < |m.ts| && u != t ==> Touches(m.ts[u]) != Some(p.i)
  {
    var p := m.ts[t];
    assert PcOk(m.s, p) && OwnsBlock(p);
    assert m.s.refs[p.a] + Owed(m.ts, p.a) == CountAt(m.s, p.a);
    forall u | 0 <= u < |m.ts| && u != t ensures Touches(m.ts[u]) != Some(p.i) {
      assert PcOk(m.s, m.ts[u]);
      if m.ts[u].RdCount? || m.ts[u].WrCheck? { assert Tabled(m.s, m.ts[u].a, m.ts[u].i); }
    }
  }

  /** A fresh allocation is never found in the table already, so its insertion is never refused and
      it starts with one reference. */
  lemma FreshIsNew(m: State, t: nat, op: Op)
    requires Inv(m) && t < |m.ts|
    ensures m.ts[t].RdQuery? && m.ts[t].call == Alloc ==> Step(m, t, op).ts[t] == RdUnlock(Alloc, m.ts[t].a, None)
    ensures m.ts[t].Insert? ==> (var a, s' := m.ts[t].a, Step(m, t, op).s;
      a in s'.table && CountAt(s', a) == 1 && s'.refs[a] == 1)
  {
    var p := m.ts[t];
    assert PcOk(m.s, p);
    if OwnsBlock(p) {
      assert p.a !in m.s.table;
      assert m.s.refs[p.a] + Owed(m.ts, p.a) == CountAt(m.s, p.a);
    }
  }

  /** While somebody holds a reference the entry is found: `mref_inc` and `mref_dec` do not assert. */
  lemma HeldIsFound(m: State, t: nat, op: Op)
    requires Inv(m) && t < |m.ts| && m.ts[t].RdQuery?
    requires m.ts[t].call == Dec || m.s.refs[m.ts[t].a] > 0
    ensures Step(m, t, op).ts[t].RdCount?
  {
    var a := m.ts[t].a;
    if m.ts[t].call == Dec { DecFinds(m, t, a); }
    assert m.s.refs[a] + Owed(m.ts, a) == CountAt(m.s, a);
  }

  lemma {:induction false} NoneOwed(ts: seq<Pc>, a: Addr)
    requires forall t :: 0 <= t < |ts| ==> ts[t] == Idle
    ensures Owed(ts, a) == 0
  {
    if ts != [] { NoneOwed(ts[1..], a); }
  }

  /** When every thread has returned, the table holds exactly the live blocks, each with as many
      references as its count says, and at least one. */
  lemma WhenQuiet(m: State)
    requires Inv(m) && forall t :: 0 <= t < |m.ts| ==> m.ts[t] == Idle
    ensures m.s.live == m.s.table.Keys
    ensures forall a :: a in m.s.table ==> CountAt(m.s, a) == m.s.refs[a] > 0
  {
    forall a | a in m.s.table ensures CountAt(m.s, a) == m.s.refs[a] > 0 && a in m.s.live {
      NoneOwed(m.ts, a);
      assert m.s.refs[a] + Owed(m.ts, a) == CountAt(m.s, a);
      assert Tabled(m.s, a, m.s.table[a]);
      assert CountAt(m.s, a) == 0 ==> IsDoomed(m.ts, a);
    }
    forall a | a in m.s.live ensures a in m.s.table {
      assert a !in m.s.table ==> HasOwner(m.ts, a);
    }
  }

  // ---------------------------------------------------------------- runs

  ghost predicate Playable(m: State, sched: seq<(nat, Op)>)
    decreases |sched|
  {
    sched == [] ||
    (&& sched[0].0 < |m.ts| && Allowed(m.s, m.ts[sched[0].0], sched[0].1) && Roomy(m.s, m.ts[sched[0].0])
     && Playable(Step(m, sched[0].0, sched[0].1), sched[1..]))
  }

  ghost function Run(m: State, sched: seq<(nat, Op)>): State
    requires Playable(m, sched)
    decreases |sched|
  {
    if sched == [] then m else Run(Step(m, sched[0].0, sched[0].1), sched[1..])
  }

  /** The step has the pool hand out block `a`; it gives block `a` back, for entry `i`. */
  predicate HandsOut(p: Pc, op: Op, a: Addr) { p.Idle? && op == Op(Alloc, a) }

  predicate GivesBack(items: seq<Item>, p: Pc, a: Addr) { p.Dealloc? && AddrOf(items, p.i) == a }

  predicate GivesFor(p: Pc, i: nat) { p.Dealloc? && p.i == i }

  ghost function TimesOut(m: State, sched: seq<(nat, Op)>, a: Addr): int
    requires Playable(m, sched)
    decreases |sched|
  {
    if sched == [] then 0
    else One(HandsOut(m.ts[sched[0].0], sched[0].1, a)) + TimesOut(Step(m, sched[0].0, sched[0].1), sched[1..], a)
  }

  ghost function TimesBack(m: State, sched: seq<(nat, Op)>, a: Addr): int
    requires Playable(m, sched)
    decreases |sched|
  {
    if sched == [] then 0
    else One(GivesBack(m.s.items, m.ts[sched[0].0], a)) + TimesBack(Step(m, sched[0].0, sched[0].1), sched[1..], a)
  }

  ghost function TimesFor(m: State, sched: seq<(nat, Op)>, i: nat): int
    requires Playable(m, sched)
    decreases |sched|
  {
    if sched == [] then 0
    else One(GivesFor(m.ts[sched[0].0], i)) + TimesFor(Step(m, sched[0].0, sched[0].1), sched[1..], i)
  }

  predicate WasGiven(s: Store, i: nat) { i < |s.items| && s.items[i].given }

  lemma StepBalances(m: State, t: nat, op: Op, a: Addr, i: nat)
    requires Inv(m) && t < |m.ts| && Allowed(m.s, m.ts[t], op)
    ensures One(a in Step(m, t, op).s.live)
      == One(a in m.s.live) + One(HandsOut(m.ts[t], op, a)) - One(GivesBack(m.s.items, m.ts[t], a))
    ensures One(WasGiven(Step(m, t, op).s, i)) == One(WasGiven(m.s, i)) + One(GivesFor(m.ts[t], i))
  {
    var p := m.ts[t];
    assert PcOk(m.s, p);
  }

  /** Over every run: the invariant holds at the end; block by block, what was given back is what was
      handed out, less what is live still; and no entry's block was given back twice. */
  lemma {:induction false} RunKeeps(m: State, sched: seq<(nat, Op)>, a: Addr, i: nat)
    requires Inv(m) && Playable(m, sched)
    ensures Inv(Run(m, sched))
    ensures TimesBack(m, sched, a) + One(a in Run(m, sched).s.live) == TimesOut(m, sched, a) + One(a in m.s.live)
    ensures TimesFor(m, sched, i) + One(WasGiven(m.s, i)) == One(WasGiven(Run(m, sched).s, i)) <= 1
    decreases |sched|
  {
    hide Inv, Step, Allowed, Roomy, HandsOut, GivesBack, GivesFor, WasGiven;
    if sched != [] {
      var t, op := sched[0].0, sched[0].1;
      StepKeeps(m, t, op);
      StepBalances(m, t, op, a, i);
      RunKeeps(Step(m, t, op), sched[1..], a, i);
    }
  }

  /** Any number of threads before their first call. */
  function Start(n: nat): State { State(Store(map[], [], {}, multiset{}), seq(n, i => Idle)) }

  /** From the start, once every thread has returned and no reference is left, every block handed out
      has been given back, and the table is empty. */
  lemma AllGivenBack(n: nat, sched: seq<(nat, Op)>, a: Addr)
    requires Playable(Start(n), sched)
    requires var end := Run(Start(n), sched);
      end.s.refs == multiset{} && forall t :: 0 <= t < |end.ts| ==> end.ts[t] == Idle
    ensures Run(Start(n), sched).s.table == map[]
    ensures TimesBack(Start(n), sched, a) == TimesOut(Start(n), sched, a)
  {
    StartIsSound(n);
    RunKeeps(Start(n), sched, a, 0);
    var end := Run(Start(n), sched);
    WhenQuiet(end);
    assert forall b :: b in end.s.table ==> CountAt(end.s, b) > 0;
    assert end.s.table.Keys == {};
    assert end.s.table == map[];
  }

  lemma StartIsSound(n: nat)
    ensures Inv(Start(n))
  {
    forall a: Addr
      ensures Start(n).s.refs[a] + Owed(Start(n).ts, a) == CountAt(Start(n).s, a)
    {
      NoneOwed(Start(n).ts, a);
    }
  }
}
