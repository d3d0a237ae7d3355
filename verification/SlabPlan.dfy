/** The invariant of the whole pool of `slab.c`, and what each change of the page descriptors does to it. */
module SlabPlan {
  import opened Arith
  import opened Bits
  import opened SlabLinks
  import opened SlabShape

  /** What the descriptors stand for: the use of each page, the free list, and the list of each size. */
  datatype Plan = Plan(kinds: seq<Kind>, free: seq<nat>, lists: seq<seq<nat>>)

  /** A run has its rest behind it, and a rest its run before it: the runs and the chunk pages tile the
      page array. */
  ghost predicate RunOk(kinds: seq<Kind>, i: nat)
    requires i < |kinds|
  {
    match kinds[i]
    case FreeRun(n) => 1 <= n && i + n <= |kinds| && forall j :: i < j < i + n ==> kinds[j] == FreeRest(i)
    case UsedRun(n) => 1 <= n && i + n <= |kinds| && forall j :: i < j < i + n ==> kinds[j] == UsedRest(i)
    case FreeRest(h) => h < i && kinds[h].FreeRun? && i < h + kinds[h].n
    case UsedRest(h) => h < i && kinds[h].UsedRun? && i < h + kinds[h].n
    case Chunks(s) => IsShift(s)
  }

  ghost predicate RunsOk(kinds: seq<Kind>) { forall i :: 0 <= i < |kinds| ==> RunOk(kinds, i) }

  ghost predicate PageOk(p: Page, w: seq<nat>, kind: Kind) {
    && |w| == 8
    && match kind
       case FreeRun(n) => p.slab == n && p.tag == SLAB_PAGE
       case FreeRest(_) => p.slab == 0 && p.next == Nil && p.tag == SLAB_PAGE
       case UsedRun(n) => p.slab == n + SLAB_PAGE_START && p.next == Nil && p.tag == SLAB_PAGE
       case UsedRest(_) => p.slab == SLAB_PAGE_BUSY && p.next == Nil && p.tag == SLAB_PAGE
       case Chunks(s) => p.tag == TagOf(s) && ChunkOk(p.slab, w, s) && (p.next == Nil <==> !HasFree(p.slab, w, s))
  }

  ghost predicate PagesOk(st: Store, maps: seq<seq<nat>>, kinds: seq<Kind>)
    requires |maps| == |st.pages| == |kinds|
  {
    forall i :: 0 <= i < |kinds| ==> PageOk(st.pages[i], maps[i], kinds[i])
  }

  ghost predicate FreeOk(st: Store, g: Plan) {
    && Chain(st, FreeHead, g.free, SLAB_PAGE)
    && forall i :: 0 <= i < |g.kinds| ==> (i in g.free <==> g.kinds[i].FreeRun?)
  }

  /** A page is on the list of its size exactly when it has a free chunk. */
  ghost predicate ListOk(st: Store, maps: seq<seq<nat>>, g: Plan, z: nat)
    requires |maps| == |st.pages| == |g.kinds| && z < |g.lists|
  {
    && Chain(st, SlotHead(z), g.lists[z], TagOf(z + MIN_SHIFT))
    && forall i :: 0 <= i < |g.kinds| ==>
      (i in g.lists[z] <==> g.kinds[i] == Chunks(z + MIN_SHIFT) && HasFree(st.pages[i].slab, maps[i], z + MIN_SHIFT))
  }

  ghost predicate Sizes(st: Store, maps: seq<seq<nat>>, g: Plan) {
    |maps| == |st.pages| == |g.kinds| && |st.slots| == |g.lists| == SLOTS
  }

  ghost predicate Inv(st: Store, maps: seq<seq<nat>>, g: Plan) {
    && Sizes(st, maps, g) && RunsOk(g.kinds) && PagesOk(st, maps, g.kinds) && FreeOk(st, g)
    && forall z :: 0 <= z < SLOTS ==> ListOk(st, maps, g, z)
  }

  // ---------------------------------------------------------------- runs

  /** The first `n` pages of the free run at `i` taken into use. */
  ghost function Carved(kinds: seq<Kind>, i: nat, n: nat): (k: seq<Kind>)
    requires i < |kinds| && kinds[i].FreeRun? && 1 <= n <= kinds[i].n
    ensures |k| == |kinds|
  {
    var m := kinds[i].n;
    seq(|kinds|, j requires 0 <= j < |kinds| =>
      if j == i then UsedRun(n) else if i < j < i + n then UsedRest(i)
      else if j == i + n && n < m then FreeRun(m - n) else if i + n < j < i + m then FreeRest(i + n)
      else kinds[j])
  }

  /** The used run, or the emptied chunk page, at `i` given back. */
  ghost function Released(kinds: seq<Kind>, i: nat, n: nat): (k: seq<Kind>)
    requires i < |kinds|
    ensures |k| == |kinds|
  {
    seq(|kinds|, j requires 0 <= j < |kinds| =>
      if j == i then FreeRun(n) else if i < j < i + n then FreeRest(i) else kinds[j])
  }

  lemma CarvedRuns(kinds: seq<Kind>, i: nat, n: nat)
    requires RunsOk(kinds) && i < |kinds| && kinds[i].FreeRun? && 1 <= n <= kinds[i].n
    ensures RunsOk(Carved(kinds, i, n))
  {
    var k, m := Carved(kinds, i, n), kinds[i].n;
    assert RunOk(kinds, i);
    forall j | 0 <= j < |k| ensures RunOk(k, j) { assert RunOk(kinds, j); }
  }

  lemma ReleasedRuns(kinds: seq<Kind>, i: nat, n: nat)
    requires RunsOk(kinds) && i < |kinds| && (kinds[i] == UsedRun(n) || (kinds[i].Chunks? && n == 1))
    ensures RunsOk(Released(kinds, i, n))
  {
    var k := Released(kinds, i, n);
    assert RunOk(kinds, i);
    forall j | 0 <= j < |k| ensures RunOk(k, j) { assert RunOk(kinds, j); }
  }

  /** Runs that start at different pages share none. */
  lemma RunsApart(kinds: seq<Kind>, i: nat, j: nat)
    requires RunsOk(kinds) && i < j < |kinds| && (kinds[i].FreeRun? || kinds[i].UsedRun?)
    requires !kinds[j].FreeRest? && !kinds[j].UsedRest?
    ensures i + kinds[i].n <= j
  {
    assert RunOk(kinds, i);
  }

  // ---------------------------------------------------------------- one list and one page change

  /** What `PageOk` reads of a descriptor is the same. */
  ghost predicate Looks(p: Page, q: Page) { q.slab == p.slab && q.tag == p.tag && (q.next == Nil <==> p.next == Nil) }

  /** Everything but page `i` and the pages and head of list `z` is as it was. */
  ghost predicate OnlyList(st: Store, maps: seq<seq<nat>>, g: Plan, st': Store, maps': seq<seq<nat>>, i: nat, z: nat)
    requires Sizes(st, maps, g) && i < |st.pages| && z < SLOTS
  {
    && |st'.pages| == |maps'| == |st.pages| && |st'.slots| == SLOTS && st'.free == st.free
    && (forall j :: 0 <= j < |st.pages| && j != i ==> maps'[j] == maps[j] && Looks(st.pages[j], st'.pages[j]))
    && (forall j :: 0 <= j < |st.pages| && j != i && j !in g.lists[z] ==> SameLinks(st.pages[j], st'.pages[j]))
    && (forall y :: 0 <= y < SLOTS && y != z ==> st'.slots[y] == st.slots[y])
  }

  lemma Rebuilt(st: Store, maps: seq<seq<nat>>, g: Plan, st': Store, maps': seq<seq<nat>>, i: nat, z: nat, l: seq<nat>)
    requires Inv(st, maps, g) && i < |st.pages| && z < SLOTS && g.kinds[i] == Chunks(z + MIN_SHIFT)
    requires OnlyList(st, maps, g, st', maps', i, z)
    requires PageOk(st'.pages[i], maps'[i], g.kinds[i]) && Chain(st', SlotHead(z), l, TagOf(z + MIN_SHIFT))
    requires forall j :: 0 <= j < |g.kinds| ==>
      (j in l <==> if j == i then HasFree(st'.pages[i].slab, maps'[i], z + MIN_SHIFT) else j in g.lists[z])
    ensures Inv(st', maps', g.(lists := g.lists[z := l]))
  {
    var g', changed := g.(lists := g.lists[z := l]), g.lists[z] + [i];
    forall j | 0 <= j < |g.kinds| ensures PageOk(st'.pages[j], maps'[j], g.kinds[j]) {
      assert PageOk(st.pages[j], maps[j], g.kinds[j]);
    }
    assert ListOk(st, maps, g, z);
    OthersKept(st, st', SlotHead(z), changed, FreeHead, g.free, SLAB_PAGE);
    forall y | 0 <= y < SLOTS ensures ListOk(st', maps', g', y) {
      assert ListOk(st, maps, g, y);
      if y != z {
        OthersKept(st, st', SlotHead(z), changed, SlotHead(y), g.lists[y], TagOf(y + MIN_SHIFT));
      }
    }
  }

  /** The descriptor with the bit of chunk `k` set or cleared. */
  ghost function Repainted(p: Page, s: nat, k: nat, on: bool): Page { p.(slab := MarkSlab(p.slab, s, k, on)) }

  /** What the invariant says of a page of chunks. */
  lemma AtChunks(st: Store, maps: seq<seq<nat>>, g: Plan, i: nat, s: nat)
    requires Inv(st, maps, g) && i < |st.pages| && g.kinds[i] == Chunks(s)
    ensures Sizes(st, maps, g) && IsShift(s) && PageOk(st.pages[i], maps[i], Chunks(s))
    ensures ListOk(st, maps, g, s - MIN_SHIFT)
  {
    assert PageOk(st.pages[i], maps[i], g.kinds[i]) && RunOk(g.kinds, i);
  }

  lemma MarkedSound(slab: nat, w: seq<nat>, s: nat, k: nat, on: bool)
    requires ChunkOk(slab, w, s) && k < Count(s) && (on || k >= Reserved(s)) && |w| == 8
    ensures ChunkOk(MarkSlab(slab, s, k, on), MarkWords(w, s, k, on), s) && |MarkWords(w, s, k, on)| == 8
  {
    Marked(slab, w, s, k, on);
  }

  /** Chunk `k` of page `i` taken, and another still free; or given back, and another free already. */
  lemma MarkedKeeps(st: Store, maps: seq<seq<nat>>, g: Plan, i: nat, s: nat, k: nat, on: bool)
    requires Inv(st, maps, g) && i < |st.pages| && g.kinds[i] == Chunks(s) && k < Count(s) && (on || k >= Reserved(s))
    requires var p := Repainted(st.pages[i], s, k, on);
      HasFree(p.slab, MarkWords(maps[i], s, k, on), s) && HasFree(st.pages[i].slab, maps[i], s)
    ensures Inv(With(st, At(i), Repainted(st.pages[i], s, k, on)), maps[i := MarkWords(maps[i], s, k, on)], g)
  {
    hide Inv, Linked, HasFree, ChunkOk, MarkSlab, MarkWords;
    AtChunks(st, maps, g, i, s);
    var p, z := Repainted(st.pages[i], s, k, on), s - MIN_SHIFT;
    var st', maps' := With(st, At(i), p), maps[i := MarkWords(maps[i], s, k, on)];
    MarkedSound(st.pages[i].slab, maps[i], s, k, on);
    ChainFrame(st, st', SlotHead(z), g.lists[z], TagOf(s));
    Rebuilt(st, maps, g, st', maps', i, z, g.lists[z]);
    assert g.lists[z := g.lists[z]] == g.lists;
  }

  /** The `x`th page of list `z` off the list, its own links cleared. */
  ghost function OffList(st: Store, i: nat): Store
    requires i < |st.pages| && Points(st, st.pages[i].prev) && Points(st, st.pages[i].next)
  {
    var p := st.pages[i];
    var st1 := Join(st, p.prev, p.next, p.tag);
    With(st1, At(i), st1.pages[i].(next := Nil, prev := Nil))
  }

  lemma OffListChain(st: Store, head: Ref, l: seq<nat>, tag: nat, x: nat)
    requires Chain(st, head, l, tag) && x < |l|
    ensures Points(st, st.pages[l[x]].prev) && Points(st, st.pages[l[x]].next)
    ensures Chain(OffList(st, l[x]), head, Dropped(l, x), tag)
  {
    Neighbours(st, head, l, tag, x);
    Unlinked(st, head, l, tag, x);
    var i := l[x];
    var st1 := Join(st, st.pages[i].prev, st.pages[i].next, tag);
    Joined(st, st.pages[i].prev, st.pages[i].next, tag, head);
    ChainFrame(st1, OffList(st, i), head, Dropped(l, x), tag);
  }

  /** What taking a page off its list leaves alone. */
  lemma OffListKeeps(st: Store, head: Ref, l: seq<nat>, tag: nat, x: nat)
    requires Chain(st, head, l, tag) && x < |l|
    ensures Points(st, st.pages[l[x]].prev) && Points(st, st.pages[l[x]].next)
    ensures var st' := OffList(st, l[x]);
      && |st'.pages| == |st.pages| && |st'.slots| == |st.slots|
      && (forall j :: 0 <= j < |st.pages| && j != l[x] ==> Looks(st.pages[j], st'.pages[j]))
      && (forall j :: 0 <= j < |st.pages| && j !in l ==> SameLinks(st.pages[j], st'.pages[j]))
      && (head != FreeHead ==> st'.free == st.free)
      && (forall s :: 0 <= s < |st.slots| && head != SlotHead(s) ==> st'.slots[s] == st.slots[s])
      && st'.pages[l[x]] == st.pages[l[x]].(next := Nil, prev := Nil)
  {
    Neighbours(st, head, l, tag, x);
    var i, prev, next := l[x], st.pages[l[x]].prev, st.pages[l[x]].next;
    JoinKeeps(st, prev, next, tag);
    forall j | 0 <= j < |st.pages| && j != i ensures Looks(st.pages[j], OffList(st, i).pages[j]) {
      Joined(st, prev, next, tag, At(j));
      if y :| 0 <= y < |l| && l[y] == j { assert Linked(st, head, l, tag, y); }
    }
    Joined(st, prev, next, tag, At(i));
  }

  /** The plan after the `x`th page of the list of size `s` left it, or page `i` came to its front. */
  ghost function FilledPlan(g: Plan, s: nat, x: nat): (p: Plan)
    requires IsShift(s) && |g.lists| == SLOTS && x < |g.lists[s - MIN_SHIFT]|
    ensures p.kinds == g.kinds
  {
    g.(lists := g.lists[s - MIN_SHIFT := Dropped(g.lists[s - MIN_SHIFT], x)])
  }

  ghost function ReturnedPlan(g: Plan, i: nat, s: nat): (p: Plan)
    requires IsShift(s) && |g.lists| == SLOTS
    ensures p.kinds == g.kinds
  {
    g.(lists := g.lists[s - MIN_SHIFT := [i] + g.lists[s - MIN_SHIFT]])
  }

  /** The last free chunk of page `i` taken: the page leaves its list. */
  lemma MarkedFills(st: Store, maps: seq<seq<nat>>, g: Plan, i: nat, s: nat, k: nat) returns (x: nat)
    requires Inv(st, maps, g) && i < |st.pages| && g.kinds[i] == Chunks(s) && k < Count(s)
    requires HasFree(st.pages[i].slab, maps[i], s)
    requires !HasFree(Repainted(st.pages[i], s, k, true).slab, MarkWords(maps[i], s, k, true), s)
    ensures IsShift(s) && x < |g.lists[s - MIN_SHIFT]| && g.lists[s - MIN_SHIFT][x] == i
    ensures var st1 := With(st, At(i), Repainted(st.pages[i], s, k, true));
      && Points(st1, st1.pages[i].prev) && Points(st1, st1.pages[i].next)
      && Inv(OffList(st1, i), maps[i := MarkWords(maps[i], s, k, true)], FilledPlan(g, s, x))
  {
    hide Inv, Linked, HasFree, ChunkOk, MarkSlab, MarkWords;
    AtChunks(st, maps, g, i, s);
    var p, z := Repainted(st.pages[i], s, k, true), s - MIN_SHIFT;
    var st1, maps' := With(st, At(i), p), maps[i := MarkWords(maps[i], s, k, true)];
    MarkedSound(st.pages[i].slab, maps[i], s, k, true);
    var l := g.lists[z];
    x :| 0 <= x < |l| && l[x] == i;
    ChainFrame(st, st1, SlotHead(z), l, TagOf(s));
    OffListChain(st1, SlotHead(z), l, TagOf(s), x);
    OffListKeeps(st1, SlotHead(z), l, TagOf(s), x);
    DroppedMembers(l, x);
    hide OffList, With;
    Rebuilt(st, maps, g, OffList(st1, i), maps', i, z, Dropped(l, x));
  }

  lemma DroppedMembers(l: seq<nat>, x: nat)
    requires Distinct(l) && x < |l|
    ensures forall j :: j in Dropped(l, x) <==> j in l && j != l[x]
  {
    forall j | j in l && j != l[x] ensures j in Dropped(l, x) {
      var y :| 0 <= y < |l| && l[y] == j;
      assert Dropped(l, x)[if y < x then y else y - 1] == j;
    }
  }

  /** A chunk of the full page `i` given back: the page comes to the front of its list. */
  lemma MarkedReturns(st: Store, maps: seq<seq<nat>>, g: Plan, i: nat, s: nat, k: nat)
    requires Inv(st, maps, g) && i < |st.pages| && g.kinds[i] == Chunks(s) && Reserved(s) <= k < Count(s)
    requires !HasFree(st.pages[i].slab, maps[i], s)
    ensures IsShift(s) && Points(st, st.slots[s - MIN_SHIFT].next)
    ensures var z := s - MIN_SHIFT; var st1 := Insert(st, i, SlotHead(z), st.slots[z].next, TagOf(s));
      Inv(With(st1, At(i), Repainted(st1.pages[i], s, k, false)), maps[i := MarkWords(maps[i], s, k, false)],
        ReturnedPlan(g, i, s))
  {
    var z := s - MIN_SHIFT;
    assert PageOk(st.pages[i], maps[i], g.kinds[i]) && RunOk(g.kinds, i);
    assert ListOk(st, maps, g, z);
    var l, tag, first := g.lists[z], TagOf(s), st.slots[z].next;
    Pushed(st, SlotHead(z), l, tag, i);
    PushKeeps(st, SlotHead(z), l, tag, i);
    var st1 := Insert(st, i, SlotHead(z), first, tag);
    var p := Repainted(st1.pages[i], s, k, false);
    var st2, maps' := With(st1, At(i), p), maps[i := MarkWords(maps[i], s, k, false)];
    Marked(st.pages[i].slab, maps[i], s, k, false);
    assert !Taken(p.slab, maps'[i], s, k);
    ChainFrame(st1, st2, SlotHead(z), [i] + l, tag);
    hide HasFree, ChunkOk, MarkSlab, MarkWords, Insert, With;
    Rebuilt(st, maps, g, st2, maps', i, z, [i] + l);
  }

  /** What putting a page at the front of a list leaves alone. */
  lemma PushKeeps(st: Store, head: Ref, l: seq<nat>, tag: nat, i: nat)
    requires Chain(st, head, l, tag) && i < |st.pages| && i !in l
    ensures Points(st, Target(st, head).next)
    ensures var st' := Insert(st, i, head, Target(st, head).next, tag);
      && (forall j :: 0 <= j < |st.pages| && j != i ==> Looks(st.pages[j], st'.pages[j]))
      && (forall j :: 0 <= j < |st.pages| && j != i && j !in l ==> SameLinks(st.pages[j], st'.pages[j]))
      && (head != FreeHead ==> st'.free == st.free)
      && (forall s :: 0 <= s < |st.slots| && head != SlotHead(s) ==> st'.slots[s] == st.slots[s])
      && st'.pages[i].slab == st.pages[i].slab && st'.pages[i].tag == tag && st'.pages[i].next != Nil
  {
    var first := Nth(head, l, 0);
    InsertKeeps(st, i, head, first, tag);
    forall j | 0 <= j < |st.pages| && j != i ensures Looks(st.pages[j], Insert(st, i, head, first, tag).pages[j]) {
      Inserted(st, i, head, first, tag, At(j));
      if y :| 0 <= y < |l| && l[y] == j { assert Linked(st, head, l, tag, y); }
    }
    Inserted(st, i, head, first, tag, At(i));
  }

  // ---------------------------------------------------------------- a new chunk page

  /** The descriptor and bitmap of a page just cut into chunks, the first of them taken. */
  ghost predicate JustCut(slab: nat, w: seq<nat>, s: nat) {
    && IsShift(s) && |w| == 8
    && (s < EXACT_SHIFT ==> slab == s && w[0] == Ones(Reserved(s) + 1) && WordsClear(w, Words(s)))
    && (s == EXACT_SHIFT ==> slab == 1)
    && (s > EXACT_SHIFT ==> slab == Pow2(MAP_SHIFT) + s)
  }

  lemma CutOk(slab: nat, w: seq<nat>, s: nat)
    requires JustCut(slab, w, s)
    ensures ChunkOk(slab, w, s) && HasFree(slab, w, s)
    ensures forall k :: Reserved(s) <= k < Count(s) ==> (Taken(slab, w, s, k) <==> k == Reserved(s))
  {
    Measures(s);
    if s < EXACT_SHIFT {
      CutSmall(slab, w, s);
    } else if s == EXACT_SHIFT {
      forall k: nat | k < Count(s) ensures Taken(slab, w, s, k) <==> k == 0 { OnesBit(1, k); }
      OnesBelow(1, 64);
      assert !Taken(slab, w, s, 1);
    } else {
      CutBig(slab, w, s);
    }
  }

  lemma {:induction false} OnesBelow(a: nat, b: nat)
    requires a <= b
    ensures Ones(a) < Pow2(b)
    decreases b - a
  {
    if a < b { OnesBelow(a, b - 1); }
  }

  lemma CutSmall(slab: nat, w: seq<nat>, s: nat)
    requires JustCut(slab, w, s) && s < EXACT_SHIFT
    ensures ChunkOk(slab, w, s) && HasFree(slab, w, s)
    ensures forall k :: Reserved(s) <= k < Count(s) ==> (Taken(slab, w, s, k) <==> k == Reserved(s))
  {
    Measures(s);
    OnesBelow(Reserved(s) + 1, 64);
    forall k: nat | k < Count(s) ensures Taken(slab, w, s, k) <==> k <= Reserved(s) { CutSmallAt(slab, w, s, k); }
    hide Taken, Count, Reserved;
    assert !Taken(slab, w, s, Count(s) - 1);
  }

  lemma CutSmallAt(slab: nat, w: seq<nat>, s: nat, k: nat)
    requires JustCut(slab, w, s) && s < EXACT_SHIFT && k < Count(s)
    ensures Taken(slab, w, s, k) <==> k <= Reserved(s)
  {
    Measures(s);
    OnesBit(Reserved(s) + 1, k % 64);
    OnesBit(0, k % 64);
    hide Bit, Ones;
  }

  lemma CutBig(slab: nat, w: seq<nat>, s: nat)
    requires JustCut(slab, w, s) && s > EXACT_SHIFT
    ensures ChunkOk(slab, w, s) && HasFree(slab, w, s)
    ensures forall k :: 0 <= k < Count(s) ==> (Taken(slab, w, s, k) <==> k == 0)
  {
    Measures(s);
    MapAndShift(s, MAP_SHIFT);
    forall k: nat | k < Count(s) ensures Taken(slab, w, s, k) <==> k == 0 {
      ShrBit(slab, MAP_SHIFT, k);
      OnesBit(1, k);
    }
    ShrSmall(slab, MAP_SHIFT, MAP_SHIFT + Count(s));
    OnesBelow(1, Count(s));
    hide Pow2, Shr, Bit;
    assert !Taken(slab, w, s, 1);
  }

  lemma MapAndShift(s: nat, k: nat)
    requires s < 16 && k >= 4
    ensures Shr(Pow2(k) + s, k) == 1 == Ones(1) && (Pow2(k) + s) % 16 == s
  {
    hide Pow2, Shr, Ones;
    SixteenFold(k - 4);
    OnesBelow(4, k);
    OneOne();
    HighOne(s, k);
  }

  lemma OneOne()
    ensures Ones(1) == 1 && Ones(4) == 15
  {
  }

  lemma SixteenFold(k: nat)
    ensures Pow2(4 + k) == 16 * Pow2(k)
  {
    Pow2Sum(4, k);
  }

  /** `1 << k` above a small number. */
  lemma {:induction false} HighOne(low: nat, k: nat)
    requires low < Pow2(k)
    ensures Shr(Pow2(k) + low, k) == 1
  {
    if k > 0 {
      assert (Pow2(k) + low) / 2 == Pow2(k - 1) + low / 2;
      HighOne(low / 2, k - 1);
    }
  }

  /** The store once page `i` is alone on the list of its size. */
  ghost function CutStore(st: Store, i: nat, s: nat, slab: nat): (w: Store)
    requires i < |st.pages| && |st.slots| == SLOTS && IsShift(s)
    ensures |w.pages| == |st.pages| && |w.slots| == SLOTS
  {
    var head := SlotHead(s - MIN_SHIFT);
    SetNext(With(st, At(i), Page(slab, head, head, TagOf(s))), head, At(i))
  }

  ghost function CutPlan(g: Plan, i: nat, s: nat): Plan
    requires i < |g.kinds| && |g.lists| == SLOTS && IsShift(s)
  {
    g.(kinds := g.kinds[i := Chunks(s)], lists := g.lists[s - MIN_SHIFT := [i]])
  }

  /** What a cut changes of the pages, and of the plan. */
  lemma CutLooks(st: Store, g: Plan, i: nat, s: nat, slab: nat)
    requires i < |st.pages| == |g.kinds| && |st.slots| == |g.lists| == SLOTS && IsShift(s)
    ensures var head, st', g' := SlotHead(s - MIN_SHIFT), CutStore(st, i, s, slab), CutPlan(g, i, s);
      && st'.pages == st.pages[i := Page(slab, head, head, TagOf(s))] && st'.free == st.free
      && (forall y :: 0 <= y < SLOTS && y != s - MIN_SHIFT ==> st'.slots[y] == st.slots[y])
      && g'.kinds == g.kinds[i := Chunks(s)] && g'.free == g.free && |g'.lists| == SLOTS
  {
  }

  /** The single used page `i` cut into chunks of a size whose list was empty. */
  lemma CutKeeps(st: Store, maps: seq<seq<nat>>, g: Plan, i: nat, s: nat, slab: nat, w: seq<nat>)
    requires Inv(st, maps, g) && i < |st.pages| && g.kinds[i] == UsedRun(1) && JustCut(slab, w, s)
    requires g.lists[s - MIN_SHIFT] == []
    ensures Inv(CutStore(st, i, s, slab), maps[i := w], CutPlan(g, i, s))
  {
    assert IsShift(s);
    CutOk(slab, w, s);
    CutLooks(st, g, i, s, slab);
    CutPages(st, maps, g, i, s, slab, w);
    hide JustCut, HasFree, Chain, ListOk, RunOk, PageOk, FreeOk, CutStore, CutPlan;
    var st', maps', g' := CutStore(st, i, s, slab), maps[i := w], CutPlan(g, i, s);
    forall y | 0 <= y < SLOTS ensures ListOk(st', maps', g', y) { CutList(st, maps, g, i, s, slab, w, y); }
    CutFree(st, maps, g, i, s, slab);
  }

  lemma CutPages(st: Store, maps: seq<seq<nat>>, g: Plan, i: nat, s: nat, slab: nat, w: seq<nat>)
    requires Inv(st, maps, g) && i < |st.pages| && g.kinds[i] == UsedRun(1) && JustCut(slab, w, s)
    ensures RunsOk(CutPlan(g, i, s).kinds) && PagesOk(CutStore(st, i, s, slab), maps[i := w], CutPlan(g, i, s).kinds)
  {
    CutOk(slab, w, s);
    assert |w| == 8 && IsShift(s);
    CutLooks(st, g, i, s, slab);
    CutRuns(g.kinds, i, s);
    PageCut(slab, w, s);
    hide JustCut, ChunkOk, HasFree, CutStore, CutPlan, ListOk, FreeOk, RunsOk, RunOk, PageOk;
    var kinds' := g.kinds[i := Chunks(s)];
    forall j | 0 <= j < |kinds'| ensures PageOk(CutStore(st, i, s, slab).pages[j], maps[i := w][j], kinds'[j]) {
      assert PageOk(st.pages[j], maps[j], g.kinds[j]);
    }
  }

  lemma CutRuns(kinds: seq<Kind>, i: nat, s: nat)
    requires RunsOk(kinds) && i < |kinds| && kinds[i] == UsedRun(1) && IsShift(s)
    ensures RunsOk(kinds[i := Chunks(s)])
  {
    var kinds' := kinds[i := Chunks(s)];
    forall j | 0 <= j < |kinds'| ensures RunOk(kinds', j) {
      assert RunOk(kinds, j);
    }
  }

  lemma PageCut(slab: nat, w: seq<nat>, s: nat)
    requires |w| == 8 && ChunkOk(slab, w, s) && HasFree(slab, w, s)
    ensures var head := SlotHead(s - MIN_SHIFT); PageOk(Page(slab, head, head, TagOf(s)), w, Chunks(s))
  {
  }

  lemma CutFree(st: Store, maps: seq<seq<nat>>, g: Plan, i: nat, s: nat, slab: nat)
    requires Inv(st, maps, g) && i < |st.pages| && g.kinds[i] == UsedRun(1) && IsShift(s)
    ensures FreeOk(CutStore(st, i, s, slab), CutPlan(g, i, s))
  {
    hide Chain, ListOk, RunOk, PageOk;
    OthersKept(st, CutStore(st, i, s, slab), SlotHead(s - MIN_SHIFT), [i], FreeHead, g.free, SLAB_PAGE);
  }

  lemma CutList(st: Store, maps: seq<seq<nat>>, g: Plan, i: nat, s: nat, slab: nat, w: seq<nat>, y: nat)
    requires Inv(st, maps, g) && i < |st.pages| && g.kinds[i] == UsedRun(1) && IsShift(s) && HasFree(slab, w, s)
    requires g.lists[s - MIN_SHIFT] == [] && y < SLOTS
    ensures ListOk(CutStore(st, i, s, slab), maps[i := w], CutPlan(g, i, s), y)
  {
    var st', z := CutStore(st, i, s, slab), s - MIN_SHIFT;
    assert ListOk(st, maps, g, y) && ListOk(st, maps, g, z);
    hide HasFree, PageOk, RunOk;
    PushedAlone(st, SlotHead(z), TagOf(s), i, slab);
    if y != z { OthersKept(st, st', SlotHead(z), [i], SlotHead(y), g.lists[y], TagOf(y + MIN_SHIFT)); }
  }

  // ---------------------------------------------------------------- pages taken from a free run

  /** The free run at `i` loses its first `n` pages; `st'` is `st` but for the pages of the run and the
      links of the free list. */
  ghost predicate CarvedFrom(st: Store, st': Store, g: Plan, i: nat, n: nat)
    requires |st.pages| == |g.kinds| && i < |g.kinds| && g.kinds[i].FreeRun? && 1 <= n <= g.kinds[i].n
  {
    && |st'.pages| == |st.pages| && st'.slots == st.slots
    && (forall j :: 0 <= j < |st.pages| && !(i <= j <= i + n) ==> Looks(st.pages[j], st'.pages[j]))
    && (forall j :: 0 <= j < |st.pages| && !(i <= j <= i + n) && j !in g.free ==> SameLinks(st.pages[j], st'.pages[j]))
    && st'.pages[i] == Page(n + SLAB_PAGE_START, Nil, Nil, SLAB_PAGE)
    && (forall j :: i < j < i + n && j < |st.pages| ==> st'.pages[j] == Page(SLAB_PAGE_BUSY, Nil, Nil, SLAB_PAGE))
    && (i + n < |st.pages| ==>
         if n < g.kinds[i].n then st'.pages[i + n].slab == g.kinds[i].n - n && st'.pages[i + n].tag == SLAB_PAGE
         else Looks(st.pages[i + n], st'.pages[i + n]))
    && (i + n < |st.pages| && n == g.kinds[i].n && i + n !in g.free ==> SameLinks(st.pages[i + n], st'.pages[i + n]))
  }

  lemma CarveKeeps(st: Store, maps: seq<seq<nat>>, g: Plan, st': Store, x: nat, n: nat, free: seq<nat>)
    requires Inv(st, maps, g) && x < |g.free| && g.free[x] < |g.kinds| && g.kinds[g.free[x]].FreeRun?
      && 1 <= n <= g.kinds[g.free[x]].n
    requires CarvedFrom(st, st', g, g.free[x], n) && Chain(st', FreeHead, free, SLAB_PAGE)
    requires free == if n < g.kinds[g.free[x]].n then g.free[x := g.free[x] + n] else Dropped(g.free, x)
    ensures Inv(st', maps, Plan(Carved(g.kinds, g.free[x], n), free, g.lists))
  {
    var i, m := g.free[x], g.kinds[g.free[x]].n;
    var kinds := Carved(g.kinds, i, n);
    var g' := Plan(kinds, free, g.lists);
    assert RunOk(g.kinds, i);
    CarvedRuns(g.kinds, i, n);
    forall j | 0 <= j < |kinds| ensures PageOk(st'.pages[j], maps[j], kinds[j]) {
      assert PageOk(st.pages[j], maps[j], g.kinds[j]);
    }
    CarvedFree(g, x, n, free);
    forall y | 0 <= y < SLOTS ensures ListOk(st', maps, g', y) { CarvedList(st, maps, g, st', x, n, free, y); }
  }

  lemma CarvedFree(g: Plan, x: nat, n: nat, free: seq<nat>)
    requires x < |g.free| && RunsOk(g.kinds) && Distinct(g.free)
    requires forall i :: 0 <= i < |g.kinds| ==> (i in g.free <==> g.kinds[i].FreeRun?)
    requires g.free[x] < |g.kinds| && g.kinds[g.free[x]].FreeRun? && 1 <= n <= g.kinds[g.free[x]].n
    requires free == if n < g.kinds[g.free[x]].n then g.free[x := g.free[x] + n] else Dropped(g.free, x)
    ensures forall i :: 0 <= i < |g.kinds| ==> (i in free <==> Carved(g.kinds, g.free[x], n)[i].FreeRun?)
  {
    var i := g.free[x];
    assert RunOk(g.kinds, i);
    DroppedMembers(g.free, x);
    if n < g.kinds[i].n {
      assert free[x] == i + n;
      forall j ensures j in free <==> j == i + n || j in Dropped(g.free, x) {
        if j in Dropped(g.free, x) {
          var y :| 0 <= y < |g.free| && g.free[y] == j;
          assert free[y] == j;
        }
      }
    }
  }

  lemma CarvedList(st: Store, maps: seq<seq<nat>>, g: Plan, st': Store, x: nat, n: nat, free: seq<nat>, y: nat)
    requires Inv(st, maps, g) && x < |g.free| && g.free[x] < |g.kinds| && g.kinds[g.free[x]].FreeRun?
      && 1 <= n <= g.kinds[g.free[x]].n
    requires CarvedFrom(st, st', g, g.free[x], n) && y < SLOTS
    ensures ListOk(st', maps, Plan(Carved(g.kinds, g.free[x], n), free, g.lists), y)
  {
    var i := g.free[x];
    var kinds := Carved(g.kinds, i, n);
    assert RunOk(g.kinds, i) && ListOk(st, maps, g, y);
    forall j | 0 <= j < |kinds| && kinds[j].Chunks?
      ensures kinds[j] == g.kinds[j] && st'.pages[j].slab == st.pages[j].slab {}
    forall j | 0 <= j < |kinds| && g.kinds[j].Chunks? ensures kinds[j] == g.kinds[j] {}
    hide HasFree, RunOk, PageOk, Carved, Chain;
    ChainFrame(st, st', SlotHead(y), g.lists[y], TagOf(y + MIN_SHIFT));
  }

  /** Pages `i` up to `i + n` overwritten: the first by `head`, the others by `rest`. */
  ghost function RunWritten(pages: seq<Page>, i: nat, n: nat, head: Page, rest: Page): (w: seq<Page>)
    ensures |w| == |pages|
  {
    seq(|pages|, j requires 0 <= j < |pages| => if j == i then head else if i < j < i + n then rest else pages[j])
  }

  const UsedRest_ := Page(SLAB_PAGE_BUSY, Nil, Nil, SLAB_PAGE)

  function UsedHead(n: nat): Page { Page(n + SLAB_PAGE_START, Nil, Nil, SLAB_PAGE) }

  /** The free run at the `x`th place of the free list. */
  lemma RunHere(st: Store, maps: seq<seq<nat>>, g: Plan, x: nat)
    requires Inv(st, maps, g) && x < |g.free|
    ensures var i := g.free[x];
      && i < |st.pages| == |g.kinds| && g.kinds[i].FreeRun? && st.pages[i].slab == g.kinds[i].n >= 1
         && i + g.kinds[i].n <= |st.pages|
      && st.pages[i].prev == Nth(FreeHead, g.free, x - 1) && st.pages[i].next == Nth(FreeHead, g.free, x + 1)
      && st.pages[i].tag == SLAB_PAGE && Points(st, st.pages[i].prev) && Points(st, st.pages[i].next)
  {
    Neighbours(st, FreeHead, g.free, SLAB_PAGE, x);
    assert g.free[x] in g.free;
    assert RunOk(g.kinds, g.free[x]) && PageOk(st.pages[g.free[x]], maps[g.free[x]], g.kinds[g.free[x]]);
  }

  ghost predicate CanCarve(st: Store, maps: seq<seq<nat>>, g: Plan, x: nat, n: nat) {
    Inv(st, maps, g) && x < |g.free| && g.free[x] < |g.kinds| && g.kinds[g.free[x]].FreeRun?
      && 1 <= n <= g.kinds[g.free[x]].n
  }

  /** What is left of a longer run takes its place in the list. */
  ghost function SplitLinks(st: Store, i: nat, n: nat): (w: Store)
    requires i + n < |st.pages| && Points(st, st.pages[i].prev) && Points(st, st.pages[i].next) && n <= st.pages[i].slab
    ensures |w.pages| == |st.pages|
  {
    var p := st.pages[i];
    Insert(With(st, At(i + n), st.pages[i + n].(slab := p.slab - n)), i + n, p.prev, p.next, SLAB_PAGE)
  }

  ghost function RunTaken(st: Store, i: nat, n: nat): (w: Store)
    ensures |w.pages| == |st.pages|
  {
    st.(pages := RunWritten(st.pages, i, n, UsedHead(n), UsedRest_))
  }

  /** What the first part of a free run may be cut off on. */
  lemma SplitReady(st: Store, maps: seq<seq<nat>>, g: Plan, x: nat, n: nat)
    requires CanCarve(st, maps, g, x, n) && n < g.kinds[g.free[x]].n
    ensures var i := g.free[x];
      && i + n < |st.pages| && Points(st, st.pages[i].prev) && Points(st, st.pages[i].next) && n <= st.pages[i].slab
      && st.pages[i].slab == g.kinds[i].n && i + n !in g.free && Chain(st, FreeHead, g.free, SLAB_PAGE)
  {
    RunHere(st, maps, g, x);
    assert RunOk(g.kinds, g.free[x]);
    hide PagesOk, ListOk, Chain;
  }

  lemma SplitChain(st: Store, l: seq<nat>, x: nat, n: nat)
    requires Chain(st, FreeHead, l, SLAB_PAGE) && x < |l|
    requires var i := l[x];
      i + n < |st.pages| && i + n !in l && Points(st, st.pages[i].prev) && Points(st, st.pages[i].next)
        && n <= st.pages[i].slab
    ensures Chain(SplitLinks(st, l[x], n), FreeHead, l[x := l[x] + n], SLAB_PAGE)
    ensures SplitLinks(st, l[x], n).slots == st.slots
    ensures var q := SplitLinks(st, l[x], n).pages[l[x] + n]; q.slab == st.pages[l[x]].slab - n && q.tag == SLAB_PAGE
  {
    var i := l[x];
    Neighbours(st, FreeHead, l, SLAB_PAGE, x);
    var st1 := With(st, At(i + n), st.pages[i + n].(slab := st.pages[i].slab - n));
    ChainFrame(st, st1, FreeHead, l, SLAB_PAGE);
    Replaced(st1, FreeHead, l, SLAB_PAGE, x, i + n);
    InsertKeeps(st1, i + n, st.pages[i].prev, st.pages[i].next, SLAB_PAGE);
    Inserted(st1, i + n, st.pages[i].prev, st.pages[i].next, SLAB_PAGE, At(i + n));
  }

  lemma SplitLooks(st: Store, l: seq<nat>, x: nat, n: nat, j: nat)
    requires Chain(st, FreeHead, l, SLAB_PAGE) && x < |l|
    requires var i := l[x];
      i + n < |st.pages| && i + n !in l && Points(st, st.pages[i].prev) && Points(st, st.pages[i].next)
        && n <= st.pages[i].slab
    requires j < |st.pages| && j != l[x] && j != l[x] + n
    ensures Looks(st.pages[j], SplitLinks(st, l[x], n).pages[j])
    ensures j !in l ==> SameLinks(st.pages[j], SplitLinks(st, l[x], n).pages[j])
  {
    var i := l[x];
    Neighbours(st, FreeHead, l, SLAB_PAGE, x);
    var st1 := With(st, At(i + n), st.pages[i + n].(slab := st.pages[i].slab - n));
    Inserted(st1, i + n, st.pages[i].prev, st.pages[i].next, SLAB_PAGE, At(j));
    if y :| 0 <= y < |l| && l[y] == j { assert Linked(st, FreeHead, l, SLAB_PAGE, y); }
  }

  /** Writing the pages of the run itself does not touch the list. */
  lemma TakenChain(st: Store, g: Plan, x: nat, n: nat, l: seq<nat>)
    requires RunsOk(g.kinds) && x < |g.free| && Distinct(g.free) && |st.pages| == |g.kinds|
    requires forall i :: 0 <= i < |g.kinds| ==> (i in g.free <==> g.kinds[i].FreeRun?)
    requires g.free[x] < |g.kinds| && g.kinds[g.free[x]].FreeRun? && 1 <= n <= g.kinds[g.free[x]].n
    requires Chain(st, FreeHead, l, SLAB_PAGE)
    requires l == if n < g.kinds[g.free[x]].n then g.free[x := g.free[x] + n] else Dropped(g.free, x)
    ensures Chain(RunTaken(st, g.free[x], n), FreeHead, l, SLAB_PAGE)
  {
    var i := g.free[x];
    assert RunOk(g.kinds, i);
    DroppedMembers(g.free, x);
    forall k | 0 <= k < |l| ensures l[k] != i && !(i < l[k] < i + n) {
      if n < g.kinds[i].n {
        if k != x { assert g.free[k] in g.free && g.free[k] != i; }
      } else {
        assert l[k] in l;
      }
    }
    ChainFrame(st, RunTaken(st, i, n), FreeHead, l, SLAB_PAGE);
  }

  lemma SplitCarves(st: Store, maps: seq<seq<nat>>, g: Plan, x: nat, n: nat)
    requires CanCarve(st, maps, g, x, n) && n < g.kinds[g.free[x]].n
    ensures var i := g.free[x];
      i + n < |st.pages| && Points(st, st.pages[i].prev) && Points(st, st.pages[i].next) && n <= st.pages[i].slab
    ensures Inv(RunTaken(SplitLinks(st, g.free[x], n), g.free[x], n), maps,
                Plan(Carved(g.kinds, g.free[x], n), g.free[x := g.free[x] + n], g.lists))
    ensures CarvedFrom(st, RunTaken(SplitLinks(st, g.free[x], n), g.free[x], n), g, g.free[x], n)
  {
    hide ListOk, PageOk, Linked, RunOk;
    var i := g.free[x];
    SplitReady(st, maps, g, x, n);
    SplitChain(st, g.free, x, n);
    TakenChain(SplitLinks(st, i, n), g, x, n, g.free[x := i + n]);
    hide RunsOk, PagesOk, Chain, SplitLinks;
    var st1 := SplitLinks(st, i, n);
    forall j | 0 <= j < |st.pages| && j != i && j != i + n ensures OffListLooks(st, st1, g.free, j) {
      SplitLooks(st, g.free, x, n, j);
    }
    SplitCarved(st, st1, g, i, n);
    CarveKeeps(st, maps, g, RunTaken(st1, i, n), x, n, g.free[x := i + n]);
  }

  /** The run is as long as asked for: it leaves the list. */
  lemma WholeChain(st: Store, l: seq<nat>, x: nat)
    requires Chain(st, FreeHead, l, SLAB_PAGE) && x < |l|
    ensures Points(st, st.pages[l[x]].prev) && Points(st, st.pages[l[x]].next)
    ensures var p := st.pages[l[x]]; var st1 := Join(st, p.prev, p.next, p.tag);
      && Chain(st1, FreeHead, Dropped(l, x), SLAB_PAGE) && st1.slots == st.slots
      && forall j :: 0 <= j < |st.pages| && j != l[x] ==> OffListLooks(st, st1, l, j)
  {
    Neighbours(st, FreeHead, l, SLAB_PAGE, x);
    var p := st.pages[l[x]];
    Unlinked(st, FreeHead, l, SLAB_PAGE, x);
    JoinKeeps(st, p.prev, p.next, SLAB_PAGE);
    hide Join, Chain, Linked;
    forall j | 0 <= j < |st.pages| && j != l[x] ensures OffListLooks(st, Join(st, p.prev, p.next, p.tag), l, j) {
      WholeLooks(st, l, x, j);
    }
  }

  ghost predicate OffListLooks(st: Store, st1: Store, l: seq<nat>, j: nat)
    requires j < |st.pages| == |st1.pages|
  {
    Looks(st.pages[j], st1.pages[j]) && (j !in l ==> SameLinks(st.pages[j], st1.pages[j]))
  }

  lemma WholeLooks(st: Store, l: seq<nat>, x: nat, j: nat)
    requires Chain(st, FreeHead, l, SLAB_PAGE) && x < |l| && j < |st.pages| && j != l[x]
    ensures Points(st, st.pages[l[x]].prev) && Points(st, st.pages[l[x]].next)
    ensures var p := st.pages[l[x]]; OffListLooks(st, Join(st, p.prev, p.next, p.tag), l, j)
  {
    Neighbours(st, FreeHead, l, SLAB_PAGE, x);
    var p := st.pages[l[x]];
    Joined(st, p.prev, p.next, SLAB_PAGE, At(j));
    if y :| 0 <= y < |l| && l[y] == j { assert Linked(st, FreeHead, l, SLAB_PAGE, y); }
    hide Join;
  }

  lemma WholeCarves(st: Store, maps: seq<seq<nat>>, g: Plan, x: nat, n: nat)
    requires CanCarve(st, maps, g, x, n) && n == g.kinds[g.free[x]].n
    ensures Points(st, st.pages[g.free[x]].prev) && Points(st, st.pages[g.free[x]].next)
    ensures var p := st.pages[g.free[x]]; var st2 := RunTaken(Join(st, p.prev, p.next, p.tag), g.free[x], n);
      Inv(st2, maps, Plan(Carved(g.kinds, g.free[x], n), Dropped(g.free, x), g.lists))
        && CarvedFrom(st, st2, g, g.free[x], n)
  {
    hide ListOk, PageOk, Linked, RunOk;
    var i, p := g.free[x], st.pages[g.free[x]];
    WholeChain(st, g.free, x);
    var st1 := Join(st, p.prev, p.next, p.tag);
    TakenChain(st1, g, x, n, Dropped(g.free, x));
    WholeCarved(st, st1, g, i, n);
    CarveKeeps(st, maps, g, RunTaken(st1, i, n), x, n, Dropped(g.free, x));
  }

  lemma WholeCarved(st: Store, st1: Store, g: Plan, i: nat, n: nat)
    requires |st.pages| == |g.kinds| == |st1.pages| && RunsOk(g.kinds) && i < |g.kinds| && g.kinds[i] == FreeRun(n)
    requires st1.slots == st.slots
    requires forall j :: 0 <= j < |st.pages| && j != i ==> OffListLooks(st, st1, g.free, j)
    ensures n >= 1 && CarvedFrom(st, RunTaken(st1, i, n), g, i, n)
  {
    assert RunOk(g.kinds, i);
    var st2 := RunTaken(st1, i, n);
    forall j | 0 <= j < |st.pages| && !(i <= j < i + n)
      ensures Looks(st.pages[j], st2.pages[j]) && (j !in g.free ==> SameLinks(st.pages[j], st2.pages[j]))
    {
      assert OffListLooks(st, st1, g.free, j);
    }
  }

  lemma SplitCarved(st: Store, st1: Store, g: Plan, i: nat, n: nat)
    requires |st.pages| == |g.kinds| == |st1.pages| && RunsOk(g.kinds) && i < |g.kinds| && g.kinds[i].FreeRun?
      && 1 <= n < g.kinds[i].n
    requires st1.slots == st.slots && i + n < |st.pages|
    requires st1.pages[i + n].slab == g.kinds[i].n - n && st1.pages[i + n].tag == SLAB_PAGE
    requires forall j :: 0 <= j < |st.pages| && j != i && j != i + n ==> OffListLooks(st, st1, g.free, j)
    ensures CarvedFrom(st, RunTaken(st1, i, n), g, i, n)
  {
    assert RunOk(g.kinds, i);
    var st2 := RunTaken(st1, i, n);
    forall j | 0 <= j < |st.pages| && !(i <= j <= i + n)
      ensures Looks(st.pages[j], st2.pages[j]) && (j !in g.free ==> SameLinks(st.pages[j], st2.pages[j]))
    {
      assert OffListLooks(st, st1, g.free, j);
    }
  }

  // ---------------------------------------------------------------- pages given back

  ghost predicate ReleasedTo(st: Store, st': Store, g: Plan, i: nat, n: nat)
    requires |st.pages| == |g.kinds| && i < |g.kinds|
  {
    && |st'.pages| == |st.pages| && |st'.slots| == |st.slots|
    && (forall j :: 0 <= j < |st.pages| && !(i <= j < i + n) ==> Looks(st.pages[j], st'.pages[j]))
    && st'.pages[i].slab == n && st'.pages[i].tag == SLAB_PAGE
    && (forall j :: i < j < i + n && j < |st.pages| ==> st'.pages[j] == Page(0, Nil, Nil, SLAB_PAGE))
  }

  lemma ReleaseKeeps(st: Store, maps: seq<seq<nat>>, g: Plan, st': Store, i: nat, n: nat, lists: seq<seq<nat>>)
    requires Inv(st, maps, g) && i < |g.kinds| && (g.kinds[i] == UsedRun(n) || (g.kinds[i].Chunks? && n == 1))
    requires ReleasedTo(st, st', g, i, n) && Chain(st', FreeHead, [i] + g.free, SLAB_PAGE) && |lists| == SLOTS
    requires forall z :: 0 <= z < SLOTS ==> Chain(st', SlotHead(z), lists[z], TagOf(z + MIN_SHIFT))
    requires forall z, j :: 0 <= z < SLOTS && 0 <= j < |g.kinds| ==> (j in lists[z] <==> j != i && j in g.lists[z])
    ensures Inv(st', maps, Plan(Released(g.kinds, i, n), [i] + g.free, lists))
  {
    var kinds := Released(g.kinds, i, n);
    var g' := Plan(kinds, [i] + g.free, lists);
    assert RunOk(g.kinds, i);
    ReleasedRuns(g.kinds, i, n);
    hide HasFree, ChunkOk;
    forall j | 0 <= j < |kinds| ensures PageOk(st'.pages[j], maps[j], kinds[j]) {
      assert PageOk(st.pages[j], maps[j], g.kinds[j]);
    }
    forall z | 0 <= z < SLOTS ensures ListOk(st', maps, g', z) { assert ListOk(st, maps, g, z); }
  }

  const FreedRest := Page(0, Nil, Nil, SLAB_PAGE)

  /** The descriptors of the pages given back: the length in the first, zeroes in the rest. */
  ghost function Wiped(st: Store, i: nat, n: nat): (w: Store)
    requires i < |st.pages|
    ensures |w.pages| == |st.pages|
  {
    st.(pages := RunWritten(st.pages, i, n, st.pages[i].(slab := n), FreedRest))
  }

  /** The used run at `i` given back: it was on no list. */
  lemma RunReleases(st: Store, maps: seq<seq<nat>>, g: Plan, i: nat, n: nat)
    requires Inv(st, maps, g) && i < |g.kinds| && g.kinds[i] == UsedRun(n)
    ensures i < |st.pages| && Points(st, st.free.next) && Points(Wiped(st, i, n), st.free.next)
    ensures var st' := Insert(Wiped(st, i, n), i, FreeHead, st.free.next, SLAB_PAGE);
      Inv(st', maps, Plan(Released(g.kinds, i, n), [i] + g.free, g.lists)) && ReleasedTo(st, st', g, i, n)
  {
    RunHead(st, maps, g, i, n);
    hide PagesOk, RunsOk, ListOk, Linked, RunOk, PageOk;
    WipedChains(st, maps, g, i, n);
    var st1 := Wiped(st, i, n);
    Pushed(st1, FreeHead, g.free, SLAB_PAGE, i);
    PushKeeps(st1, FreeHead, g.free, SLAB_PAGE, i);
    hide Chain, Wiped;
    var st' := Insert(st1, i, FreeHead, st.free.next, SLAB_PAGE);
    ReleasedIs(st, st1, st', g, i, n);
    forall z | 0 <= z < SLOTS ensures Chain(st', SlotHead(z), g.lists[z], TagOf(z + MIN_SHIFT)) {
      ListsApart(st, maps, g, z);
      ListKept(st1, st', g, i, z);
    }
    ReleaseKeeps(st, maps, g, st', i, n, g.lists);
  }

  lemma RunHead(st: Store, maps: seq<seq<nat>>, g: Plan, i: nat, n: nat)
    requires Inv(st, maps, g) && i < |g.kinds| && g.kinds[i] == UsedRun(n)
    ensures 1 <= n && i + n <= |g.kinds| == |st.pages| && i !in g.free && st.free.next == Nth(FreeHead, g.free, 0)
    ensures st.pages[i].tag == SLAB_PAGE && st.pages[i].next == Nil
    ensures forall j :: i < j < i + n ==> j !in g.free
    ensures forall z, j :: 0 <= z < SLOTS && j in g.lists[z] ==> j != i
  {
    assert RunOk(g.kinds, i) && PageOk(st.pages[i], maps[i], g.kinds[i]);
    forall z, j | 0 <= z < SLOTS && j in g.lists[z] ensures j != i { assert ListOk(st, maps, g, z); }
  }

  lemma ListsApart(st: Store, maps: seq<seq<nat>>, g: Plan, z: nat)
    requires Inv(st, maps, g) && z < SLOTS
    ensures forall j :: j in g.lists[z] ==> j < |g.kinds| && j !in g.free
  {
    assert ListOk(st, maps, g, z);
  }

  /** No list runs through the pages of a used run. */
  lemma WipedChains(st: Store, maps: seq<seq<nat>>, g: Plan, i: nat, n: nat)
    requires Inv(st, maps, g) && i < |g.kinds|
    requires g.kinds[i] == UsedRun(n) || g.kinds[i] == FreeRun(n) || (g.kinds[i].Chunks? && n == 1)
    ensures i < |st.pages| && Chain(Wiped(st, i, n), FreeHead, g.free, SLAB_PAGE)
    ensures forall z :: 0 <= z < SLOTS ==> Chain(Wiped(st, i, n), SlotHead(z), g.lists[z], TagOf(z + MIN_SHIFT))
  {
    assert RunOk(g.kinds, i);
    var st1 := Wiped(st, i, n);
    hide PagesOk, HasFree;
    forall k | 0 <= k < |g.free| ensures !(i < g.free[k] < i + n) { assert g.free[k] in g.free; }
    ChainFrame(st, st1, FreeHead, g.free, SLAB_PAGE);
    forall z | 0 <= z < SLOTS ensures Chain(st1, SlotHead(z), g.lists[z], TagOf(z + MIN_SHIFT)) {
      assert ListOk(st, maps, g, z);
      forall k | 0 <= k < |g.lists[z]| ensures !(i < g.lists[z][k] < i + n) { assert g.lists[z][k] in g.lists[z]; }
      ChainFrame(st, st1, SlotHead(z), g.lists[z], TagOf(z + MIN_SHIFT));
    }
  }

  /** Pushing a page on the free list leaves the other lists alone. */
  lemma ListKept(st: Store, st': Store, g: Plan, i: nat, z: nat)
    requires z < |g.lists| && Chain(st, SlotHead(z), g.lists[z], TagOf(z + MIN_SHIFT)) && i !in g.lists[z]
    requires |st'.pages| == |st.pages| && |st'.slots| == |st.slots|
    requires forall j :: 0 <= j < |st.pages| && j != i && j !in g.free ==> SameLinks(st.pages[j], st'.pages[j])
    requires forall s :: 0 <= s < |st.slots| ==> st'.slots[s] == st.slots[s]
    requires forall j :: j in g.lists[z] ==> j !in g.free
    ensures Chain(st', SlotHead(z), g.lists[z], TagOf(z + MIN_SHIFT))
  {
    OthersKept(st, st', FreeHead, g.free + [i], SlotHead(z), g.lists[z], TagOf(z + MIN_SHIFT));
  }

  lemma ReleasedIs(st: Store, st1: Store, st': Store, g: Plan, i: nat, n: nat)
    requires |st.pages| == |g.kinds| == |st1.pages| == |st'.pages| && i + n <= |g.kinds| && 1 <= n
      && |st'.slots| == |st.slots|
    requires st1 == Wiped(st, i, n) && st'.pages[i].slab == n && st'.pages[i].tag == SLAB_PAGE
    requires forall j :: 0 <= j < |st.pages| && j != i ==> Looks(st1.pages[j], st'.pages[j])
    requires forall j :: 0 <= j < |st.pages| && j != i && j !in g.free ==> st'.pages[j] == st1.pages[j]
    requires forall j :: i < j < i + n ==> j !in g.free
    ensures ReleasedTo(st, st', g, i, n)
  {
  }

  /** The chunk page `i`, still on its list, given back. */
  lemma PageReleases(st: Store, maps: seq<seq<nat>>, g: Plan, i: nat, s: nat) returns (x: nat)
    requires Inv(st, maps, g) && i < |g.kinds| && g.kinds[i] == Chunks(s) && HasFree(st.pages[i].slab, maps[i], s)
    ensures IsShift(s) && x < |g.lists[s - MIN_SHIFT]|
    ensures i < |st.pages| && Points(st, st.free.next) && Points(st, st.pages[i].prev) && Points(st, st.pages[i].next)
    ensures var p := st.pages[i]; var st2 := Join(Wiped(st, i, 1), p.prev, p.next, p.tag);
      && st2.free == st.free && Points(st2, st2.free.next)
      && var st' := Insert(st2, i, FreeHead, st2.free.next, SLAB_PAGE);
      && Inv(st', maps, Plan(Released(g.kinds, i, 1), [i] + g.free, FilledPlan(g, s, x).lists))
      && ReleasedTo(st, st', g, i, 1)
  {
    hide PagesOk, RunsOk, ListOk, Linked, RunOk, PageOk, HasFree, Chain, Wiped, Join, Insert, Released, FilledPlan;
    x := WhereListed(st, maps, g, i, s);
    var st1, p := Wiped(st, i, 1), st.pages[i];
    PageUnlinked(st, maps, g, i, s, x);
    var st2 := Join(st1, p.prev, p.next, p.tag);
    PushKeeps(st2, FreeHead, g.free, SLAB_PAGE, i);
    FreeFirst(st2, g.free);
    Pushed(st2, FreeHead, g.free, SLAB_PAGE, i);
    var st' := Insert(st2, i, FreeHead, st2.free.next, SLAB_PAGE);
    PageReleased(st, maps, g, i, s, x, st1, st2, st');
  }

  lemma FreeFirst(st: Store, free: seq<nat>)
    requires Chain(st, FreeHead, free, SLAB_PAGE)
    ensures Target(st, FreeHead) == st.free && st.free.next == Nth(FreeHead, free, 0)
  {
  }

  /** The chunk page `i` off its list, the `x`th there, with its descriptor cleared. */
  lemma PageUnlinked(st: Store, maps: seq<seq<nat>>, g: Plan, i: nat, s: nat, x: nat)
    requires Inv(st, maps, g) && i < |g.kinds| && g.kinds[i] == Chunks(s) && IsShift(s)
    requires x < |g.lists[s - MIN_SHIFT]| && g.lists[s - MIN_SHIFT][x] == i && i < |st.pages|
      && st.pages[i].tag == TagOf(s)
    requires Points(st, st.pages[i].prev) && Points(st, st.pages[i].next)
    ensures var st1, p := Wiped(st, i, 1), st.pages[i];
      && |st1.pages| == |st.pages| && Points(st1, p.prev) && Points(st1, p.next)
      && var st2 := Join(st1, p.prev, p.next, p.tag);
      && |st2.pages| == |st.pages| && |st2.slots| == |st.slots| == SLOTS && st2.free == st1.free == st.free
      && (forall z :: 0 <= z < SLOTS ==> Chain(st1, SlotHead(z), g.lists[z], TagOf(z + MIN_SHIFT)))
      && Chain(st2, SlotHead(s - MIN_SHIFT), Dropped(g.lists[s - MIN_SHIFT], x), TagOf(s))
      && Chain(st2, FreeHead, g.free, SLAB_PAGE)
      && (forall j :: 0 <= j < |st.pages| ==> Looks(st1.pages[j], st2.pages[j]))
      && (forall j :: 0 <= j < |st.pages| && j !in g.lists[s - MIN_SHIFT] ==> SameLinks(st1.pages[j], st2.pages[j]))
      && (forall y :: 0 <= y < SLOTS && y != s - MIN_SHIFT ==> st2.slots[y] == st1.slots[y])
      && st2.pages[i].slab == 1
  {
    WipedChains(st, maps, g, i, 1);
    hide PagesOk, RunsOk, ListOk, Linked, RunOk, PageOk, HasFree, Chain;
    var z, p, st1 := s - MIN_SHIFT, st.pages[i], Wiped(st, i, 1);
    var l, tag := g.lists[z], TagOf(s);
    Neighbours(st1, SlotHead(z), l, tag, x);
    Unlinked(st1, SlotHead(z), l, tag, x);
    JoinedKeeps(st1, SlotHead(z), l, tag, x);
    ListsApart(st, maps, g, z);
    OthersKept(st1, Join(st1, p.prev, p.next, tag), SlotHead(z), l, FreeHead, g.free, SLAB_PAGE);
  }

  lemma WhereListed(st: Store, maps: seq<seq<nat>>, g: Plan, i: nat, s: nat) returns (x: nat)
    requires Inv(st, maps, g) && i < |g.kinds| && g.kinds[i] == Chunks(s) && HasFree(st.pages[i].slab, maps[i], s)
    ensures IsShift(s) && x < |g.lists[s - MIN_SHIFT]| && g.lists[s - MIN_SHIFT][x] == i
    ensures i < |st.pages| && st.pages[i].tag == TagOf(s) && i !in g.free
    ensures Points(st, st.free.next) && Points(st, st.pages[i].prev) && Points(st, st.pages[i].next)
  {
    assert RunOk(g.kinds, i) && ListOk(st, maps, g, s - MIN_SHIFT);
    x :| 0 <= x < |g.lists[s - MIN_SHIFT]| && g.lists[s - MIN_SHIFT][x] == i;
    hide HasFree, PageOk;
    Neighbours(st, SlotHead(s - MIN_SHIFT), g.lists[s - MIN_SHIFT], TagOf(s), x);
  }

  /** What joining the neighbours of the `x`th page leaves alone. */
  lemma JoinedKeeps(st: Store, head: Ref, l: seq<nat>, tag: nat, x: nat)
    requires Chain(st, head, l, tag) && x < |l|
    ensures Points(st, st.pages[l[x]].prev) && Points(st, st.pages[l[x]].next)
    ensures var st' := Join(st, st.pages[l[x]].prev, st.pages[l[x]].next, tag);
      && |st'.pages| == |st.pages| && |st'.slots| == |st.slots|
      && (forall j :: 0 <= j < |st.pages| ==> Looks(st.pages[j], st'.pages[j]))
      && (forall j :: 0 <= j < |st.pages| && j !in l ==> SameLinks(st.pages[j], st'.pages[j]))
      && (head != FreeHead ==> st'.free == st.free)
      && (forall s :: 0 <= s < |st.slots| && head != SlotHead(s) ==> st'.slots[s] == st.slots[s])
  {
    Neighbours(st, head, l, tag, x);
    var prev, next := st.pages[l[x]].prev, st.pages[l[x]].next;
    JoinKeeps(st, prev, next, tag);
    forall j | 0 <= j < |st.pages| ensures Looks(st.pages[j], Join(st, prev, next, tag).pages[j]) {
      Joined(st, prev, next, tag, At(j));
      if y :| 0 <= y < |l| && l[y] == j { assert Linked(st, head, l, tag, y); }
    }
  }

  lemma PageReleased(st: Store, maps: seq<seq<nat>>, g: Plan, i: nat, s: nat, x: nat, st1: Store, st2: Store,
      st': Store)
    requires Inv(st, maps, g) && i < |g.kinds| && g.kinds[i] == Chunks(s) && IsShift(s) && x < |g.lists[s - MIN_SHIFT]|
    requires g.lists[s - MIN_SHIFT][x] == i && st1 == Wiped(st, i, 1)
    requires |st2.pages| == |st.pages| == |st'.pages| && |st2.slots| == |st.slots| == |st'.slots| == SLOTS
    requires forall z :: 0 <= z < SLOTS ==> Chain(st1, SlotHead(z), g.lists[z], TagOf(z + MIN_SHIFT))
    requires Chain(st2, SlotHead(s - MIN_SHIFT), Dropped(g.lists[s - MIN_SHIFT], x), TagOf(s))
    requires forall j :: 0 <= j < |st.pages| ==> Looks(st1.pages[j], st2.pages[j])
    requires forall j :: 0 <= j < |st.pages| && j !in g.lists[s - MIN_SHIFT] ==> SameLinks(st1.pages[j], st2.pages[j])
    requires forall y :: 0 <= y < SLOTS && y != s - MIN_SHIFT ==> st2.slots[y] == st1.slots[y]
    requires st2.free == st1.free
    requires forall j :: 0 <= j < |st.pages| && j != i ==> Looks(st2.pages[j], st'.pages[j])
    requires forall j :: 0 <= j < |st.pages| && j != i && j !in g.free ==> SameLinks(st2.pages[j], st'.pages[j])
    requires forall y :: 0 <= y < SLOTS ==> st'.slots[y] == st2.slots[y]
    requires st'.pages[i].slab == st2.pages[i].slab && st'.pages[i].tag == SLAB_PAGE
    requires Chain(st', FreeHead, [i] + g.free, SLAB_PAGE)
    ensures Inv(st', maps, Plan(Released(g.kinds, i, 1), [i] + g.free, FilledPlan(g, s, x).lists))
    ensures ReleasedTo(st, st', g, i, 1)
  {
    var w, lists := s - MIN_SHIFT, FilledPlan(g, s, x).lists;
    forall z | 0 <= z < SLOTS ensures Chain(st', SlotHead(z), lists[z], TagOf(z + MIN_SHIFT)) {
      ListsApart(st, maps, g, z);
      ListsDiffer(st, maps, g, i, s, x, z);
      if z != w { OthersKept(st1, st2, SlotHead(w), g.lists[w], SlotHead(z), g.lists[z], TagOf(z + MIN_SHIFT)); }
      OthersKept(st2, st', FreeHead, g.free + [i], SlotHead(z), lists[z], TagOf(z + MIN_SHIFT));
    }
    forall z, j | 0 <= z < SLOTS && 0 <= j < |g.kinds| ensures j in lists[z] <==> j != i && j in g.lists[z] {
      ListsDiffer(st, maps, g, i, s, x, z);
    }
    hide PagesOk, RunsOk, ListOk, Linked, RunOk, PageOk, HasFree, Chain;
    ReleaseKeeps(st, maps, g, st', i, 1, lists);
  }

  /** Page `i` is on the list of its size only, and no two lists share a page. */
  lemma ListsDiffer(st: Store, maps: seq<seq<nat>>, g: Plan, i: nat, s: nat, x: nat, z: nat)
    requires Inv(st, maps, g) && i < |g.kinds| && g.kinds[i] == Chunks(s) && IsShift(s) && z < SLOTS
    requires x < |g.lists[s - MIN_SHIFT]| && g.lists[s - MIN_SHIFT][x] == i
    ensures z != s - MIN_SHIFT ==> i !in g.lists[z] && forall j :: j in g.lists[z] ==> j !in g.lists[s - MIN_SHIFT]
    ensures forall j :: j in FilledPlan(g, s, x).lists[z] <==> j != i && j in g.lists[z]
  {
    assert ListOk(st, maps, g, z) && ListOk(st, maps, g, s - MIN_SHIFT);
    DroppedMembers(g.lists[s - MIN_SHIFT], x);
  }

  // ---------------------------------------------------------------- a free run given back once more

  /** Where a free run stands on the free list. */
  lemma FreeListed(st: Store, maps: seq<seq<nat>>, g: Plan, i: nat, n: nat) returns (x: nat)
    requires Inv(st, maps, g) && i < |g.kinds| && g.kinds[i] == FreeRun(n)
    ensures x < |g.free| && g.free[x] == i && 1 <= n && i + n <= |g.kinds| == |st.pages|
    ensures st.pages[i].slab == n && st.pages[i].tag == SLAB_PAGE && st.pages[i].next != Nil
    ensures st.pages[i].prev == Nth(FreeHead, g.free, x - 1) && st.pages[i].next == Nth(FreeHead, g.free, x + 1)
    ensures Points(st, st.pages[i].prev) && Points(st, st.pages[i].next)
    ensures forall j :: i < j < i + n ==> j !in g.free
  {
    assert RunOk(g.kinds, i) && PageOk(st.pages[i], maps[i], g.kinds[i]);
    assert i in g.free;
    x :| 0 <= x < |g.free| && g.free[x] == i;
    Neighbours(st, FreeHead, g.free, SLAB_PAGE, x);
  }

  /** Off the free list and to the front of it: the invariant stays, with the list in another order. */
  lemma RunAgain(st: Store, maps: seq<seq<nat>>, g: Plan, i: nat, n: nat) returns (x: nat)
    requires Inv(st, maps, g) && i < |g.kinds| && g.kinds[i] == FreeRun(n)
    ensures x < |g.free| && i < |st.pages| && st.pages[i].next != Nil && i + n <= |st.pages| && 1 <= n
    ensures Points(st, st.pages[i].prev) && Points(st, st.pages[i].next) && Points(st, st.free.next)
    ensures var p := st.pages[i]; var st2 := Join(Wiped(st, i, n), p.prev, p.next, p.tag);
      && Points(st2, st2.free.next)
      && var st' := Insert(st2, i, FreeHead, st2.free.next, SLAB_PAGE);
      && Inv(st', maps, Plan(g.kinds, [i] + Dropped(g.free, x), g.lists)) && ReleasedTo(st, st', g, i, n)
  {
    hide PagesOk, RunsOk, ListOk, Linked, RunOk, PageOk, HasFree, Chain, Wiped, Join, Insert;
    x := FreeListed(st, maps, g, i, n);
    WipedChains(st, maps, g, i, n);
    var st1, p, l := Wiped(st, i, n), st.pages[i], Dropped(g.free, x);
    WipedLooks(st, i, n);
    FreeFirst(st, g.free);
    NthPoints(st, FreeHead, g.free, SLAB_PAGE);
    Unlinked(st1, FreeHead, g.free, SLAB_PAGE, x);
    JoinedKeeps(st1, FreeHead, g.free, SLAB_PAGE, x);
    var st2 := Join(st1, p.prev, p.next, SLAB_PAGE);
    assert i !in l by { DroppedOnce(st, g, x); }
    FreeFirst(st2, l);
    Pushed(st2, FreeHead, l, SLAB_PAGE, i);
    PushKeeps(st2, FreeHead, l, SLAB_PAGE, i);
    var st' := Insert(st2, i, FreeHead, st2.free.next, SLAB_PAGE);
    AgainKept(st, maps, g, i, n, x, st1, st2, st');
  }

  lemma NthPoints(st: Store, head: Ref, l: seq<nat>, tag: nat)
    requires Chain(st, head, l, tag)
    ensures Points(st, Nth(head, l, 0)) && Target(st, head).next == Nth(head, l, 0)
  {
  }

  lemma WipedLooks(st: Store, i: nat, n: nat)
    requires i < |st.pages| && 1 <= n
    ensures Wiped(st, i, n).free == st.free && Wiped(st, i, n).slots == st.slots
    ensures |Wiped(st, i, n).pages| == |st.pages| && Wiped(st, i, n).pages[i] == st.pages[i].(slab := n)
    ensures forall j :: 0 <= j < |st.pages| && j != i ==>
      Wiped(st, i, n).pages[j] == if i < j < i + n then FreedRest else st.pages[j]
  {
  }

  lemma DroppedOnce(st: Store, g: Plan, x: nat)
    requires Chain(st, FreeHead, g.free, SLAB_PAGE) && x < |g.free|
    ensures forall j :: j in Dropped(g.free, x) <==> j in g.free && j != g.free[x]
  {
    DroppedMembers(g.free, x);
  }

  lemma AgainKept(st: Store, maps: seq<seq<nat>>, g: Plan, i: nat, n: nat, x: nat, st1: Store, st2: Store, st': Store)
    requires Inv(st, maps, g) && i < |g.kinds| && g.kinds[i] == FreeRun(n) && x < |g.free| && g.free[x] == i
    requires st1 == Wiped(st, i, n) && |st2.pages| == |st.pages| == |st'.pages|
    requires |st2.slots| == |st.slots| == |st'.slots| == SLOTS
    requires forall j :: i < j < i + n ==> j !in g.free
    requires forall z :: 0 <= z < SLOTS ==> Chain(st1, SlotHead(z), g.lists[z], TagOf(z + MIN_SHIFT))
    requires forall j :: 0 <= j < |st.pages| ==> Looks(st1.pages[j], st2.pages[j])
    requires forall j :: 0 <= j < |st.pages| && j !in g.free ==> SameLinks(st1.pages[j], st2.pages[j])
    requires forall y :: 0 <= y < SLOTS ==> st'.slots[y] == st2.slots[y] == st1.slots[y]
    requires forall j :: 0 <= j < |st.pages| && j != i ==> Looks(st2.pages[j], st'.pages[j])
    requires forall j :: 0 <= j < |st.pages| && j != i && j !in Dropped(g.free, x) ==>
      SameLinks(st2.pages[j], st'.pages[j])
    requires st'.pages[i].slab == st2.pages[i].slab && st'.pages[i].tag == SLAB_PAGE
    requires Chain(st', FreeHead, [i] + Dropped(g.free, x), SLAB_PAGE)
    ensures Inv(st', maps, Plan(g.kinds, [i] + Dropped(g.free, x), g.lists)) && ReleasedTo(st, st', g, i, n)
  {
    assert RunOk(g.kinds, i);
    DroppedOnce(st, g, x);
    hide HasFree, Chain, Linked;
    forall j | i < j < i + n ensures st'.pages[j] == FreedRest {
      assert st1.pages[j] == FreedRest;
      assert SameLinks(st1.pages[j], st2.pages[j]) && SameLinks(st2.pages[j], st'.pages[j]);
    }
    assert ReleasedTo(st, st', g, i, n);
    var g' := Plan(g.kinds, [i] + Dropped(g.free, x), g.lists);
    forall j | 0 <= j < |g.kinds| ensures PageOk(st'.pages[j], maps[j], g.kinds[j]) {
      assert PageOk(st.pages[j], maps[j], g.kinds[j]);
    }
    forall z | 0 <= z < SLOTS ensures ListOk(st', maps, g', z) {
      assert ListOk(st, maps, g, z);
      ListsApart(st, maps, g, z);
      OthersKept(st1, st', FreeHead, g.free, SlotHead(z), g.lists[z], TagOf(z + MIN_SHIFT));
    }
  }
}
