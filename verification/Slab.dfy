/** The slab allocator of `slab.c`: one array of page descriptors, nine lists of partly used pages and one
    of free runs, all changed in place. */
module Slab {
  import opened Arith
  import opened Bits
  import opened SlabLinks
  import opened SlabShape
  import opened SlabPlan
  import opened SlabLive

  const SLAB_MAX_SIZE := 2048
  const MIN_SIZE := 8

  /** The smallest chunk size that holds `size` bytes. */
  function ShiftFor(size: nat): (s: nat)
    requires size < SLAB_MAX_SIZE
    ensures IsShift(s) && size <= Size(s) && (s > MIN_SHIFT ==> Size(s - 1) < size)
  {
    if size <= 8 then 3 else if size <= 16 then 4 else if size <= 32 then 5 else if size <= 64 then 6
    else if size <= 128 then 7 else if size <= 256 then 8 else if size <= 512 then 9 else if size <= 1024 then 10
      else 11
  }

  function PagesFor(size: nat): nat { size / PAGE_SIZE + if size % PAGE_SIZE != 0 then 1 else 0 }

  /** The count `slab_alloc_pages` is called with: its parameter is 32 bits wide. */
  function PageCount(size: nat): nat { PagesFor(size) % 0x1_0000_0000 }

  /** The length of the block a request of `size` bytes gets. */
  function BlockLength(size: nat): nat {
    if size >= SLAB_MAX_SIZE then PAGE_SIZE * PageCount(size) else Size(ShiftFor(size))
  }

  /** The block holds what was asked for, and with it the bytes the allocator clears, exactly when the count of
      pages is not cut. */
  lemma BlockSuffices(size: nat)
    ensures size <= BlockLength(size) <==> size < SLAB_MAX_SIZE || PagesFor(size) < 0x1_0000_0000
    ensures PageCount(size) == PagesFor(size) <==> PagesFor(size) < 0x1_0000_0000
  {
    if size >= SLAB_MAX_SIZE && PagesFor(size) >= 0x1_0000_0000 {
      assert size > PAGE_SIZE * (PagesFor(size) - 1);
    }
  }

  /** Two sizes that are cut: to one page, and to none. */
  lemma CountIsCut()
    ensures var size := 0x1000_0000_1000; PageCount(size) == 1 && BlockLength(size) == PAGE_SIZE < size
    ensures PageCount(0x1000_0000_0000) == 0
  {
  }

  lemma {:induction false} ShrStep(v: nat, k: nat)
    ensures Shr(v, k) / 2 == Shr(v, k + 1)
    decreases k
  {
    if k > 0 { ShrStep(v / 2, k - 1); }
  }

  /** The loop of `slab_alloc` that finds the shift of a size. */
  method ShiftOf(size: nat) returns (shift: nat)
    requires size < SLAB_MAX_SIZE
    ensures shift == ShiftFor(size)
  {
    if size > MIN_SIZE {
      shift := 1;
      var s := (size - 1) / 2;
      while s != 0
        invariant 1 <= shift && s == Shr(size - 1, shift) && Shr(size - 1, shift - 1) > 0
        decreases s
      {
        ShrStep(size - 1, shift);
        s := s / 2;
        shift := shift + 1;
      }
      BetweenPowers(size - 1, shift);
      PowersOrdered(size, shift);
    } else {
      shift := MIN_SHIFT;
    }
  }

  lemma BetweenPowers(v: nat, k: nat)
    requires k >= 1 && Shr(v, k) == 0 && Shr(v, k - 1) > 0
    ensures Pow2(k - 1) <= v < Pow2(k)
  {
    ShrSmall(v, k, k);
    ShrSmall(v, k - 1, k - 1);
  }

  lemma PowersOrdered(size: nat, k: nat)
    requires 8 < size < SLAB_MAX_SIZE && k >= 1 && Pow2(k - 1) <= size - 1 < Pow2(k)
    ensures k == ShiftFor(size)
  {
    var s := ShiftFor(size);
    Table(s);
    Table(s - 1);
    if k < s { PowerGrows(k, s - 1); }
    if k > s { PowerGrows(s, k - 1); }
  }

  lemma {:induction false} PowerGrows(a: nat, b: nat)
    requires a <= b
    ensures Pow2(a) <= Pow2(b)
    decreases b - a
  {
    if a < b { PowerGrows(a, b - 1); }
  }

  class SlabPool {
    /** Where the page area begins. */
    const start: nat
    const pages: array<Page>
    const slots: array<Page>
    /** The first 64 bytes of every page, as 8 words: where the bitmap of a page of small chunks is. */
    const maps: array<seq<nat>>
    var free: Page

    ghost var plan: Plan
    /** The blocks handed out and not given back: address to length. */
    ghost var live: map<nat, nat>

    ghost function Now(): (st: Store)
      reads this`free, pages, slots
      ensures st.pages == pages[..] && st.slots == slots[..] && st.free == free
    {
      Store(pages[..], slots[..], free)
    }

    ghost predicate Arrays() {
      && pages != slots && maps.Length == pages.Length < 0x1_0000_0000 && slots.Length == SLOTS
      && start % PAGE_SIZE == 0 && start > 0
    }

    ghost predicate Valid()
      reads this, pages, slots, maps
    {
      && Arrays() && Inv(Now(), maps[..], plan)
      && LiveOk(Now(), maps[..], plan.kinds, start, live) && NoneEmpty(Now(), maps[..], plan.kinds)
    }

    /** The blocks out are apart from each other, inside the page area, aligned, and clear of the bitmaps. */
    lemma BlocksSound()
      requires Valid()
      ensures Sound(plan.kinds, start, live) && |plan.kinds| == pages.Length
    {
      LiveIsSound(Now(), maps[..], plan, start, live);
    }

    // -------------------------------------------------------------- the primitive writes

    method WritePage(i: nat, p: Page)
      requires i < pages.Length && pages != slots
      modifies pages
      ensures Now() == With(old(Now()), At(i), p)
    {
      pages[i] := p;
    }

    method WriteNext(r: Ref, next: Ref)
      requires pages != slots && Points(Now(), r)
      modifies pages, slots, this`free
      ensures Now() == SlabLinks.SetNext(old(Now()), r, next)
    {
      match r
      case FreeHead => free := free.(next := next);
      case SlotHead(s) => slots[s] := slots[s].(next := next);
      case At(i) => pages[i] := pages[i].(next := next);
      case Nil =>
    }

    method WritePrev(r: Ref, prev: Ref, tag: nat)
      requires pages != slots && Points(Now(), r)
      modifies pages, slots, this`free
      ensures Now() == SlabLinks.SetPrev(old(Now()), r, prev, tag)
    {
      match r
      case FreeHead => free := free.(prev := prev, tag := tag);
      case SlotHead(s) => slots[s] := slots[s].(prev := prev, tag := tag);
      case At(i) => pages[i] := pages[i].(prev := prev, tag := tag);
      case Nil =>
    }

    /** `prev->next = page->next; page->next->prev = page->prev`. */
    method Bypass(i: nat)
      requires pages != slots && i < pages.Length && Points(Now(), pages[i].prev) && Points(Now(), pages[i].next)
      modifies pages, slots, this`free
      ensures Now() == Join(old(Now()), old(pages[i].prev), old(pages[i].next), old(pages[i].tag))
    {
      var p := pages[i];
      WriteNext(p.prev, p.next);
      WritePrev(p.next, p.prev, p.tag);
    }

    /** Page `i` becomes the first of the list of `head`. */
    method Prepend(i: nat, head: Ref, tag: nat)
      requires pages != slots && i < pages.Length && Points(Now(), head) && Points(Now(), Target(Now(), head).next)
        && !head.At?
      modifies pages, slots, this`free
      ensures Now() == Insert(old(Now()), i, head, old(Target(Now(), head).next), tag)
    {
      var first := if head == FreeHead then free.next else slots[head.s].next;
      pages[i] := pages[i].(next := first, prev := head, tag := tag);
      WriteNext(head, At(i));
      WritePrev(first, At(i), tag);
    }

    // -------------------------------------------------------------- whole pages

    /** No free run is that long. */
    ghost predicate NoRun(n: nat)
      reads this`plan
    {
      forall i :: 0 <= i < |plan.kinds| && plan.kinds[i].FreeRun? ==> plan.kinds[i].n < n
    }

    /** The pages of a run marked as taken: the first with the length of the run, the rest as busy. */
    method MarkRun(i: nat, n: nat)
      requires 1 <= n && i + n <= pages.Length && pages != slots
      modifies pages
      ensures Now() == RunTaken(old(Now()), i, n)
    {
      ghost var was := pages[..];
      pages[i] := Page(n + SLAB_PAGE_START, Nil, Nil, SLAB_PAGE);
      for j := i + 1 to i + n
        invariant forall k :: 0 <= k < pages.Length ==>
          pages[k] == if k == i then UsedHead(n) else if i < k < j then UsedRest_ else was[k]
      {
        pages[j] := Page(SLAB_PAGE_BUSY, Nil, Nil, SLAB_PAGE);
      }
      assert pages[..] == RunWritten(was, i, n, UsedHead(n), UsedRest_);
    }

    /** The parts of `Valid`, taken apart and put together. */
    lemma Parts()
      requires Valid()
      ensures Arrays() && pages != slots && maps.Length == pages.Length < 0x1_0000_0000 && slots.Length == SLOTS
      ensures |plan.kinds| == pages.Length && |plan.lists| == SLOTS
      ensures Inv(Now(), maps[..], plan) && LiveOk(Now(), maps[..], plan.kinds, start, live)
        && NoneEmpty(Now(), maps[..], plan.kinds)
    {
    }

    lemma Whole()
      requires Arrays() && Inv(Now(), maps[..], plan)
      requires LiveOk(Now(), maps[..], plan.kinds, start, live) && NoneEmpty(Now(), maps[..], plan.kinds)
      ensures Valid()
    {
    }

    lemma Carvable(i: nat, n: nat, x: nat)
      requires Valid() && 1 <= n && x < |plan.free| && i == plan.free[x] && i < |plan.kinds| && plan.kinds[i].FreeRun?
        && n <= plan.kinds[i].n
      ensures CanCarve(Now(), maps[..], plan, x, n)
    {
      hide Inv, RunsOk, PagesOk, ListOk, LiveOk;
    }

    /** The first `n` pages of the free run at `i`, the `x`th of the free list, taken off it. */
    method TakeRun(i: nat, n: nat, ghost x: nat)
      requires Valid() && 1 <= n && x < |plan.free| && i == plan.free[x] && i < |plan.kinds| && plan.kinds[i].FreeRun?
        && n <= plan.kinds[i].n
      modifies this`free, this`plan, this`live, pages, slots
      ensures Valid() && plan.kinds == Carved(old(plan.kinds), i, n) && plan.lists == old(plan.lists)
      ensures PageAddr(start, i) !in old(live) && live == WithRun(old(live), start, i, n)
    {
      hide *;
      ghost var st, m, g := Now(), maps[..], plan;
      Parts();
      Carvable(i, n, x);
      CarveReady(st, m, g, x, n);
      var p := pages[i];
      if p.slab > n {
        SplitCarves(st, m, g, x, n);
        SplitOff(i, n);
        plan := Plan(Carved(g.kinds, i, n), g.free[x := i + n], g.lists);
      } else {
        WholeCarves(st, m, g, x, n);
        Bypass(i);
        plan := Plan(Carved(g.kinds, i, n), Dropped(g.free, x), g.lists);
      }
      MarkRun(i, n);
      live := WithRun(live, start, i, n);
      CarveLive(st, m, g, Now(), plan, i, n, start, old(live), live);
      Whole();
    }

    method SplitOff(i: nat, n: nat)
      requires pages != slots && i + n < pages.Length && n <= pages[i].slab && n >= 1
      requires Points(Now(), pages[i].prev) && Points(Now(), pages[i].next)
      requires pages[i].tag == SLAB_PAGE && pages[i].prev != At(i + n) && pages[i].next != At(i + n)
      modifies this`free, pages, slots
      ensures Now() == SplitLinks(old(Now()), i, n)
    {
      var p := pages[i];
      pages[i + n] := Page(p.slab - n, p.next, p.prev, p.tag);
      WriteNext(p.prev, At(i + n));
      WritePrev(p.next, At(i + n), SLAB_PAGE);
    }

    /** `slab_alloc_pages`: the first free run of at least `n` pages, or -1 when there is none. */
    method AllocPages(n: nat) returns (i: int)
      requires Valid() && 1 <= n
      modifies this`free, this`plan, this`live, pages, slots
      ensures Valid()
      ensures i == -1 ==> old(NoRun(n)) && plan == old(plan) && live == old(live)
      ensures i != -1 ==> 0 <= i < |old(plan).kinds| && old(plan).kinds[i].FreeRun? && n <= old(plan).kinds[i].n
      ensures i != -1 ==> plan.kinds == Carved(old(plan).kinds, i, n) && plan.lists == old(plan).lists
      ensures i != -1 ==> PageAddr(start, i) !in old(live) && live == WithRun(old(live), start, i, n)
    {
      hide Valid, Carved;
      ghost var x := 0;
      FreeList(0);
      i := -1;
      var page := free.next;
      while page != FreeHead
        modifies {}
        invariant x <= |plan.free| && page == Nth(FreeHead, plan.free, x)
        invariant forall y :: 0 <= y < x ==> Short(plan.kinds, plan.free[y], n)
        decreases |plan.free| - x
      {
        FreeList(x);
        if pages[page.i].slab >= n {
          i := page.i;
          break;
        }
        page := pages[page.i].next;
        x := x + 1;
      }
      if i != -1 {
        FreeList(x);
        TakeRun(i, n, x);
      } else {
        FreeRunsListed();
      }
    }

    ghost predicate Short(kinds: seq<Kind>, i: nat, n: nat) { i < |kinds| && kinds[i].FreeRun? && kinds[i].n < n }

    lemma FreeList(x: nat)
      requires Valid()
      ensures free.next == Nth(FreeHead, plan.free, 0)
      ensures x < |plan.free| ==> var i := plan.free[x];
        i < |plan.kinds| == pages.Length && plan.kinds[i].FreeRun? && pages[i].slab == plan.kinds[i].n
          && pages[i].next == Nth(FreeHead, plan.free, x + 1)
    {
      if x < |plan.free| { RunHere(Now(), maps[..], plan, x); }
    }

    lemma FreeRunsListed()
      requires Valid()
      ensures forall i :: 0 <= i < |plan.kinds| && plan.kinds[i].FreeRun? ==> i in plan.free
    {
    }

    // -------------------------------------------------------------- chunks

    /** The lowest clear bit of `w` from `from` on. */
    static method FirstClear(w: nat, from: nat, end: nat) returns (b: nat)
      requires exists k :: from <= k < end && !Bit(w, k)
      ensures from <= b < end && !Bit(w, b)
    {
      b := from;
      while Bit(w, b)
        invariant from <= b < end
        invariant exists k :: b <= k < end && !Bit(w, k)
        decreases end - b
      {
        b := b + 1;
      }
    }

    /** The first word that is not all ones. */
    static method FreeWord(w: seq<nat>, count: nat) returns (n: nat)
      requires count <= |w| && !WordsFull(w, count)
      ensures n < count && w[n] != Ones(64) && forall j :: 0 <= j < n ==> w[j] == Ones(64)
    {
      BusyIsOnes();
      n := 0;
      while w[n] == SLAB_PAGE_BUSY
        invariant n < count && forall j :: 0 <= j < n ==> w[j] == Ones(64)
        decreases count - n
      {
        n := n + 1;
      }
    }

    /** Whether the words after the `n`th are all ones. */
    static method RestFull(w: seq<nat>, n: nat, count: nat) returns (full: bool)
      requires n < count <= |w|
      ensures full <==> forall j :: n < j < count ==> w[j] == Ones(64)
    {
      BusyIsOnes();
      for j := n + 1 to count
        invariant forall y :: n < y < j ==> w[y] == Ones(64)
      {
        if w[j] != SLAB_PAGE_BUSY {
          return false;
        }
      }
      full := true;
    }

    /** What marking does: chunk `k`, which was free, is taken; `full` says whether it was the last. */
    ghost predicate DidMark(p: Page, w: seq<nat>, p': Page, w': seq<nat>, s: nat, k: nat, full: bool) {
      && k < Count(s) && !Taken(p.slab, w, s, k) && p' == Repainted(p, s, k, true) && w' == MarkWords(w, s, k, true)
      && (full <==> !HasFree(p'.slab, w', s))
    }

    /** A page of small chunks: the bitmap is in the page. */
    method MarkSmall(i: nat, s: nat) returns (k: nat, full: bool)
      requires pages != slots && i < pages.Length == maps.Length && s < EXACT_SHIFT
      requires ChunkOk(pages[i].slab, maps[i], s) && HasFree(pages[i].slab, maps[i], s)
      modifies maps
      ensures maps[..] == old(maps[..])[i := maps[i]]
      ensures DidMark(pages[i], old(maps[i]), pages[i], maps[i], s, k, full)
    {
      Table(s);
      ghost var slab, w := pages[i].slab, maps[i];
      FullSmall(slab, w, s);
      var count := Pow2(PAGE_SHIFT - s) / 64;
      var n := FreeWord(maps[i], count);
      WordHasClear(w[n]);
      var m := FirstClear(maps[i][n], 0, 64);
      k := 64 * n + m;
      maps[i] := maps[i][n := SetBit(maps[i][n], m)];
      MarkedWord(slab, w, s, n, m, k);
      BusyIsOnes();
      full := false;
      if maps[i][n] == SLAB_PAGE_BUSY {
        full := RestFull(maps[i], n, count);
      }
    }

    /** The bit set is that of chunk `64 * n + m`; the page is full if that word and those after it are. */
    static lemma MarkedWord(slab: nat, w: seq<nat>, s: nat, n: nat, m: nat, k: nat)
      requires ChunkOk(slab, w, s) && s < EXACT_SHIFT && n < Words(s) && m < 64 && !Bit(w[n], m) && k == 64 * n + m
      requires forall j :: 0 <= j < n ==> w[j] == Ones(64)
      ensures k < Count(s) && !Taken(slab, w, s, k) && MarkWords(w, s, k, true) == w[n := SetBit(w[n], m)]
      ensures var w' := w[n := SetBit(w[n], m)];
        !HasFree(slab, w', s) <==> w'[n] == Ones(64) && forall j :: n < j < Words(s) ==> w'[j] == Ones(64)
    {
      Measures(s);
      assert k / 64 == n && k % 64 == m;
      Marked(slab, w, s, k, true);
      FullSmall(slab, w[n := SetBit(w[n], m)], s);
    }

    static lemma BusyIsOnes()
      ensures SLAB_PAGE_BUSY == Ones(64)
    {
      assert Pow2(8) == 256;
      assert Pow2(16) == 0x1_0000;
      assert Pow2(24) == 0x100_0000;
      assert Pow2(32) == 0x1_0000_0000;
      assert Pow2(40) == 0x100_0000_0000;
      assert Pow2(48) == 0x1_0000_0000_0000;
      assert Pow2(56) == 0x100_0000_0000_0000;
    }

    static lemma WordHasClear(w: nat)
      requires w < Pow2(64) && w != Ones(64)
      ensures exists k :: 0 <= k < 64 && !Bit(w, k)
    {
      AllOrNone(w, 64);
    }

    /** A page of chunks of the exact size: the descriptor is the bitmap. */
    method MarkExact(i: nat) returns (k: nat, full: bool)
      requires pages != slots && i < pages.Length == maps.Length
      requires ChunkOk(pages[i].slab, maps[i], EXACT_SHIFT) && HasFree(pages[i].slab, maps[i], EXACT_SHIFT)
      modifies pages
      ensures Now() == With(old(Now()), At(i), pages[i])
      ensures DidMark(old(pages[i]), maps[i], pages[i], maps[i], EXACT_SHIFT, k, full)
    {
      ghost var slab, w := pages[i].slab, maps[i];
      FullExact(slab, w);
      WordHasClear(slab);
      k := FirstClear(pages[i].slab, 0, 64);
      pages[i] := pages[i].(slab := SetBit(pages[i].slab, k));
      Marked(slab, w, EXACT_SHIFT, k, true);
      FullExact(pages[i].slab, w);
      BusyIsOnes();
      full := pages[i].slab == SLAB_PAGE_BUSY;
    }

    /** A page of big chunks: the bitmap is in the upper half of the descriptor. */
    method MarkBig(i: nat, s: nat) returns (k: nat, full: bool)
      requires pages != slots && i < pages.Length == maps.Length && s > EXACT_SHIFT
      requires ChunkOk(pages[i].slab, maps[i], s) && HasFree(pages[i].slab, maps[i], s)
      modifies pages
      ensures Now() == With(old(Now()), At(i), pages[i])
      ensures DidMark(old(pages[i]), maps[i], pages[i], maps[i], s, k, full)
    {
      hide SetBit, ClearBit, Bit, Shr, Ones, HasFree, Pow2, Count;
      ghost var slab, w := pages[i].slab, maps[i];
      Table(s);
      var n := Pow2(PAGE_SHIFT - pages[i].slab % 16);
      var mask := Ones(n);
      BigHasClear(slab, w, s);
      var b := FirstClear(pages[i].slab, MAP_SHIFT, MAP_SHIFT + n);
      k := b - MAP_SHIFT;
      pages[i] := pages[i].(slab := SetBit(pages[i].slab, b));
      Marked(slab, w, s, k, true);
      FullBig(pages[i].slab, w, s);
      full := Shr(pages[i].slab, MAP_SHIFT) == mask;
    }

    static lemma BigHasClear(slab: nat, w: seq<nat>, s: nat)
      requires ChunkOk(slab, w, s) && s > EXACT_SHIFT && HasFree(slab, w, s)
      ensures exists b :: MAP_SHIFT <= b < MAP_SHIFT + Count(s) && !Bit(slab, b)
    {
      var k :| 0 <= k < Count(s) && !Taken(slab, w, s, k);
      assert !Bit(slab, MAP_SHIFT + k);
    }

    /** The bit of a free chunk of page `i` set; `full` says whether it was the last. */
    method MarkChunk(i: nat, s: nat) returns (k: nat, full: bool)
      requires pages != slots && i < pages.Length == maps.Length && IsShift(s)
      requires ChunkOk(pages[i].slab, maps[i], s) && HasFree(pages[i].slab, maps[i], s)
      modifies pages, maps
      ensures k < Count(s) && !Taken(old(pages[i]).slab, old(maps[i]), s, k)
      ensures Now() == With(old(Now()), At(i), Repainted(old(pages[i]), s, k, true))
      ensures maps[..] == old(maps[..])[i := MarkWords(old(maps[i]), s, k, true)]
      ensures full <==> !HasFree(Repainted(old(pages[i]), s, k, true).slab, MarkWords(old(maps[i]), s, k, true), s)
    {
      hide HasFree, ChunkOk, Taken, Count, Words;
      if s < EXACT_SHIFT {
        k, full := MarkSmall(i, s);
      } else if s == EXACT_SHIFT {
        k, full := MarkExact(i);
        assert maps[..] == old(maps[..])[i := maps[i]];
      } else {
        k, full := MarkBig(i, s);
        assert maps[..] == old(maps[..])[i := maps[i]];
      }
    }

    /** One chunk of page `i`, which has a free one, taken; a page with none left leaves its list. */
    method TakeChunk(i: nat, s: nat) returns (k: nat)
      requires Valid() && i < |plan.kinds| && plan.kinds[i] == Chunks(s) && i < pages.Length == maps.Length
      requires HasFree(pages[i].slab, maps[i], s)
      modifies this`free, this`plan, this`live, pages, slots, maps
      ensures Valid() && plan.kinds == old(plan.kinds)
      ensures ChunkAddr(start, i, s, k) !in old(live) && live == WithChunk(old(live), start, i, s, k)
    {
      hide *;
      ghost var st, m, g := Now(), maps[..], plan;
      Parts();
      ChunkPage(st, m, g, i, s);
      var full;
      k, full := MarkChunk(i, s);
      MarkBits(st, m, g, i, s, k, true);
      if full {
        ghost var x := MarkedFills(st, m, g, i, s, k);
        OffListBits(st, m, Now(), maps[..], i);
        Bypass(i);
        WritePage(i, pages[i].(next := Nil, prev := Nil));
        plan := FilledPlan(g, s, x);
      } else {
        MarkedKeeps(st, m, g, i, s, k, true);
      }
      live := WithChunk(live, start, i, s, k);
      ChunkLive(st, m, g, Now(), maps[..], plan, i, s, k, start, old(live));
      Whole();
    }

    /** The bitmap of a page of small chunks, with the chunks it takes up and one more taken. */
    method WriteBitmap(i: nat, s: nat)
      requires pages != slots && i < maps.Length && |maps[i]| == 8 && IsShift(s) && s < EXACT_SHIFT
      modifies maps
      ensures maps[..] == old(maps[..])[i := maps[i]] && JustCut(s, maps[i], s)
    {
      Table(s);
      var n := Pow2(PAGE_SHIFT - s) / 8 / Pow2(s);
      if n == 0 {
        n := 1;
      }
      var count := Pow2(PAGE_SHIFT - s) / 64;
      ghost var was := maps[..];
      maps[i] := maps[i][0 := Pow2(n + 1) - 1];
      for j := 1 to count
        invariant |maps[i]| == 8 && maps[..] == was[i := maps[i]]
        invariant maps[i][0] == Ones(n + 1) && forall y :: 1 <= y < j ==> maps[i][y] == 0
      {
        maps[i] := maps[i][j := 0];
      }
    }

    /** The used page `i` cut into chunks, the first of them handed out. */
    method CutPage(i: nat, s: nat, ghost before: map<nat, nat>)
      requires Valid() && i < |plan.kinds| && plan.kinds[i] == UsedRun(1) && IsShift(s) && ListEmpty(s)
      requires PageAddr(start, i) !in before && live == WithRun(before, start, i, 1)
      modifies this`free, this`plan, this`live, pages, slots, maps
      ensures Valid() && live == WithChunk(before, start, i, s, Reserved(s))
        && ChunkAddr(start, i, s, Reserved(s)) !in before
    {
      hide *;
      ghost var st, m, g := Now(), maps[..], plan;
      Parts();
      EightWords(st, m, g, i);
      EmptyList(s);
      var slab := CutWord(i, s);
      CutLive(st, m, g, i, s, slab, maps[i], start, before);
      LinkAlone(i, s, slab);
      plan := CutPlan(g, i, s);
      live := WithChunk(before, start, i, s, Reserved(s));
      Whole();
    }

    /** The list of chunk size `s` has no page. */
    ghost predicate ListEmpty(s: nat)
      requires IsShift(s)
      reads this`plan
    {
      |plan.lists| == SLOTS && plan.lists[s - MIN_SHIFT] == []
    }

    lemma EmptyList(s: nat)
      requires Valid() && IsShift(s) && ListEmpty(s)
      ensures s - MIN_SHIFT < |plan.lists| && plan.lists[s - MIN_SHIFT] == []
    {
    }

    static lemma EightWords(st: Store, m: seq<seq<nat>>, g: Plan, i: nat)
      requires Inv(st, m, g) && i < |g.kinds|
      ensures i < |m| && |m[i]| == 8
    {
      assert PageOk(st.pages[i], m[i], g.kinds[i]);
    }

    /** The word a page is cut with, its bitmap written first where there is one. */
    method CutWord(i: nat, s: nat) returns (slab: nat)
      requires pages != slots && i < maps.Length && |maps[i]| == 8 && IsShift(s)
      modifies maps
      ensures maps[..] == old(maps[..])[i := maps[i]] && JustCut(slab, maps[i], s)
    {
      if s < EXACT_SHIFT {
        WriteBitmap(i, s);
        slab := s;
      } else if s == EXACT_SHIFT {
        slab := 1;
      } else {
        slab := Pow2(MAP_SHIFT) + s;
      }
    }

    method LinkAlone(i: nat, s: nat, slab: nat)
      requires pages != slots && i < pages.Length && slots.Length == SLOTS && IsShift(s)
      modifies this`free, pages, slots
      ensures Now() == CutStore(old(Now()), i, s, slab)
    {
      var head := SlotHead(s - MIN_SHIFT);
      WritePage(i, Page(slab, head, head, TagOf(s)));
      WriteNext(head, At(i));
    }

    // -------------------------------------------------------------- allocation

    /** No page of chunks of that size has a free chunk. */
    ghost predicate NoChunk(s: nat)
      reads this, pages, slots, maps
      requires Valid()
    {
      forall i :: 0 <= i < |plan.kinds| && plan.kinds[i] == Chunks(s) ==> !HasFree(Now().pages[i].slab, maps[..][i], s)
    }

    /** `slab_alloc`: a block of the length the request comes to, apart from every live one; or 0, and then no free
        run is long enough and no page of that chunk size has a free chunk. A request cut to no pages at all stops at
        the first free run and goes on to mark 2^32 - 1 descriptors after it, which is past the last: `overrun`. */
    method Alloc(size: nat) returns (p: nat, overrun: bool)
      requires Valid()
      modifies this`free, this`plan, this`live, pages, slots, maps
      ensures overrun <==> size >= SLAB_MAX_SIZE && PageCount(size) == 0 && !old(NoRun(0))
      ensures overrun ==> free.next.At? && free.next.i < pages.Length <= free.next.i + 0xFFFF_FFFF
      ensures overrun ==> p == 0 && forall j :: free.next.i < j < pages.Length ==> pages[j].slab == SLAB_PAGE_BUSY
      ensures !overrun ==> Valid()
      ensures p != 0 ==> p !in old(live) && live == old(live)[p := BlockLength(size)]
      ensures p == 0 ==> live == old(live)
      ensures p == 0 && !overrun && size >= SLAB_MAX_SIZE ==> old(NoRun(PageCount(size)))
      ensures p == 0 && size < SLAB_MAX_SIZE ==> old(NoRun(1)) && old(NoChunk(ShiftFor(size)))
    {
      hide Inv, LiveOk, NoneEmpty, Valid, NoRun, Carved, PagesFor;
      overrun := false;
      if size >= SLAB_MAX_SIZE {
        var n := (size / PAGE_SIZE + if size % PAGE_SIZE != 0 then 1 else 0) % 0x1_0000_0000;
        CountIs(size);
        Parts();
        if n == 0 {
          AnyRun();
          if free.next == FreeHead {
            return 0, false;
          }
          MarkAll(free.next.i);
          return 0, true;
        }
        var i := AllocPages(n);
        Parts();
        p := if i == -1 then 0 else start + i * PAGE_SIZE;
      } else {
        p := AllocChunk(size);
      }
    }

    static lemma CountIs(size: nat)
      ensures PagesFor(size) == size / PAGE_SIZE + if size % PAGE_SIZE != 0 then 1 else 0
    {
    }

    /** A run of no pages at `i`, and the descriptors after it marked as busy, as far as there are any. */
    method MarkAll(i: nat)
      requires i < pages.Length && pages != slots
      modifies pages
      ensures forall j :: i < j < pages.Length ==> pages[j].slab == SLAB_PAGE_BUSY
    {
      pages[i] := Page(SLAB_PAGE_START, Nil, Nil, SLAB_PAGE);
      for j := i + 1 to pages.Length
        invariant forall k :: i < k < j ==> pages[k].slab == SLAB_PAGE_BUSY
      {
        pages[j] := Page(SLAB_PAGE_BUSY, Nil, Nil, SLAB_PAGE);
      }
    }

    /** The free list is empty exactly when there is no free run at all. */
    lemma AnyRun()
      requires Valid()
      ensures free.next == FreeHead <==> NoRun(0)
      ensures free.next != FreeHead ==> free.next.At? && free.next.i < pages.Length
    {
      FreeList(0);
      FreeRunsListed();
    }

    method AllocChunk(size: nat) returns (p: nat)
      requires Valid() && size < SLAB_MAX_SIZE
      modifies this`free, this`plan, this`live, pages, slots, maps
      ensures Valid()
      ensures p != 0 ==> p !in old(live) && live == old(live)[p := Size(ShiftFor(size))]
      ensures p == 0 ==> live == old(live) && old(NoRun(1)) && old(NoChunk(ShiftFor(size)))
    {
      hide Inv, LiveOk, NoneEmpty, Valid, NoRun, NoChunk, Carved, Reserved, Count, Size, ChunkAddr;
      var s := ShiftOf(size);
      FirstOfList(s);
      var page := slots[s - MIN_SHIFT].next;
      if page.At? {
        var k := TakeChunk(page.i, s);
        AddrIs(start, page.i, s, k);
        p := start + page.i * PAGE_SIZE + k * Size(s);
      } else {
        p := AllocFromPage(s);
      }
    }

    static lemma AddrIs(start: nat, i: nat, s: nat, k: nat)
      ensures ChunkAddr(start, i, s, k) == start + i * PAGE_SIZE + k * Size(s)
      ensures ChunkAddr(start, i, s, k) >= start
    {
    }

    /** A chunk of a page taken for the purpose. */
    method AllocFromPage(s: nat) returns (p: nat)
      requires Valid() && IsShift(s) && ListEmpty(s)
      modifies this`free, this`plan, this`live, pages, slots, maps
      ensures Valid()
      ensures p != 0 ==> p !in old(live) && live == old(live)[p := Size(s)]
      ensures p == 0 ==> live == old(live) && old(NoRun(1))
    {
      hide Inv, LiveOk, NoneEmpty, Valid, NoRun, Carved, Reserved, Count, Size, ChunkAddr;
      ghost var kinds := plan.kinds;
      Parts();
      var i := AllocPages(1);
      if i == -1 {
        return 0;
      }
      OneTaken(kinds, i);
      CutPage(i, s, old(live));
      Table(s);
      AddrIs(start, i, s, Reserved(s));
      p := start + i * PAGE_SIZE + Reserved(s) * Pow2(s);
    }

    static lemma OneTaken(kinds: seq<Kind>, i: nat)
      requires i < |kinds| && kinds[i].FreeRun? && 1 <= kinds[i].n
      ensures i < |Carved(kinds, i, 1)| && Carved(kinds, i, 1)[i] == UsedRun(1)
    {
    }

    /** The first page of the list of size `s` has a free chunk; with no page there, none has. */
    lemma FirstOfList(s: nat)
      requires Valid() && IsShift(s)
      ensures slots.Length == SLOTS && pages.Length == maps.Length && start > 0
      ensures var page := slots[s - MIN_SHIFT].next;
        if page.At? then page.i < |plan.kinds| == pages.Length && plan.kinds[page.i] == Chunks(s)
          && HasFree(pages[page.i].slab, maps[page.i], s)
        else ListEmpty(s) && NoChunk(s)
    {
      assert ListOk(Now(), maps[..], plan, s - MIN_SHIFT);
      var l := plan.lists[s - MIN_SHIFT];
      if l != [] { assert l[0] in l; }
    }

    // -------------------------------------------------------------- giving pages back

    /** Sound, but for page `i`, which may be a chunk page with nothing in it. */
    ghost predicate Near(i: nat)
      reads this, pages, slots, maps
    {
      && Arrays() && Inv(Now(), maps[..], plan)
      && LiveOk(Now(), maps[..], plan.kinds, start, live) && NoneEmptyBut(Now(), maps[..], plan.kinds, i)
    }

    lemma NearParts(i: nat)
      requires Near(i)
      ensures Arrays() && pages != slots && maps.Length == pages.Length && slots.Length == SLOTS
      ensures |plan.kinds| == pages.Length && |plan.lists| == SLOTS
      ensures Inv(Now(), maps[..], plan) && LiveOk(Now(), maps[..], plan.kinds, start, live)
        && NoneEmptyBut(Now(), maps[..], plan.kinds, i)
    {
    }

    /** The descriptors of a run given back. */
    method WipeRun(i: nat, n: nat)
      requires 1 <= n && i + n <= pages.Length && pages != slots
      modifies pages
      ensures Now() == Wiped(old(Now()), i, n)
    {
      ghost var was := pages[..];
      pages[i] := pages[i].(slab := n);
      for j := i + 1 to i + n
        invariant forall k :: 0 <= k < pages.Length ==>
          pages[k] == if k == i then was[i].(slab := n) else if i < k < j then FreedRest else was[k]
      {
        pages[j] := Page(0, Nil, Nil, SLAB_PAGE);
      }
      assert pages[..] == RunWritten(was, i, n, was[i].(slab := n), FreedRest);
    }

    /** The run at `i` goes to the front of the free list, whether it is in use or on that list already. */
    method DeallocRun(i: nat, n: nat)
      requires Valid() && i < |plan.kinds| && (plan.kinds[i] == UsedRun(n) || plan.kinds[i] == FreeRun(n))
      modifies this`free, this`plan, this`live, pages, slots
      ensures Valid() && live == if old(plan).kinds[i].UsedRun? then WithoutRun(old(live), start, i) else old(live)
    {
      hide *;
      ghost var st, m, g := Now(), maps[..], plan;
      Parts();
      ghost var x := 0;
      if g.kinds[i].FreeRun? {
        x := RunAgain(st, m, g, i, n);
        WipedLinks(st, i, n);
      } else {
        RunHead(st, m, g, i, n);
        RunReleases(st, m, g, i, n);
      }
      DeallocPages(i, n);
      if g.kinds[i].FreeRun? {
        plan := Plan(g.kinds, [i] + Dropped(g.free, x), g.lists);
        StillFree(st, m, g, Now(), plan, i, n, start, live);
      } else {
        plan := Plan(Released(g.kinds, i, n), [i] + g.free, g.lists);
        live := WithoutRun(live, start, i);
        RunDead(st, m, g, Now(), plan, i, n, start, old(live));
      }
      Whole();
    }

    /** `slab_dealloc_pages` for a chunk page that has become empty. */
    method DeallocEmpty(i: nat, s: nat)
      requires Near(i) && i < |plan.kinds| && plan.kinds[i] == Chunks(s) && i < pages.Length == maps.Length
      requires HasFree(pages[i].slab, maps[i], s) && !Occupied(pages[i].slab, maps[i], s)
      modifies this`free, this`plan, pages, slots
      ensures Valid() && live == old(live)
    {
      hide *;
      ghost var st, m, g := Now(), maps[..], plan;
      NearParts(i);
      ghost var x := PageReleases(st, m, g, i, s);
      ChunkPage(st, m, g, i, s);
      WipedLinks(st, i, 1);
      DeallocPages(i, 1);
      plan := Plan(Released(g.kinds, i, 1), [i] + g.free, FilledPlan(g, s, x).lists);
      PageDead(st, m, g, Now(), plan, i, s, start, live);
      Whole();
    }

    /** `slab_dealloc_pages`: off its list if it is on one, and to the front of the free list. */
    method DeallocPages(i: nat, n: nat)
      requires 1 <= n && i + n <= pages.Length && pages != slots
      requires Points(Wiped(Now(), i, n), free.next)
      requires pages[i].next != Nil ==> Points(Now(), pages[i].prev) && Points(Now(), pages[i].next)
      requires pages[i].next != Nil ==> var p := pages[i];
        var st2 := Join(Wiped(Now(), i, n), p.prev, p.next, p.tag); Points(st2, st2.free.next)
      modifies this`free, pages, slots
      ensures old(pages[i]).next == Nil ==>
        Now() == Insert(Wiped(old(Now()), i, n), i, FreeHead, old(free).next, SLAB_PAGE)
      ensures old(pages[i]).next != Nil ==> var p := old(pages[i]);
        var st2 := Join(Wiped(old(Now()), i, n), p.prev, p.next, p.tag);
        Now() == Insert(st2, i, FreeHead, st2.free.next, SLAB_PAGE)
    {
      hide Join, Insert, Wiped;
      WipedLinks(Now(), i, n);
      WipeRun(i, n);
      if pages[i].next != Nil {
        Bypass(i);
      }
      Prepend(i, FreeHead, SLAB_PAGE);
    }

    static lemma WipedLinks(st: Store, i: nat, n: nat)
      requires i < |st.pages|
      ensures var w := Wiped(st, i, n);
        && w.free == st.free && w.pages[i] == st.pages[i].(slab := n)
        && forall r :: Points(st, r) ==> Points(w, r)
    {
    }

    // -------------------------------------------------------------- giving chunks back

    /** The bit of chunk `k` of page `i` cleared. */
    method ClearChunk(i: nat, s: nat, k: nat)
      requires pages != slots && i < pages.Length == maps.Length && ChunkOk(pages[i].slab, maps[i], s) && k < Count(s)
      modifies pages, maps
      ensures Now() == With(old(Now()), At(i), Repainted(old(pages[i]), s, k, false))
      ensures maps[..] == old(maps[..])[i := MarkWords(old(maps[i]), s, k, false)]
    {
      Measures(s);
      ghost var st, m := Now(), maps[..];
      if s < EXACT_SHIFT {
        maps[i] := maps[i][k / 64 := ClearBit(maps[i][k / 64], k % 64)];
      } else if s == EXACT_SHIFT {
        pages[i] := pages[i].(slab := ClearBit(pages[i].slab, k));
      } else {
        pages[i] := pages[i].(slab := ClearBit(pages[i].slab, MAP_SHIFT + k));
      }
      assert maps[..] == m[i := maps[i]];
    }

    /** Nothing in page `i` is handed out any more. */
    method IsEmpty(i: nat, s: nat) returns (empty: bool)
      requires i < pages.Length == maps.Length && ChunkOk(pages[i].slab, maps[i], s)
      ensures empty <==> !Occupied(pages[i].slab, maps[i], s)
    {
      Table(s);
      ghost var slab, w := pages[i].slab, maps[i];
      if s < EXACT_SHIFT {
        EmptySmall(slab, w, s);
        var n := Pow2(PAGE_SHIFT - s) / 8 / Pow2(s);
        if n == 0 {
          n := 1;
        }
        if Shr(maps[i][0], n) != 0 {
          return false;
        }
        empty := RestClear(maps[i], Pow2(PAGE_SHIFT - s) / 64);
      } else if s == EXACT_SHIFT {
        FullExact(slab, w);
        empty := pages[i].slab == 0;
      } else {
        FullBig(slab, w, s);
        empty := Shr(pages[i].slab, MAP_SHIFT) == 0;
      }
    }

    static method RestClear(w: seq<nat>, count: nat) returns (clear: bool)
      requires 1 <= count <= |w|
      ensures clear <==> WordsClear(w, count)
    {
      for j := 1 to count
        invariant forall y :: 1 <= y < j ==> w[y] == 0
      {
        if w[j] != 0 {
          return false;
        }
      }
      clear := true;
    }

    /** Whether page `i` is off its list: no link, or for exact chunks a descriptor full of ones. */
    method IsOffList(i: nat, s: nat) returns (off: bool)
      requires i < pages.Length == maps.Length && ChunkOk(pages[i].slab, maps[i], s)
      requires pages[i].next == Nil <==> !HasFree(pages[i].slab, maps[i], s)
      ensures off <==> !HasFree(pages[i].slab, maps[i], s)
    {
      hide HasFree, Taken;
      if s == EXACT_SHIFT {
        FullExact(pages[i].slab, maps[i]);
        BusyIsOnes();
        off := pages[i].slab == SLAB_PAGE_BUSY;
      } else {
        off := pages[i].next == Nil;
      }
    }

    /** Chunk `k` of page `i` given back: a full page returns to its list, an empty one to the free pages. */
    method FreeChunk(i: nat, s: nat, k: nat)
      requires Valid() && i < |plan.kinds| && plan.kinds[i] == Chunks(s) && i < pages.Length == maps.Length
      requires Reserved(s) <= k < Count(s) && Taken(pages[i].slab, maps[i], s, k)
      modifies this`free, this`plan, this`live, pages, slots, maps
      ensures Valid() && live == WithoutChunk(old(live), start, i, s, k)
    {
      hide *;
      ghost var st, m, g := Now(), maps[..], plan;
      Parts();
      ChunkPage(st, m, g, i, s);
      var off := IsOffList(i, s);
      if off {
        MarkedReturns(st, m, g, i, s, k);
        Relist(i, s);
        plan := ReturnedPlan(g, i, s);
      } else {
        ClearedBits(st, m, g, st, i, s, k);
        MarkedKeeps(st, m, g, i, s, k, false);
      }
      ClearedBits(st, m, g, Now(), i, s, k);
      ClearChunk(i, s, k);
      live := WithoutChunk(live, start, i, s, k);
      ChunkDead(st, m, g, Now(), maps[..], plan, i, s, k, start, old(live));
      StillOccupied(st, m, g.kinds, Now(), maps[..], i);
      ChunkPage(Now(), maps[..], plan, i, s);
      var empty := IsEmpty(i, s);
      if empty {
        IsNear(i);
        DeallocEmpty(i, s);
      } else {
        ButNone(Now(), maps[..], plan.kinds, i);
        Whole();
      }
    }

    lemma IsNear(i: nat)
      requires Arrays() && Inv(Now(), maps[..], plan)
      requires LiveOk(Now(), maps[..], plan.kinds, start, live) && NoneEmptyBut(Now(), maps[..], plan.kinds, i)
      ensures Near(i)
    {
    }

    /** Page `i` to the front of the list of its size. */
    method Relist(i: nat, s: nat)
      requires pages != slots && slots.Length == SLOTS && i < pages.Length && IsShift(s)
        && Points(Now(), slots[s - MIN_SHIFT].next)
      modifies this`free, pages, slots
      ensures Now() == Insert(old(Now()), i, SlotHead(s - MIN_SHIFT), old(slots[s - MIN_SHIFT]).next, TagOf(s))
      ensures forall j :: 0 <= j < pages.Length ==> Now().pages[j].slab == old(Now()).pages[j].slab
    {
      hide Insert;
      PushBits(Now(), i, SlotHead(s - MIN_SHIFT), slots[s - MIN_SHIFT].next, TagOf(s));
      Prepend(i, SlotHead(s - MIN_SHIFT), TagOf(s));
    }

    // -------------------------------------------------------------- slab_dealloc

    /** The pointer is into the page area. */
    predicate Inside(p: nat) { start <= p && PageOf(start, p) < pages.Length }

    /** The kind of the page a pointer is in, told by the tag of its descriptor. */
    lemma KindOf(i: nat)
      requires Valid() && i < pages.Length
      ensures i < |plan.kinds| && i < maps.Length && start % PAGE_SIZE == 0
      ensures plan.kinds[i].Chunks? <==> pages[i].tag != SLAB_PAGE
      ensures plan.kinds[i].Chunks? ==> var s := plan.kinds[i].shift;
        && IsShift(s) && pages[i].tag == TagOf(s) && ChunkOk(pages[i].slab, maps[i], s)
        && (s != EXACT_SHIFT ==> pages[i].slab % 16 == s)
    {
      assert PageOk(Now().pages[i], maps[..][i], plan.kinds[i]) && RunOk(plan.kinds, i);
    }

    /** The checks of `slab_dealloc`: they let through the blocks that are out, and what is `Stray`. */
    method Admits(p: nat) returns (ok: bool)
      requires Valid() && Inside(p) && PageOf(start, p) < |plan.kinds|
      ensures ok <==> p in live || Stray(plan.kinds, start, p)
    {
      hide Inv, LiveOk, NoneEmpty, Stray, Taken, ChunkOk, Size, Count, LiveAt, Valid;
      var i := (p - start) / PAGE_SIZE;
      ghost var st, m, g := Now(), maps[..], plan;
      KindOf(i);
      Parts();
      if pages[i].tag != SLAB_PAGE {
        var s := if pages[i].tag == SLAB_EXACT then EXACT_SHIFT else pages[i].slab % 16;
        TagTells(plan.kinds[i].shift);
        ChunkAdmits(st, m, g, start, live, p, s);
        Table(s);
        if p % Pow2(s) != 0 {
          return false;
        }
        ok := BitOf(i, s, p % PAGE_SIZE / Pow2(s));
      } else {
        RunAdmits(st, m, g, start, live, p);
        ok := p % PAGE_SIZE == 0 && pages[i].slab != 0 && pages[i].slab != SLAB_PAGE_BUSY;
      }
    }

    static lemma TagTells(s: nat)
      ensures TagOf(s) == SLAB_EXACT <==> s == EXACT_SHIFT
      ensures TagOf(s) != SLAB_PAGE
    {
    }

    /** The bit of chunk `k` of page `i`, wherever it is. */
    method BitOf(i: nat, s: nat, k: nat) returns (on: bool)
      requires i < pages.Length == maps.Length && ChunkOk(pages[i].slab, maps[i], s) && k < Count(s)
      ensures on <==> Taken(pages[i].slab, maps[i], s, k)
    {
      Measures(s);
      if s < EXACT_SHIFT {
        on := Bit(maps[i][k / 64], k % 64);
      } else if s == EXACT_SHIFT {
        on := Bit(pages[i].slab, k);
      } else {
        on := Bit(pages[i].slab, MAP_SHIFT + k);
      }
    }

    /** `slab_dealloc`: the block at `p` goes, and a pointer to no block changes nothing that is live, even
        when the checks let it through because it is the first page of a free run. */
    method Dealloc(p: nat) returns (ok: bool)
      requires Valid() && Inside(p) && PageOf(start, p) < |plan.kinds| && !InBitmap(plan.kinds, start, p)
      modifies this`free, this`plan, this`live, pages, slots, maps
      ensures Valid() && live == old(live) - {p}
      ensures ok <==> p in old(live) || Stray(old(plan).kinds, start, p)
    {
      hide Inv, LiveOk, NoneEmpty, Stray, InBitmap, Taken, ChunkOk, Size, Count, LiveAt, Valid, PageAddr, ChunkAddr,
        Reserved;
      ok := Admits(p);
      if !ok {
        return;
      }
      var i := (p - start) / PAGE_SIZE;
      ghost var st, m, g := Now(), maps[..], plan;
      KindOf(i);
      Parts();
      StrayIs(plan.kinds, start, p);
      if pages[i].tag != SLAB_PAGE {
        var s := if pages[i].tag == SLAB_EXACT then EXACT_SHIFT else pages[i].slab % 16;
        TagTells(plan.kinds[i].shift);
        ChunkAdmits(st, m, g, start, live, p, s);
        Table(s);
        FreeChunk(i, s, p % PAGE_SIZE / Pow2(s));
      } else {
        RunTells(st, m, g, start, live, p);
        var slab := pages[i].slab;
        DeallocRun(i, if slab >= SLAB_PAGE_START then slab - SLAB_PAGE_START else slab);
      }
    }

    // -------------------------------------------------------------- slab_init

    /** The pool as `slab_init` leaves it: one free run of all the pages, every list empty. */
    constructor (start: nat, count: nat)
      requires start > 0 && start % PAGE_SIZE == 0 && 1 <= count < 0x1_0000_0000
      ensures Valid() && live == map[] && this.start == start && pages.Length == count
      ensures |plan.kinds| == count && plan.kinds[0] == FreeRun(count)
      ensures fresh(pages) && fresh(slots) && fresh(maps)
    {
      this.start := start;
      pages := new Page[count](i => if i == 0 then Page(count, FreeHead, FreeHead, SLAB_PAGE) else FreedRest);
      slots := new Page[SLOTS](z => Page(0, if z >= 0 then SlotHead(z) else Nil, Nil, SLAB_PAGE));
      maps := new seq<nat>[count](i => [0, 0, 0, 0, 0, 0, 0, 0]);
      free := Page(0, At(0), Nil, SLAB_PAGE);
      plan := Plan(seq(count, i => if i == 0 then FreeRun(count) else FreeRest(0)), [0], seq(SLOTS, z => []));
      live := map[];
      new;
      FreshInv();
    }

    lemma FreshInv()
      requires pages != slots && maps.Length == pages.Length < 0x1_0000_0000 && slots.Length == SLOTS
        && pages.Length >= 1
      requires start > 0 && start % PAGE_SIZE == 0 && live == map[]
      requires forall i :: 0 <= i < pages.Length ==>
        pages[i] == (if i == 0 then Page(pages.Length, FreeHead, FreeHead, SLAB_PAGE) else FreedRest) && |maps[i]| == 8
      requires forall z :: 0 <= z < SLOTS ==> slots[z] == Page(0, SlotHead(z), Nil, SLAB_PAGE)
      requires free == Page(0, At(0), Nil, SLAB_PAGE)
      requires plan == Plan(seq(pages.Length, i => if i == 0 then FreeRun(pages.Length)
        else FreeRest(0)), [0], seq(SLOTS, z => []))
      ensures Valid()
    {
      var st, m := Now(), maps[..];
      assert Linked(st, FreeHead, [0], SLAB_PAGE, 0);
      forall i | 0 <= i < pages.Length ensures RunOk(plan.kinds, i) && PageOk(st.pages[i], m[i], plan.kinds[i]) {}
      forall z | 0 <= z < SLOTS ensures ListOk(st, m, plan, z) {}
    }
  }

  /** On every new pool two pointers pass the checks of `slab_dealloc` that are no blocks: the first page of
      its free run, and, once eight bytes are out, the start of their page, where its bitmap is. */
  method Strays(start: nat, count: nat) returns (pool: SlabPool, q: nat, run: bool, bitmap: bool)
    requires start > 0 && start % PAGE_SIZE == 0 && 1 <= count < 0x1_0000_0000
    ensures fresh(pool) && pool.Valid() && run && bitmap && q !in pool.live
    ensures start <= q && PageOf(start, q) < |pool.plan.kinds| && InBitmap(pool.plan.kinds, start, q)
  {
    hide Inv, LiveOk, NoneEmpty, LiveAt, Taken, InBitmap;
    pool := new SlabPool(start, count);
    run := pool.Admits(start);
    assert !pool.NoRun(1);
    var p, _ := pool.Alloc(8);
    pool.Parts();
    SmallestInPage(pool.Now(), pool.maps[..], pool.plan, start, pool.live, p);
    q := start + PAGE_SIZE * ((p - start) / PAGE_SIZE);
    BitmapIsStray(pool.Now(), pool.maps[..], pool.plan, start, pool.live, PageOf(start, p));
    StrayIs(pool.plan.kinds, start, q);
    bitmap := pool.Admits(q);
  }
}
