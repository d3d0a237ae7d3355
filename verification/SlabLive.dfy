/** The blocks a pool of `slab.c` has handed out, as its descriptors and bitmaps tell, and why no two of
    them overlap. */
module SlabLive {
  import opened Arith
  import opened SlabLinks
  import opened SlabShape
  import opened SlabPlan

  /** What a caller can hold: a whole run of pages, or chunk `k` of a page. */
  datatype Block = Whole(i: nat) | Part(i: nat, k: nat)

  ghost predicate IsBlock(st: Store, maps: seq<seq<nat>>, kinds: seq<Kind>, b: Block)
    requires |maps| == |st.pages| == |kinds|
  {
    b.i < |kinds| && match b
      case Whole(i) => kinds[i].UsedRun?
      case Part(i, k) => kinds[i].Chunks? && Reserved(kinds[i].shift) <= k < Count(kinds[i].shift)
                         && Taken(st.pages[i].slab, maps[i], kinds[i].shift, k)
  }

  /** Where a block begins, from the start of the page area, and how long it is. */
  function Offset(kinds: seq<Kind>, b: Block): nat
    requires b.i < |kinds|
  {
    match b
    case Whole(i) => PAGE_SIZE * i
    case Part(i, k) => PAGE_SIZE * i + k * (if kinds[i].Chunks? then Size(kinds[i].shift) else 1)
  }

  function Extent(kinds: seq<Kind>, b: Block): nat
    requires b.i < |kinds|
  {
    if b.Whole? && kinds[b.i].UsedRun? then PAGE_SIZE * kinds[b.i].n
    else if kinds[b.i].Chunks? then Size(kinds[b.i].shift) else 0
  }

  /** The addresses of page `i`, and of chunk `k` of it when its chunks have size `Size(s)`. */
  function PageAddr(start: nat, i: nat): nat { start + PAGE_SIZE * i }

  function ChunkAddr(start: nat, i: nat, s: nat, k: nat): nat { start + PAGE_SIZE * i + k * Size(s) }

  /** The live blocks with the run of `n` pages at page `i` among them. */
  function WithRun(live: map<nat, nat>, start: nat, i: nat, n: nat): map<nat, nat> {
    live[PageAddr(start, i) := PAGE_SIZE * n]
  }

  /** The live blocks with chunk `k` of page `i` among them, and without it. */
  function WithChunk(live: map<nat, nat>, start: nat, i: nat, s: nat, k: nat): map<nat, nat> {
    live[ChunkAddr(start, i, s, k) := Size(s)]
  }

  function WithoutChunk(live: map<nat, nat>, start: nat, i: nat, s: nat, k: nat): map<nat, nat> {
    live - {ChunkAddr(start, i, s, k)}
  }

  /** The block a pointer at `offset` would be: what `slab_dealloc` works out from the pointer. */
  function BlockAt(kinds: seq<Kind>, offset: nat): Block
    requires offset / PAGE_SIZE < |kinds|
  {
    var i := offset / PAGE_SIZE;
    if kinds[i].Chunks? then Part(i, offset % PAGE_SIZE / Size(kinds[i].shift)) else Whole(i)
  }

  lemma ChunkWithin(s: nat, k: nat)
    requires IsShift(s) && k < Count(s)
    ensures k * Size(s) + Size(s) <= PAGE_SIZE && (k * Size(s)) / Size(s) == k && (k * Size(s)) % Size(s) == 0
  {
    Measures(s);
    Distribute(Count(s), k + 1, Size(s));
    Distribute(k, 1, Size(s));
    if k + 1 < Count(s) { AtLeastOne(Count(s) - (k + 1), Size(s)); }
    ModUnique(k * Size(s), Size(s), k, 0);
  }

  /** The pointer of a block leads back to the block. */
  lemma OffsetTells(st: Store, maps: seq<seq<nat>>, g: Plan, b: Block)
    requires Inv(st, maps, g) && IsBlock(st, maps, g.kinds, b)
    ensures var o := Offset(g.kinds, b); o / PAGE_SIZE == b.i && BlockAt(g.kinds, o) == b
  {
    assert RunOk(g.kinds, b.i);
    if b.Part? { ChunkWithin(g.kinds[b.i].shift, b.k); }
  }

  /** A block lies inside the page area; a chunk is aligned to its size and clear of the bitmap at the
      start of its page, a run of pages to the page size. */
  lemma BlockFits(st: Store, maps: seq<seq<nat>>, g: Plan, b: Block)
    requires Inv(st, maps, g) && IsBlock(st, maps, g.kinds, b)
    ensures var o, z := Offset(g.kinds, b), Extent(g.kinds, b);
      && 0 < z && o + z <= PAGE_SIZE * |g.kinds|
      && (b.Whole? ==> o % PAGE_SIZE == 0)
      && (b.Part? ==> var s := g.kinds[b.i].shift;
           IsShift(s) && z == Size(s) && o % z == 0 && (s < EXACT_SHIFT ==> PAGE_SIZE * b.i + 8 * Words(s) <= o))
  {
    assert RunOk(g.kinds, b.i);
    if b.Part? {
      var s := g.kinds[b.i].shift;
      ChunkWithin(s, b.k);
      Measures(s);
      AlignedInPage(b.i, s, b.k);
      if s < EXACT_SHIFT { AtLeast(b.k, Reserved(s), Size(s)); }
    }
  }

  lemma AtLeast(a: nat, b: nat, d: nat)
    requires a >= b
    ensures a * d >= b * d
  {
    Distribute(a, b, d);
    if a > b { AtLeastOne(a - b, d); }
  }

  lemma AlignedInPage(i: nat, s: nat, k: nat)
    requires IsShift(s)
    ensures (PAGE_SIZE * i + k * Size(s)) % Size(s) == 0
  {
    Measures(s);
    var n, z := Count(s), Size(s);
    Associate(i, n, z);
    Distribute(i * n, k, z);
    ModUnique(PAGE_SIZE * i + k * z, z, i * n + k, 0);
  }

  /** No two blocks overlap. */
  lemma BlocksApart(st: Store, maps: seq<seq<nat>>, g: Plan, b: Block, c: Block)
    requires Inv(st, maps, g) && IsBlock(st, maps, g.kinds, b) && IsBlock(st, maps, g.kinds, c) && b != c
    ensures var p, q := Offset(g.kinds, b), Offset(g.kinds, c);
      p + Extent(g.kinds, b) <= q || q + Extent(g.kinds, c) <= p
  {
    assert RunOk(g.kinds, b.i) && RunOk(g.kinds, c.i);
    if b.i < c.i {
      Before(st, maps, g, b, c);
    } else if c.i < b.i {
      Before(st, maps, g, c, b);
    } else {
      var s := g.kinds[b.i].shift;
      if b.k < c.k { AtLeast(c.k, b.k + 1, Size(s)); } else { AtLeast(b.k, c.k + 1, Size(s)); }
      Distribute(b.k, 1, Size(s));
      Distribute(c.k, 1, Size(s));
    }
  }

  lemma Before(st: Store, maps: seq<seq<nat>>, g: Plan, b: Block, c: Block)
    requires Inv(st, maps, g) && IsBlock(st, maps, g.kinds, b) && IsBlock(st, maps, g.kinds, c) && b.i < c.i
    ensures Offset(g.kinds, b) + Extent(g.kinds, b) <= PAGE_SIZE * c.i <= Offset(g.kinds, c)
  {
    RunsSound(st, maps, g);
    hide Inv, Taken, Size, Count;
    NotBefore(g.kinds, c);
    assert RunOk(g.kinds, b.i);
    if b.Part? {
      ChunkWithin(g.kinds[b.i].shift, b.k);
    } else {
      RunsApart(g.kinds, b.i, c.i);
    }
  }

  lemma NotBefore(kinds: seq<Kind>, b: Block)
    requires b.i < |kinds|
    ensures PAGE_SIZE * b.i <= Offset(kinds, b)
  {
  }

  // ---------------------------------------------------------------- the map of live blocks

  /** `live` maps the address of every block to its length, and nothing else. */
  ghost predicate LiveOk(st: Store, maps: seq<seq<nat>>, kinds: seq<Kind>, start: nat, live: map<nat, nat>)
    requires |maps| == |st.pages| == |kinds|
  {
    AllListed(st, maps, kinds, start, live) && AllReal(st, maps, kinds, start, live)
  }

  ghost predicate AllListed(st: Store, maps: seq<seq<nat>>, kinds: seq<Kind>, start: nat, live: map<nat, nat>)
    requires |maps| == |st.pages| == |kinds|
  {
    forall b :: IsBlock(st, maps, kinds, b) ==>
      start + Offset(kinds, b) in live && live[start + Offset(kinds, b)] == Extent(kinds, b)
  }

  ghost predicate AllReal(st: Store, maps: seq<seq<nat>>, kinds: seq<Kind>, start: nat, live: map<nat, nat>)
    requires |maps| == |st.pages| == |kinds|
  {
    forall p :: p in live ==> LiveAt(st, maps, kinds, start, p)
  }

  ghost predicate LiveAt(st: Store, maps: seq<seq<nat>>, kinds: seq<Kind>, start: nat, p: nat)
    requires |maps| == |st.pages| == |kinds|
  {
    && start <= p && (p - start) / PAGE_SIZE < |kinds|
    && var b := BlockAt(kinds, p - start);
       IsBlock(st, maps, kinds, b) && start + Offset(kinds, b) == p
  }

  /** What the pool promises of the blocks that are out: apart from each other, inside the page area,
      aligned, and clear of the bitmaps. */
  ghost predicate Sound(kinds: seq<Kind>, start: nat, live: map<nat, nat>) {
    && (forall p, q :: p in live && q in live && p < q ==> p + live[p] <= q)
    && (forall p :: p in live ==> start <= p && p + live[p] <= start + PAGE_SIZE * |kinds| && live[p] > 0)
    && (forall p :: p in live && live[p] < PAGE_SIZE ==> (p - start) % live[p] == 0)
    && (forall p :: p in live && live[p] >= PAGE_SIZE ==> (p - start) % PAGE_SIZE == 0)
    && (forall p, i :: p in live && 0 <= i < |kinds| && kinds[i].Chunks? && kinds[i].shift < EXACT_SHIFT ==>
          p + live[p] <= start + PAGE_SIZE * i || start + PAGE_SIZE * i + 8 * Words(kinds[i].shift) <= p)
  }

  lemma LiveIsSound(st: Store, maps: seq<seq<nat>>, g: Plan, start: nat, live: map<nat, nat>)
    requires Inv(st, maps, g) && LiveOk(st, maps, g.kinds, start, live)
    ensures Sound(g.kinds, start, live)
  {
    hide Inv, RunsOk, RunOk, PagesOk, PageOk, FreeOk, ListOk, Chain, Linked, LiveOk, AllListed, AllReal, LiveAt,
      IsBlock, Taken, Size, Words;
    forall p | p in live ensures LiveFitsHere(g.kinds, start, live, p) { LiveFits(st, maps, g, start, live, p); }
    forall p, q | p in live && q in live && p < q
      ensures p + live[p] <= q
    {
      LiveApart(st, maps, g, start, live, p, q);
    }
    forall p, i | p in live && 0 <= i < |g.kinds| && g.kinds[i].Chunks? && g.kinds[i].shift < EXACT_SHIFT
      ensures p + live[p] <= start + PAGE_SIZE * i || start + PAGE_SIZE * i + 8 * Words(g.kinds[i].shift) <= p
    {
      BitmapClear(st, maps, g, start, live, p, i);
    }
  }

  lemma LiveBlock(st: Store, maps: seq<seq<nat>>, kinds: seq<Kind>, start: nat, live: map<nat, nat>, p: nat)
      returns (b: Block)
    requires |maps| == |st.pages| == |kinds| && LiveOk(st, maps, kinds, start, live) && p in live
    ensures IsBlock(st, maps, kinds, b) && start + Offset(kinds, b) == p && live[p] == Extent(kinds, b)
  {
    hide Offset, Extent, IsBlock, Taken, LiveAt;
    b := RealBlock(st, maps, kinds, start, live, p);
    hide AllReal;
  }

  lemma RealBlock(st: Store, maps: seq<seq<nat>>, kinds: seq<Kind>, start: nat, live: map<nat, nat>, p: nat)
      returns (b: Block)
    requires |maps| == |st.pages| == |kinds| && AllReal(st, maps, kinds, start, live) && p in live
    ensures IsBlock(st, maps, kinds, b) && start + Offset(kinds, b) == p
    ensures (p - start) / PAGE_SIZE < |kinds| && b == BlockAt(kinds, p - start)
  {
    assert LiveAt(st, maps, kinds, start, p);
    b := BlockAt(kinds, p - start);
  }

  ghost predicate LiveFitsHere(kinds: seq<Kind>, start: nat, live: map<nat, nat>, p: nat)
    requires p in live
  {
    && start <= p && p + live[p] <= start + PAGE_SIZE * |kinds| && live[p] > 0
    && (live[p] < PAGE_SIZE ==> (p - start) % live[p] == 0) && (live[p] >= PAGE_SIZE ==> (p - start) % PAGE_SIZE == 0)
  }

  lemma LiveFits(st: Store, maps: seq<seq<nat>>, g: Plan, start: nat, live: map<nat, nat>, p: nat)
    requires Inv(st, maps, g) && LiveOk(st, maps, g.kinds, start, live) && p in live
    ensures start <= p && p + live[p] <= start + PAGE_SIZE * |g.kinds| && live[p] > 0
    ensures (live[p] < PAGE_SIZE ==> (p - start) % live[p] == 0)
      && (live[p] >= PAGE_SIZE ==> (p - start) % PAGE_SIZE == 0)
  {
    hide *;
    InvSizes(st, maps, g);
    var b := LiveBlock(st, maps, g.kinds, start, live, p);
    FitsThere(st, maps, g, start, b, p, live[p]);
  }

  lemma FitsThere(st: Store, maps: seq<seq<nat>>, g: Plan, start: nat, b: Block, p: nat, z: nat)
    requires Inv(st, maps, g) && IsBlock(st, maps, g.kinds, b)
    requires p == start + Offset(g.kinds, b) && z == Extent(g.kinds, b)
    ensures start <= p && p + z <= start + PAGE_SIZE * |g.kinds| && z > 0
    ensures (z < PAGE_SIZE ==> (p - start) % z == 0) && (z >= PAGE_SIZE ==> (p - start) % PAGE_SIZE == 0)
  {
    BlockFits(st, maps, g, b);
    BlockSize(st, maps, g, b);
    hide Inv, RunsOk, RunOk, PagesOk, PageOk, FreeOk, ListOk, Chain, Linked, Taken, Offset, Extent;
  }

  lemma InvSizes(st: Store, maps: seq<seq<nat>>, g: Plan)
    requires Inv(st, maps, g)
    ensures |maps| == |st.pages| == |g.kinds|
  {
  }

  lemma BlockSize(st: Store, maps: seq<seq<nat>>, g: Plan, b: Block)
    requires Inv(st, maps, g) && IsBlock(st, maps, g.kinds, b)
    ensures b.Whole? ==> Extent(g.kinds, b) >= PAGE_SIZE
    ensures b.Part? ==> Extent(g.kinds, b) < PAGE_SIZE
  {
    assert RunOk(g.kinds, b.i);
  }

  lemma LiveApart(st: Store, maps: seq<seq<nat>>, g: Plan, start: nat, live: map<nat, nat>, p: nat, q: nat)
    requires Inv(st, maps, g) && LiveOk(st, maps, g.kinds, start, live) && p in live && q in live && p < q
    ensures p + live[p] <= q
  {
    hide *;
    InvSizes(st, maps, g);
    var b := LiveBlock(st, maps, g.kinds, start, live, p);
    var c := LiveBlock(st, maps, g.kinds, start, live, q);
    ApartThere(st, maps, g, b, c);
  }

  lemma ApartThere(st: Store, maps: seq<seq<nat>>, g: Plan, b: Block, c: Block)
    requires Inv(st, maps, g) && IsBlock(st, maps, g.kinds, b) && IsBlock(st, maps, g.kinds, c)
    requires Offset(g.kinds, b) < Offset(g.kinds, c)
    ensures Offset(g.kinds, b) + Extent(g.kinds, b) <= Offset(g.kinds, c)
  {
    hide *;
    BlocksApart(st, maps, g, b, c);
    BlockFits(st, maps, g, c);
  }

  lemma BitmapClear(st: Store, maps: seq<seq<nat>>, g: Plan, start: nat, live: map<nat, nat>, p: nat, i: nat)
    requires Inv(st, maps, g) && LiveOk(st, maps, g.kinds, start, live) && p in live
    requires i < |g.kinds| && g.kinds[i].Chunks? && g.kinds[i].shift < EXACT_SHIFT
    ensures p + live[p] <= start + PAGE_SIZE * i || start + PAGE_SIZE * i + 8 * Words(g.kinds[i].shift) <= p
  {
    hide *;
    InvSizes(st, maps, g);
    var b := LiveBlock(st, maps, g.kinds, start, live, p);
    BlockClear(st, maps, g, b, i);
  }

  lemma BlockClear(st: Store, maps: seq<seq<nat>>, g: Plan, b: Block, i: nat)
    requires Inv(st, maps, g) && IsBlock(st, maps, g.kinds, b)
    requires i < |g.kinds| && g.kinds[i].Chunks? && g.kinds[i].shift < EXACT_SHIFT
    ensures Offset(g.kinds, b) + Extent(g.kinds, b) <= PAGE_SIZE * i
      || PAGE_SIZE * i + 8 * Words(g.kinds[i].shift) <= Offset(g.kinds, b)
  {
    BlockFits(st, maps, g, b);
    RunsSound(st, maps, g);
    hide Inv, Taken, Size, Count, Reserved, Words;
    NotBefore(g.kinds, b);
    assert RunOk(g.kinds, b.i);
    if b.i < i {
      if b.Whole? { RunsApart(g.kinds, b.i, i); } else { ChunkWithin(g.kinds[b.i].shift, b.k); }
    } else if i < b.i {
      FirstPage(i, b.i, g.kinds[i].shift);
    }
  }

  lemma FirstPage(i: nat, j: nat, s: nat)
    requires i < j
    ensures PAGE_SIZE * i + 8 * Words(s) <= PAGE_SIZE * j
  {
  }

  // ---------------------------------------------------------------- blocks come and go

  datatype Maybe = No | Yes(b: Block)

  /** The map of live blocks after `gone` went and `come` came. */
  ghost function Moved(kinds: seq<Kind>, kinds': seq<Kind>, start: nat, live: map<nat, nat>, gone: Maybe,
      come: Maybe): map<nat, nat>
    requires (gone.Yes? ==> gone.b.i < |kinds|) && (come.Yes? ==> come.b.i < |kinds'|)
  {
    var rest := if gone.Yes? then live - {start + Offset(kinds, gone.b)} else live;
    if come.Yes? then rest[start + Offset(kinds', come.b) := Extent(kinds', come.b)] else rest
  }

  /** The blocks of the second state are those of the first without `gone` and with `come`. */
  ghost predicate BlocksMove(st: Store, maps: seq<seq<nat>>, kinds: seq<Kind>, st': Store, maps': seq<seq<nat>>,
      kinds': seq<Kind>,
                             gone: Maybe, come: Maybe)
    requires |maps| == |st.pages| == |kinds| == |maps'| == |st'.pages| == |kinds'|
  {
    && (gone.Yes? ==> IsBlock(st, maps, kinds, gone.b)) && (come.Yes? ==> IsBlock(st', maps', kinds', come.b))
    && forall b :: StillThere(st, maps, kinds, st', maps', kinds', gone, come, b)
  }

  ghost predicate StillThere(st: Store, maps: seq<seq<nat>>, kinds: seq<Kind>, st': Store, maps': seq<seq<nat>>,
      kinds': seq<Kind>,
                             gone: Maybe, come: Maybe, b: Block)
    requires |maps| == |st.pages| == |kinds| == |maps'| == |st'.pages| == |kinds'|
  {
    && (IsBlock(st', maps', kinds', b) <==> (IsBlock(st, maps, kinds, b) && gone != Yes(b)) || come == Yes(b))
    && (IsBlock(st, maps, kinds, b) && gone != Yes(b) ==>
          Offset(kinds', b) == Offset(kinds, b) && Extent(kinds', b) == Extent(kinds, b))
  }

  lemma LiveMoves(st: Store, maps: seq<seq<nat>>, g: Plan, st': Store, maps': seq<seq<nat>>, g': Plan,
                  start: nat, live: map<nat, nat>, gone: Maybe, come: Maybe)
    requires Inv(st, maps, g) && Inv(st', maps', g') && |g'.kinds| == |g.kinds|
    requires LiveOk(st, maps, g.kinds, start, live) && BlocksMove(st, maps, g.kinds, st', maps', g'.kinds, gone, come)
    ensures LiveOk(st', maps', g'.kinds, start, Moved(g.kinds, g'.kinds, start, live, gone, come))
  {
    hide *;
    InvSizes(st, maps, g);
    InvSizes(st', maps', g');
    MovesWithin(st, maps, g.kinds, st', maps', g'.kinds, gone, come);
    var live' := Moved(g.kinds, g'.kinds, start, live, gone, come);
    forall b | IsBlock(st', maps', g'.kinds, b) ensures Listed(g'.kinds, start, live', b) {
      NewIsListed(st, maps, g, st', maps', g', start, live, gone, come, b);
    }
    forall p | p in live' ensures LiveAt(st', maps', g'.kinds, start, p) {
      ListedIsNew(st, maps, g, st', maps', g', start, live, gone, come, p);
    }
    LiveOkIf(st', maps', g'.kinds, start, live');
  }

  ghost predicate Listed(kinds: seq<Kind>, start: nat, live: map<nat, nat>, b: Block) {
    b.i < |kinds| && start + Offset(kinds, b) in live && live[start + Offset(kinds, b)] == Extent(kinds, b)
  }

  lemma LiveOkIf(st: Store, maps: seq<seq<nat>>, kinds: seq<Kind>, start: nat, live: map<nat, nat>)
    requires |maps| == |st.pages| == |kinds|
    requires forall b :: IsBlock(st, maps, kinds, b) ==> Listed(kinds, start, live, b)
    requires forall p :: p in live ==> LiveAt(st, maps, kinds, start, p)
    ensures LiveOk(st, maps, kinds, start, live)
  {
    hide LiveAt, Taken, Offset, Extent;
  }

  lemma MovesWithin(st: Store, maps: seq<seq<nat>>, kinds: seq<Kind>, st': Store, maps': seq<seq<nat>>,
      kinds': seq<Kind>,
                    gone: Maybe, come: Maybe)
    requires |maps| == |st.pages| == |kinds| == |maps'| == |st'.pages| == |kinds'|
    requires BlocksMove(st, maps, kinds, st', maps', kinds', gone, come)
    ensures (gone.Yes? ==> gone.b.i < |kinds|) && (come.Yes? ==> come.b.i < |kinds'|)
  {
  }

  /** A block that comes has an address nobody holds. */
  lemma ComesFresh(st: Store, maps: seq<seq<nat>>, g: Plan, st': Store, maps': seq<seq<nat>>, g': Plan,
                   start: nat, live: map<nat, nat>, b: Block)
    requires Inv(st, maps, g) && Inv(st', maps', g') && |g'.kinds| == |g.kinds|
    requires LiveOk(st, maps, g.kinds, start, live) && BlocksMove(st, maps, g.kinds, st', maps', g'.kinds, No, Yes(b))
    requires !IsBlock(st, maps, g.kinds, b)
    ensures start + Offset(g'.kinds, b) !in live
  {
    hide *;
    InvSizes(st, maps, g);
    InvSizes(st', maps', g');
    MovesWithin(st, maps, g.kinds, st', maps', g'.kinds, No, Yes(b));
    if start + Offset(g'.kinds, b) in live {
      var c := LiveBlock(st, maps, g.kinds, start, live, start + Offset(g'.kinds, b));
      MovesAt(st, maps, g.kinds, st', maps', g'.kinds, No, Yes(b), b);
      MovesAt(st, maps, g.kinds, st', maps', g'.kinds, No, Yes(b), c);
      OffsetTells(st', maps', g', b);
      OffsetTells(st', maps', g', c);
    }
  }

  lemma MovesAt(st: Store, maps: seq<seq<nat>>, kinds: seq<Kind>, st': Store, maps': seq<seq<nat>>, kinds': seq<Kind>,
                gone: Maybe, come: Maybe, b: Block)
    requires |maps| == |st.pages| == |kinds| == |maps'| == |st'.pages| == |kinds'|
    requires BlocksMove(st, maps, kinds, st', maps', kinds', gone, come)
    ensures IsBlock(st', maps', kinds', b) <==> (IsBlock(st, maps, kinds, b) && gone != Yes(b)) || come == Yes(b)
    ensures IsBlock(st, maps, kinds, b) ==> b.i < |kinds|
    ensures IsBlock(st', maps', kinds', b) ==> b.i < |kinds'|
    ensures IsBlock(st, maps, kinds, b) && gone != Yes(b) ==>
      Offset(kinds', b) == Offset(kinds, b) && Extent(kinds', b) == Extent(kinds, b)
  {
    assert StillThere(st, maps, kinds, st', maps', kinds', gone, come, b);
  }

  lemma NewIsListed(st: Store, maps: seq<seq<nat>>, g: Plan, st': Store, maps': seq<seq<nat>>, g': Plan,
                    start: nat, live: map<nat, nat>, gone: Maybe, come: Maybe, b: Block)
    requires Inv(st, maps, g) && Inv(st', maps', g') && |maps| == |st.pages| == |g.kinds| == |maps'| == |st'.pages|
      == |g'.kinds|
    requires LiveOk(st, maps, g.kinds, start, live) && BlocksMove(st, maps, g.kinds, st', maps', g'.kinds, gone, come)
    requires IsBlock(st', maps', g'.kinds, b)
    ensures Listed(g'.kinds, start, Moved(g.kinds, g'.kinds, start, live, gone, come), b)
  {
    hide Inv, RunsOk, PagesOk, FreeOk, ListOk, Taken, Reserved, Count, Offset, Extent, AllReal;
    OffsetTells(st', maps', g', b);
    assert StillThere(st, maps, g.kinds, st', maps', g'.kinds, gone, come, b);
    if come != Yes(b) {
      OffsetTells(st, maps, g, b);
      if gone.Yes? { OffsetTells(st, maps, g, gone.b); }
      if come.Yes? { OffsetTells(st', maps', g', come.b); }
    }
  }

  lemma ListedIsNew(st: Store, maps: seq<seq<nat>>, g: Plan, st': Store, maps': seq<seq<nat>>, g': Plan,
                    start: nat, live: map<nat, nat>, gone: Maybe, come: Maybe, p: nat)
    requires Inv(st, maps, g) && Inv(st', maps', g') && |maps| == |st.pages| == |g.kinds| == |maps'| == |st'.pages|
      == |g'.kinds|
    requires LiveOk(st, maps, g.kinds, start, live) && BlocksMove(st, maps, g.kinds, st', maps', g'.kinds, gone, come)
    requires p in Moved(g.kinds, g'.kinds, start, live, gone, come)
    ensures LiveAt(st', maps', g'.kinds, start, p)
  {
    hide Inv, RunsOk, PagesOk, FreeOk, ListOk, Taken, Reserved, Count, Offset, Extent, AllListed, BlockAt;
    if come.Yes? && p == start + Offset(g'.kinds, come.b) {
      OffsetTells(st', maps', g', come.b);
    } else {
      var b := RealBlock(st, maps, g.kinds, start, live, p);
      assert StillThere(st, maps, g.kinds, st', maps', g'.kinds, gone, come, b);
      OffsetTells(st', maps', g', b);
    }
  }

  // ---------------------------------------------------------------- the blocks of each change

  /** No chunk page stays with nothing in it. */
  ghost predicate NoneEmpty(st: Store, maps: seq<seq<nat>>, kinds: seq<Kind>)
    requires |maps| == |st.pages| == |kinds|
  {
    forall i :: 0 <= i < |kinds| && kinds[i].Chunks? ==> Occupied(st.pages[i].slab, maps[i], kinds[i].shift)
  }

  /** Bitmaps are untouched but for page `i`. */
  ghost predicate SameBits(st: Store, maps: seq<seq<nat>>, st': Store, maps': seq<seq<nat>>, i: nat) {
    && |maps| == |st.pages| == |maps'| == |st'.pages|
    && forall j :: 0 <= j < |maps| && j != i ==> st'.pages[j].slab == st.pages[j].slab && maps'[j] == maps[j]
  }

  /** Chunk `k` of page `i` taken. */
  lemma TakenMoves(st: Store, maps: seq<seq<nat>>, kinds: seq<Kind>, st': Store, maps': seq<seq<nat>>, i: nat, s: nat,
      k: nat)
    requires |kinds| == |maps| && i < |kinds| && kinds[i] == Chunks(s) && Reserved(s) <= k < Count(s)
    requires SameBits(st, maps, st', maps', i) && !Taken(st.pages[i].slab, maps[i], s, k)
    requires forall j :: 0 <= j < Count(s) ==>
      (Taken(st'.pages[i].slab, maps'[i], s, j) <==> j == k || Taken(st.pages[i].slab, maps[i], s, j))
    ensures BlocksMove(st, maps, kinds, st', maps', kinds, No, Yes(Part(i, k))) && !IsBlock(st, maps, kinds, Part(i, k))
    ensures NoneEmpty(st, maps, kinds) ==> NoneEmpty(st', maps', kinds)
  {
    hide Taken, Offset, Extent, Count, Reserved;
    assert Occupied(st'.pages[i].slab, maps'[i], s);
    forall b ensures StillThere(st, maps, kinds, st', maps', kinds, No, Yes(Part(i, k)), b) {}
  }

  /** Chunk `k` of page `i` given back. */
  lemma ClearedMoves(st: Store, maps: seq<seq<nat>>, kinds: seq<Kind>, st': Store, maps': seq<seq<nat>>, i: nat, s: nat,
      k: nat)
    requires |kinds| == |maps| && i < |kinds| && kinds[i] == Chunks(s) && Reserved(s) <= k < Count(s)
    requires SameBits(st, maps, st', maps', i) && Taken(st.pages[i].slab, maps[i], s, k)
    requires forall j :: 0 <= j < Count(s) ==>
      (Taken(st'.pages[i].slab, maps'[i], s, j) <==> j != k && Taken(st.pages[i].slab, maps[i], s, j))
    ensures BlocksMove(st, maps, kinds, st', maps', kinds, Yes(Part(i, k)), No)
  {
    hide Taken, Offset, Extent, Count, Reserved;
    forall b ensures StillThere(st, maps, kinds, st', maps', kinds, Yes(Part(i, k)), No, b) {}
  }

  /** A run taken from a free one. */
  lemma CarvedMoves(st: Store, maps: seq<seq<nat>>, g: Plan, st': Store, i: nat, n: nat)
    requires Sizes(st, maps, g) && RunsOk(g.kinds) && i < |g.kinds| && g.kinds[i].FreeRun? && 1 <= n <= g.kinds[i].n
    requires CarvedFrom(st, st', g, i, n)
    ensures BlocksMove(st, maps, g.kinds, st', maps, Carved(g.kinds, i, n), No, Yes(Whole(i)))
    ensures !IsBlock(st, maps, g.kinds, Whole(i))
    ensures NoneEmpty(st, maps, g.kinds) ==> NoneEmpty(st', maps, Carved(g.kinds, i, n))
  {
    hide Taken, Count, Reserved, Size, Occupied;
    assert RunOk(g.kinds, i);
    var kinds := Carved(g.kinds, i, n);
    assert forall j :: 0 <= j < |kinds| && g.kinds[j].Chunks? ==>
      kinds[j] == g.kinds[j] && st'.pages[j].slab == st.pages[j].slab;
    assert forall j :: 0 <= j < |kinds| && kinds[j].Chunks? ==> kinds[j] == g.kinds[j];
    forall b ensures StillThere(st, maps, g.kinds, st', maps, kinds, No, Yes(Whole(i)), b) {}
  }

  /** A run, or an emptied chunk page, given back. */
  lemma ReleasedMoves(st: Store, maps: seq<seq<nat>>, g: Plan, st': Store, i: nat, n: nat)
    requires Sizes(st, maps, g) && RunsOk(g.kinds) && i < |g.kinds| && ReleasedTo(st, st', g, i, n)
    requires g.kinds[i] == UsedRun(n) || (g.kinds[i].Chunks? && n == 1
      && !Occupied(st.pages[i].slab, maps[i], g.kinds[i].shift))
    ensures BlocksMove(st, maps, g.kinds, st', maps, Released(g.kinds, i, n), if g.kinds[i].UsedRun? then Yes(Whole(i))
      else No, No)
    ensures (forall j :: 0 <= j < |g.kinds| && j != i && g.kinds[j].Chunks? ==>
      Occupied(st.pages[j].slab, maps[j], g.kinds[j].shift))
      ==> NoneEmpty(st', maps, Released(g.kinds, i, n))
  {
    hide Taken, Count, Reserved, Size;
    assert RunOk(g.kinds, i);
    var kinds := Released(g.kinds, i, n);
    assert forall j :: 0 <= j < |kinds| && g.kinds[j].Chunks? && j != i ==>
      kinds[j] == g.kinds[j] && st'.pages[j].slab == st.pages[j].slab;
    assert forall j :: 0 <= j < |kinds| && kinds[j].Chunks? ==> kinds[j] == g.kinds[j] && j != i;
    var gone := if g.kinds[i].UsedRun? then Yes(Whole(i)) else No;
    forall b ensures StillThere(st, maps, g.kinds, st', maps, kinds, gone, No, b) {}
  }

  /** A page cut into chunks, the first of them taken. */
  lemma CutMoves(st: Store, maps: seq<seq<nat>>, g: Plan, st': Store, i: nat, s: nat, slab: nat, w: seq<nat>)
    requires Sizes(st, maps, g) && i < |g.kinds| && g.kinds[i] == UsedRun(1) && JustCut(slab, w, s)
    requires SameBits(st, maps, st', maps[i := w], i) && st'.pages[i].slab == slab
    ensures BlocksMove(st, maps, g.kinds, st', maps[i := w], g.kinds[i := Chunks(s)], Yes(Whole(i)),
      Yes(Part(i, Reserved(s))))
    ensures NoneEmpty(st, maps, g.kinds) ==> NoneEmpty(st', maps[i := w], g.kinds[i := Chunks(s)])
  {
    CutOk(slab, w, s);
    Measures(s);
    hide Taken, Count, Reserved, Size, JustCut, ChunkOk;
    var kinds, maps' := g.kinds[i := Chunks(s)], maps[i := w];
    assert Taken(slab, w, s, Reserved(s));
    assert Occupied(slab, w, s);
    forall b ensures StillThere(st, maps, g.kinds, st', maps', kinds, Yes(Whole(i)), Yes(Part(i, Reserved(s))), b) {}
  }

  lemma CarveReady(st: Store, maps: seq<seq<nat>>, g: Plan, x: nat, n: nat)
    requires CanCarve(st, maps, g, x, n)
    ensures var i := g.free[x];
      && i + n <= |st.pages| && st.pages[i].slab == g.kinds[i].n && st.pages[i].tag == SLAB_PAGE
      && Points(st, st.pages[i].prev) && Points(st, st.pages[i].next)
      && (n < g.kinds[i].n ==> st.pages[i].prev != At(i + n) && st.pages[i].next != At(i + n))
  {
    var i := g.free[x];
    RunHere(st, maps, g, x);
    if n < g.kinds[i].n { SplitReady(st, maps, g, x, n); }
    hide PagesOk, RunsOk, ListOk, Chain;
  }

  /** Live blocks after a run was taken. */
  lemma CarveLive(st: Store, maps: seq<seq<nat>>, g: Plan, st': Store, g': Plan, i: nat, n: nat,
                  start: nat, live: map<nat, nat>, live': map<nat, nat>)
    requires Inv(st, maps, g) && Inv(st', maps, g') && i < |g.kinds| && g.kinds[i].FreeRun? && 1 <= n <= g.kinds[i].n
    requires g'.kinds == Carved(g.kinds, i, n) && CarvedFrom(st, st', g, i, n)
    requires LiveOk(st, maps, g.kinds, start, live) && NoneEmpty(st, maps, g.kinds)
    requires live' == WithRun(live, start, i, n)
    ensures LiveOk(st', maps, g'.kinds, start, live') && NoneEmpty(st', maps, g'.kinds) && PageAddr(start, i) !in live
  {
    hide *;
    InvSizes(st, maps, g);
    InvSizes(st', maps, g');
    RunsSound(st, maps, g);
    CarvedMoves(st, maps, g, st', i, n);
    LiveMoves(st, maps, g, st', maps, g', start, live, No, Yes(Whole(i)));
    ComesFresh(st, maps, g, st', maps, g', start, live, Whole(i));
    WholeMoved(g.kinds, g'.kinds, start, live, i, n);
  }

  lemma RunsSound(st: Store, maps: seq<seq<nat>>, g: Plan)
    requires Inv(st, maps, g)
    ensures Sizes(st, maps, g) && RunsOk(g.kinds)
  {
  }

  lemma WholeMoved(kinds: seq<Kind>, kinds': seq<Kind>, start: nat, live: map<nat, nat>, i: nat, n: nat)
    requires i < |kinds| && kinds[i].FreeRun? && 1 <= n <= kinds[i].n && kinds' == Carved(kinds, i, n)
    ensures Moved(kinds, kinds', start, live, No, Yes(Whole(i))) == WithRun(live, start, i, n)
    ensures start + Offset(kinds', Whole(i)) == PageAddr(start, i)
  {
  }

  /** Live blocks after a chunk was taken. */
  lemma ChunkLive(st: Store, maps: seq<seq<nat>>, g: Plan, st': Store, maps': seq<seq<nat>>, g': Plan, i: nat, s: nat,
      k: nat,
                  start: nat, live: map<nat, nat>)
    requires Inv(st, maps, g) && Inv(st', maps', g') && i < |g.kinds| && g.kinds[i] == Chunks(s) && g'.kinds == g.kinds
    requires Reserved(s) <= k < Count(s) && SameBits(st, maps, st', maps', i) && !Taken(st.pages[i].slab, maps[i], s, k)
    requires forall j :: 0 <= j < Count(s) ==>
      (Taken(st'.pages[i].slab, maps'[i], s, j) <==> j == k || Taken(st.pages[i].slab, maps[i], s, j))
    requires LiveOk(st, maps, g.kinds, start, live) && NoneEmpty(st, maps, g.kinds)
    ensures LiveOk(st', maps', g'.kinds, start, WithChunk(live, start, i, s, k)) && NoneEmpty(st', maps', g'.kinds)
    ensures ChunkAddr(start, i, s, k) !in live
  {
    hide *;
    InvSizes(st, maps, g);
    InvSizes(st', maps', g');
    TakenMoves(st, maps, g.kinds, st', maps', i, s, k);
    LiveMoves(st, maps, g, st', maps', g', start, live, No, Yes(Part(i, k)));
    ComesFresh(st, maps, g, st', maps', g', start, live, Part(i, k));
    PartMoved(g.kinds, start, live, i, s, k);
  }

  lemma PartMoved(kinds: seq<Kind>, start: nat, live: map<nat, nat>, i: nat, s: nat, k: nat)
    requires i < |kinds| && kinds[i] == Chunks(s)
    ensures Moved(kinds, kinds, start, live, No, Yes(Part(i, k))) == WithChunk(live, start, i, s, k)
    ensures Moved(kinds, kinds, start, live, Yes(Part(i, k)), No) == WithoutChunk(live, start, i, s, k)
    ensures start + Offset(kinds, Part(i, k)) == ChunkAddr(start, i, s, k)
  {
  }

  /** Live blocks after a chunk was given back. */
  lemma ChunkDead(st: Store, maps: seq<seq<nat>>, g: Plan, st': Store, maps': seq<seq<nat>>, g': Plan, i: nat, s: nat,
      k: nat,
                  start: nat, live: map<nat, nat>)
    requires Inv(st, maps, g) && Inv(st', maps', g') && i < |g.kinds| && g.kinds[i] == Chunks(s) && g'.kinds == g.kinds
    requires Reserved(s) <= k < Count(s) && SameBits(st, maps, st', maps', i) && Taken(st.pages[i].slab, maps[i], s, k)
    requires forall j :: 0 <= j < Count(s) ==>
      (Taken(st'.pages[i].slab, maps'[i], s, j) <==> j != k && Taken(st.pages[i].slab, maps[i], s, j))
    requires LiveOk(st, maps, g.kinds, start, live)
    ensures LiveOk(st', maps', g'.kinds, start, WithoutChunk(live, start, i, s, k))
  {
    hide *;
    InvSizes(st, maps, g);
    InvSizes(st', maps', g');
    ClearedMoves(st, maps, g.kinds, st', maps', i, s, k);
    LiveMoves(st, maps, g, st', maps', g', start, live, Yes(Part(i, k)), No);
    PartMoved(g.kinds, start, live, i, s, k);
  }

  /** Setting or clearing the bit of chunk `k` of page `i` changes that bit only. */
  lemma MarkBits(st: Store, maps: seq<seq<nat>>, g: Plan, i: nat, s: nat, k: nat, on: bool)
    requires Inv(st, maps, g) && i < |st.pages| && g.kinds[i] == Chunks(s) && k < Count(s) && (on || k >= Reserved(s))
    ensures var st', maps' := With(st, At(i), Repainted(st.pages[i], s, k, on)),
      maps[i := MarkWords(maps[i], s, k, on)];
      && SameBits(st, maps, st', maps', i)
      && forall j :: 0 <= j < Count(s) ==>
           (Taken(st'.pages[i].slab, maps'[i], s, j) <==> if j == k then on else Taken(st.pages[i].slab, maps[i], s, j))
  {
    assert PageOk(st.pages[i], maps[i], g.kinds[i]);
    hide ListOk, Chain, RunsOk, Taken;
    Marked(st.pages[i].slab, maps[i], s, k, on);
  }

  /** A page of chunks as the descriptors have it; its reserved chunks are never free. */
  lemma ChunkPage(st: Store, maps: seq<seq<nat>>, g: Plan, i: nat, s: nat)
    requires Inv(st, maps, g) && i < |st.pages| && g.kinds[i] == Chunks(s)
    ensures IsShift(s) && ChunkOk(st.pages[i].slab, maps[i], s) && st.pages[i].tag == TagOf(s)
    ensures forall k :: 0 <= k < Count(s) && !Taken(st.pages[i].slab, maps[i], s, k) ==> k >= Reserved(s)
    ensures st.pages[i].next == Nil <==> !HasFree(st.pages[i].slab, maps[i], s)
    ensures 0 <= s - MIN_SHIFT < |st.slots| && Points(st, st.slots[s - MIN_SHIFT].next)
  {
    assert PageOk(st.pages[i], maps[i], g.kinds[i]) && RunOk(g.kinds, i);
    assert ListOk(st, maps, g, s - MIN_SHIFT);
    hide HasFree, Count;
  }

  lemma OffListBits(st: Store, maps: seq<seq<nat>>, st1: Store, maps1: seq<seq<nat>>, i: nat)
    requires SameBits(st, maps, st1, maps1, i) && i < |st1.pages|
    requires Points(st1, st1.pages[i].prev) && Points(st1, st1.pages[i].next)
    ensures SameBits(st, maps, OffList(st1, i), maps1, i) && OffList(st1, i).pages[i].slab == st1.pages[i].slab
    ensures OffList(st1, i) == (var p := st1.pages[i]; var st2 := Join(st1, p.prev, p.next, p.tag);
                                With(st2, At(i), st2.pages[i].(next := Nil, prev := Nil)))
  {
    var p := st1.pages[i];
    JoinKeeps(st1, p.prev, p.next, p.tag);
  }

  /** Live blocks after the single used page `i`, which was live as a run, was cut into chunks. */
  lemma CutLive(st: Store, maps: seq<seq<nat>>, g: Plan, i: nat, s: nat, slab: nat, w: seq<nat>, start: nat,
      live: map<nat, nat>)
    requires Inv(st, maps, g) && i < |st.pages| && g.kinds[i] == UsedRun(1) && JustCut(slab, w, s)
    requires g.lists[s - MIN_SHIFT] == []
    requires LiveOk(st, maps, g.kinds, start, WithRun(live, start, i, 1)) && NoneEmpty(st, maps, g.kinds)
    requires PageAddr(start, i) !in live
    ensures var st', maps', g' := CutStore(st, i, s, slab), maps[i := w], CutPlan(g, i, s);
      && Inv(st', maps', g') && NoneEmpty(st', maps', g'.kinds)
      && LiveOk(st', maps', g'.kinds, start, WithChunk(live, start, i, s, Reserved(s)))
    ensures ChunkAddr(start, i, s, Reserved(s)) !in live
  {
    hide *;
    CutFacts(st, maps, g, i, s, slab, w);
    CutKeeps(st, maps, g, i, s, slab, w);
    CutMoves(st, maps, g, CutStore(st, i, s, slab), i, s, slab, w);
    LiveMoves(st, maps, g, CutStore(st, i, s, slab), maps[i := w], CutPlan(g, i, s), start, WithRun(live, start, i, 1),
              Yes(Whole(i)), Yes(Part(i, Reserved(s))));
    CutMoved(g, i, s, start, live);
    CutFresh(st, maps, g, i, s, start, live);
  }

  lemma CutFacts(st: Store, maps: seq<seq<nat>>, g: Plan, i: nat, s: nat, slab: nat, w: seq<nat>)
    requires Inv(st, maps, g) && i < |st.pages| && g.kinds[i] == UsedRun(1) && JustCut(slab, w, s)
    ensures IsShift(s) && Sizes(st, maps, g) && |g.lists| == |st.slots| == SLOTS && |maps| == |g.kinds| == |st.pages|
    ensures CutPlan(g, i, s).kinds == g.kinds[i := Chunks(s)]
    ensures SameBits(st, maps, CutStore(st, i, s, slab), maps[i := w], i)
      && CutStore(st, i, s, slab).pages[i].slab == slab
  {
    hide RunsOk, PagesOk, ListOk, Chain;
  }

  lemma CutMoved(g: Plan, i: nat, s: nat, start: nat, live: map<nat, nat>)
    requires i < |g.kinds| && |g.lists| == SLOTS && IsShift(s) && PageAddr(start, i) !in live
    ensures Moved(g.kinds, CutPlan(g, i, s).kinds, start, WithRun(live, start, i, 1), Yes(Whole(i)),
      Yes(Part(i, Reserved(s))))
      == WithChunk(live, start, i, s, Reserved(s))
  {
    assert WithRun(live, start, i, 1) - {start + PAGE_SIZE * i} == live;
  }

  /** Inside a page that is one live run there is no other live address. */
  lemma CutFresh(st: Store, maps: seq<seq<nat>>, g: Plan, i: nat, s: nat, start: nat, live: map<nat, nat>)
    requires Inv(st, maps, g) && i < |g.kinds| && g.kinds[i] == UsedRun(1) && IsShift(s)
    requires LiveOk(st, maps, g.kinds, start, WithRun(live, start, i, 1)) && PageAddr(start, i) !in live
    ensures ChunkAddr(start, i, s, Reserved(s)) !in live
  {
    hide *;
    var a, p := PageAddr(start, i), ChunkAddr(start, i, s, Reserved(s));
    InPage(start, i, s, live);
    if p in live && p != a {
      LiveApart(st, maps, g, start, WithRun(live, start, i, 1), a, p);
    }
  }

  lemma InPage(start: nat, i: nat, s: nat, live: map<nat, nat>)
    requires IsShift(s)
    ensures PageAddr(start, i) <= ChunkAddr(start, i, s, Reserved(s))
    ensures var all := WithRun(live, start, i, 1);
      && PageAddr(start, i) in all && ChunkAddr(start, i, s, Reserved(s)) < PageAddr(start, i) + all[PageAddr(start, i)]
      && forall p :: p in live ==> p in all
  {
    Measures(s);
    ChunkWithin(s, Reserved(s));
  }

  /** No chunk page other than `i` stays with nothing in it. */
  ghost predicate NoneEmptyBut(st: Store, maps: seq<seq<nat>>, kinds: seq<Kind>, i: nat)
    requires |maps| == |st.pages| == |kinds|
  {
    forall j :: 0 <= j < |kinds| && j != i && kinds[j].Chunks? ==> Occupied(st.pages[j].slab, maps[j], kinds[j].shift)
  }

  function WithoutRun(live: map<nat, nat>, start: nat, i: nat): map<nat, nat> { live - {PageAddr(start, i)} }

  /** Live blocks after a run was given back. */
  lemma RunDead(st: Store, maps: seq<seq<nat>>, g: Plan, st': Store, g': Plan, i: nat, n: nat, start: nat,
      live: map<nat, nat>)
    requires Inv(st, maps, g) && Inv(st', maps, g') && i < |g.kinds| && g.kinds[i] == UsedRun(n)
    requires g'.kinds == Released(g.kinds, i, n) && ReleasedTo(st, st', g, i, n)
    requires LiveOk(st, maps, g.kinds, start, live) && NoneEmpty(st, maps, g.kinds)
    ensures LiveOk(st', maps, g'.kinds, start, WithoutRun(live, start, i)) && NoneEmpty(st', maps, g'.kinds)
  {
    hide *;
    InvSizes(st, maps, g);
    InvSizes(st', maps, g');
    RunsSound(st, maps, g);
    ButNone(st, maps, g.kinds, i);
    ReleasedBlocks(st, maps, g, st', i, n);
    LiveMoves(st, maps, g, st', maps, g', start, live, Yes(Whole(i)), No);
    RunGone(g.kinds, g'.kinds, start, live, i);
  }

  /** Live blocks after a free run was given back once more: the same. */
  lemma StillFree(st: Store, maps: seq<seq<nat>>, g: Plan, st': Store, g': Plan, i: nat, n: nat, start: nat,
      live: map<nat, nat>)
    requires Inv(st, maps, g) && Inv(st', maps, g') && i < |g.kinds| && g.kinds[i] == FreeRun(n)
    requires g'.kinds == g.kinds && ReleasedTo(st, st', g, i, n)
    requires LiveOk(st, maps, g.kinds, start, live) && NoneEmpty(st, maps, g.kinds)
    ensures LiveOk(st', maps, g'.kinds, start, live) && NoneEmpty(st', maps, g'.kinds)
  {
    hide *;
    InvSizes(st, maps, g);
    InvSizes(st', maps, g');
    RunsSound(st, maps, g);
    NothingMoves(st, maps, g, st', i, n);
    LiveMoves(st, maps, g, st', maps, g', start, live, No, No);
    RunGone(g.kinds, g'.kinds, start, live, i);
  }

  lemma NothingMoves(st: Store, maps: seq<seq<nat>>, g: Plan, st': Store, i: nat, n: nat)
    requires Sizes(st, maps, g) && RunsOk(g.kinds) && i < |g.kinds| && g.kinds[i] == FreeRun(n)
    requires ReleasedTo(st, st', g, i, n) && NoneEmpty(st, maps, g.kinds)
    ensures BlocksMove(st, maps, g.kinds, st', maps, g.kinds, No, No) && NoneEmpty(st', maps, g.kinds)
  {
    hide Taken, Count, Reserved, Size, Occupied;
    assert RunOk(g.kinds, i);
    assert forall j :: 0 <= j < |g.kinds| && g.kinds[j].Chunks? ==> st'.pages[j].slab == st.pages[j].slab;
    forall b ensures StillThere(st, maps, g.kinds, st', maps, g.kinds, No, No, b) {}
  }

  /** Live blocks after an emptied chunk page was given back: the same. */
  lemma PageDead(st: Store, maps: seq<seq<nat>>, g: Plan, st': Store, g': Plan, i: nat, s: nat, start: nat,
      live: map<nat, nat>)
    requires Inv(st, maps, g) && Inv(st', maps, g') && i < |g.kinds| && g.kinds[i] == Chunks(s)
    requires !Occupied(st.pages[i].slab, maps[i], s)
    requires g'.kinds == Released(g.kinds, i, 1) && ReleasedTo(st, st', g, i, 1)
    requires LiveOk(st, maps, g.kinds, start, live) && NoneEmptyBut(st, maps, g.kinds, i)
    ensures LiveOk(st', maps, g'.kinds, start, live) && NoneEmpty(st', maps, g'.kinds)
  {
    hide *;
    InvSizes(st, maps, g);
    InvSizes(st', maps, g');
    RunsSound(st, maps, g);
    ReleasedBlocks(st, maps, g, st', i, 1);
    LiveMoves(st, maps, g, st', maps, g', start, live, No, No);
    RunGone(g.kinds, g'.kinds, start, live, i);
  }

  lemma ButNone(st: Store, maps: seq<seq<nat>>, kinds: seq<Kind>, i: nat)
    requires |maps| == |st.pages| == |kinds|
    ensures NoneEmpty(st, maps, kinds) ==> NoneEmptyBut(st, maps, kinds, i)
    ensures i < |kinds| && kinds[i].Chunks? && Occupied(st.pages[i].slab, maps[i], kinds[i].shift)
      && NoneEmptyBut(st, maps, kinds, i)
      ==> NoneEmpty(st, maps, kinds)
  {
    hide Occupied;
  }

  lemma ReleasedBlocks(st: Store, maps: seq<seq<nat>>, g: Plan, st': Store, i: nat, n: nat)
    requires Sizes(st, maps, g) && RunsOk(g.kinds) && i < |g.kinds| && ReleasedTo(st, st', g, i, n)
    requires g.kinds[i] == UsedRun(n) || (g.kinds[i].Chunks? && n == 1
      && !Occupied(st.pages[i].slab, maps[i], g.kinds[i].shift))
    ensures BlocksMove(st, maps, g.kinds, st', maps, Released(g.kinds, i, n), if g.kinds[i].UsedRun? then Yes(Whole(i))
      else No, No)
    ensures NoneEmptyBut(st, maps, g.kinds, i) ==> NoneEmpty(st', maps, Released(g.kinds, i, n))
  {
    hide Occupied, Taken, BlocksMove;
    ReleasedMoves(st, maps, g, st', i, n);
  }

  lemma RunGone(kinds: seq<Kind>, kinds': seq<Kind>, start: nat, live: map<nat, nat>, i: nat)
    requires i < |kinds|
    ensures Moved(kinds, kinds', start, live, Yes(Whole(i)), No) == WithoutRun(live, start, i)
    ensures Moved(kinds, kinds', start, live, No, No) == live
  {
  }

  lemma StillOccupied(st: Store, maps: seq<seq<nat>>, kinds: seq<Kind>, st': Store, maps': seq<seq<nat>>, i: nat)
    requires |kinds| == |maps| && SameBits(st, maps, st', maps', i) && NoneEmpty(st, maps, kinds)
    ensures NoneEmptyBut(st', maps', kinds, i)
  {
    hide Occupied;
  }

  lemma PushBits(st: Store, i: nat, head: Ref, next: Ref, tag: nat)
    requires i < |st.pages| && Points(st, head) && Points(st, next)
    ensures forall j :: 0 <= j < |st.pages| ==> Insert(st, i, head, next, tag).pages[j].slab == st.pages[j].slab
  {
    InsertKeeps(st, i, head, next, tag);
  }

  /** The bit of chunk `k` of page `i` cleared, the page put on its list first or not. */
  lemma ClearedBits(st: Store, maps: seq<seq<nat>>, g: Plan, st1: Store, i: nat, s: nat, k: nat)
    requires Inv(st, maps, g) && i < |st.pages| && g.kinds[i] == Chunks(s) && Reserved(s) <= k < Count(s)
    requires |st1.pages| == |st.pages| && forall j :: 0 <= j < |st.pages| ==> st1.pages[j].slab == st.pages[j].slab
    ensures var st', maps' := With(st1, At(i), Repainted(st1.pages[i], s, k, false)),
      maps[i := MarkWords(maps[i], s, k, false)];
      && SameBits(st, maps, st', maps', i)
      && (forall j :: 0 <= j < Count(s) ==>
           (Taken(st'.pages[i].slab, maps'[i], s, j) <==> j != k && Taken(st.pages[i].slab, maps[i], s, j)))
      && HasFree(st'.pages[i].slab, maps'[i], s)
    ensures HasFree(Repainted(st1.pages[i], s, k, false).slab, MarkWords(maps[i], s, k, false), s)
  {
    assert PageOk(st.pages[i], maps[i], g.kinds[i]);
    hide ListOk, Chain, RunsOk, Taken;
    Marked(st.pages[i].slab, maps[i], s, k, false);
    assert !Taken(MarkSlab(st.pages[i].slab, s, k, false), MarkWords(maps[i], s, k, false), s, k);
  }

  // ---------------------------------------------------------------- pointers given back

  /** The page a pointer is in, whether it is at a chunk of size `Size(s)`, and at which of its page. */
  function PageOf(start: nat, p: nat): nat
    requires start <= p
  {
    (p - start) / PAGE_SIZE
  }

  predicate AtChunk(p: nat, s: nat) { p % Size(s) == 0 }

  function ChunkOf(p: nat, s: nat): nat { p % PAGE_SIZE / Size(s) }

  /** A pointer the checks of `slab_dealloc` take for a block though it is none: the start of a free run,
      or a chunk that the bitmap of its page takes up. */
  ghost predicate Stray(kinds: seq<Kind>, start: nat, p: nat)
    requires start <= p && PageOf(start, p) < |kinds|
  {
    match kinds[PageOf(start, p)]
    case FreeRun(_) => p % PAGE_SIZE == 0
    case Chunks(s) => InBitmap(kinds, start, p)
    case _ => false
  }

  /** A pointer at a chunk that the bitmap of its page takes up. */
  ghost predicate InBitmap(kinds: seq<Kind>, start: nat, p: nat)
    requires start <= p && PageOf(start, p) < |kinds|
  {
    match kinds[PageOf(start, p)]
    case Chunks(s) => AtChunk(p, s) && ChunkOf(p, s) < Reserved(s)
    case _ => false
  }

  lemma ShiftedRemainder(q: nat, o: nat, n: nat, z: nat)
    requires n > 0 && z > 0 && n * z == PAGE_SIZE
    ensures (PAGE_SIZE * q + o) % z == o % z
  {
    Associate(q, n, z);
    Distribute(q * n, o / z, z);
    ModUnique(PAGE_SIZE * q + o, z, q * n + o / z, o % z);
  }

  lemma InPageRemainder(o: nat, n: nat, z: nat)
    requires n > 0 && z > 0 && n * z == PAGE_SIZE
    ensures o % PAGE_SIZE / z < n
    ensures o % z == 0 ==> PAGE_SIZE * (o / PAGE_SIZE) + (o % PAGE_SIZE / z) * z == o
  {
    var r := o % PAGE_SIZE;
    var k, t := r / z, r % z;
    assert r == k * z + t;
    if k >= n { AtLeast(k, n, z); }
    var i := o / PAGE_SIZE;
    Associate(i, n, z);
    Distribute(i * n, k, z);
    ModUnique(o, z, i * n + k, t);
  }

  /** Chunk sizes divide the page size, so a pointer at a chunk is where the chunk begins. */
  lemma PointerTells(start: nat, p: nat, s: nat, z: nat, n: nat)
    requires start % PAGE_SIZE == 0 && start <= p && n > 0 && z > 0 && n * z == PAGE_SIZE
    ensures p % PAGE_SIZE / z < n && p % PAGE_SIZE == (p - start) % PAGE_SIZE
    ensures p % z == 0 <==> start + PAGE_SIZE * ((p - start) / PAGE_SIZE) + (p % PAGE_SIZE / z) * z == p
  {
    var o, q := p - start, start / PAGE_SIZE;
    assert start == PAGE_SIZE * q && p == PAGE_SIZE * q + o;
    ShiftedRemainder(q, o, n, z);
    InPageRemainder(o, n, z);
    AtMultiple(o, n, z);
    SamePlace(q, o);
  }

  lemma SamePlace(q: nat, o: nat)
    ensures (PAGE_SIZE * q + o) % PAGE_SIZE == o % PAGE_SIZE
  {
  }

  lemma AtMultiple(o: nat, n: nat, z: nat)
    requires n > 0 && z > 0 && n * z == PAGE_SIZE
    ensures o % z == 0 <==> PAGE_SIZE * (o / PAGE_SIZE) + (o % PAGE_SIZE / z) * z == o
  {
    InPageRemainder(o, n, z);
    var i, k := o / PAGE_SIZE, o % PAGE_SIZE / z;
    if PAGE_SIZE * i + k * z == o {
      Associate(i, n, z);
      Distribute(i * n, k, z);
      ModUnique(o, z, i * n + k, 0);
    }
  }

  lemma ChunkTells(start: nat, p: nat, s: nat)
    requires start % PAGE_SIZE == 0 && start <= p && IsShift(s)
    ensures ChunkOf(p, s) < Count(s) && ChunkOf(p, s) == ChunkOf(p - start, s)
    ensures AtChunk(p, s) <==> ChunkAddr(start, PageOf(start, p), s, ChunkOf(p, s)) == p
  {
    Measures(s);
    PointerTells(start, p, s, Size(s), Count(s));
    hide Size, Count;
  }

  lemma LiveIff(st: Store, maps: seq<seq<nat>>, kinds: seq<Kind>, start: nat, live: map<nat, nat>, p: nat)
    requires |maps| == |st.pages| == |kinds| && LiveOk(st, maps, kinds, start, live)
    ensures p in live <==> LiveAt(st, maps, kinds, start, p)
  {
    hide LiveAt, Taken;
    if LiveAt(st, maps, kinds, start, p) { LiveIfAt(st, maps, kinds, start, live, p); }
    hide AllListed;
  }

  lemma LiveIfAt(st: Store, maps: seq<seq<nat>>, kinds: seq<Kind>, start: nat, live: map<nat, nat>, p: nat)
    requires |maps| == |st.pages| == |kinds| && AllListed(st, maps, kinds, start, live)
      && LiveAt(st, maps, kinds, start, p)
    ensures p in live
  {
    hide Taken, Size, Count, Reserved, Extent, Offset, BlockAt;
    assert IsBlock(st, maps, kinds, BlockAt(kinds, p - start));
  }

  lemma LiveAtPart(st: Store, maps: seq<seq<nat>>, kinds: seq<Kind>, start: nat, p: nat, s: nat)
    requires |maps| == |st.pages| == |kinds| && start <= p && PageOf(start, p) < |kinds|
      && kinds[PageOf(start, p)] == Chunks(s)
    ensures var i, k := PageOf(start, p), ChunkOf(p - start, s);
      LiveAt(st, maps, kinds, start, p) <==>
        Reserved(s) <= k < Count(s) && Taken(st.pages[i].slab, maps[i], s, k) && ChunkAddr(start, i, s, k) == p
  {
    hide Taken, Size, Count, Reserved;
  }

  lemma LiveAtRun(st: Store, maps: seq<seq<nat>>, kinds: seq<Kind>, start: nat, p: nat)
    requires |maps| == |st.pages| == |kinds| && start <= p && PageOf(start, p) < |kinds|
      && !kinds[PageOf(start, p)].Chunks?
    ensures LiveAt(st, maps, kinds, start, p) <==>
      kinds[PageOf(start, p)].UsedRun?
      && PageAddr(start, PageOf(start, p)) == p
  {
  }

  /** Into a chunk page: the checks are that the pointer is at a chunk, and the chunk's bit. */
  lemma ChunkAdmits(st: Store, maps: seq<seq<nat>>, g: Plan, start: nat, live: map<nat, nat>, p: nat, s: nat)
    requires Inv(st, maps, g) && LiveOk(st, maps, g.kinds, start, live) && start % PAGE_SIZE == 0 && start <= p
    requires PageOf(start, p) < |g.kinds| && g.kinds[PageOf(start, p)] == Chunks(s)
    ensures PageOf(start, p) < |st.pages| == |maps| && IsShift(s)
    ensures var i, k := PageOf(start, p), ChunkOf(p, s);
      && k < Count(s)
      && (AtChunk(p, s) && Taken(st.pages[i].slab, maps[i], s, k) <==> p in live || Stray(g.kinds, start, p))
      && (p in live ==> Reserved(s) <= k && Taken(st.pages[i].slab, maps[i], s, k) && ChunkAddr(start, i, s, k) == p)
  {
    hide *;
    InvSizes(st, maps, g);
    ReservedTaken(st, maps, g, PageOf(start, p), s);
    ChunkTells(start, p, s);
    LiveIff(st, maps, g.kinds, start, live, p);
    LiveAtPart(st, maps, g.kinds, start, p, s);
    StrayPart(g.kinds, start, p, s);
  }

  lemma StrayPart(kinds: seq<Kind>, start: nat, p: nat, s: nat)
    requires start <= p && PageOf(start, p) < |kinds| && kinds[PageOf(start, p)] == Chunks(s)
    ensures Stray(kinds, start, p) <==> AtChunk(p, s) && ChunkOf(p, s) < Reserved(s)
  {
  }

  lemma ReservedTaken(st: Store, maps: seq<seq<nat>>, g: Plan, i: nat, s: nat)
    requires Inv(st, maps, g) && i < |g.kinds| && g.kinds[i] == Chunks(s)
    ensures i < |st.pages| && i < |maps| && IsShift(s)
    ensures forall k :: 0 <= k < Reserved(s) ==> Taken(st.pages[i].slab, maps[i], s, k)
  {
    assert PageOk(st.pages[i], maps[i], g.kinds[i]);
  }

  /** Into any other page: the pointer is at the page, and its descriptor is that of the head of a run. */
  lemma RunAdmits(st: Store, maps: seq<seq<nat>>, g: Plan, start: nat, live: map<nat, nat>, p: nat)
    requires Inv(st, maps, g) && LiveOk(st, maps, g.kinds, start, live) && start % PAGE_SIZE == 0 && start <= p
    requires PageOf(start, p) < |g.kinds| < 0x1_0000_0000 && !g.kinds[PageOf(start, p)].Chunks?
    ensures PageOf(start, p) < |st.pages| && st.pages[PageOf(start, p)].tag == SLAB_PAGE
    ensures RunHead_(st.pages[PageOf(start, p)], p) <==> p in live || Stray(g.kinds, start, p)
    ensures p in live ==> var i := PageOf(start, p);
      g.kinds[i].UsedRun? && st.pages[i].slab == g.kinds[i].n + SLAB_PAGE_START && p == PageAddr(start, i)
  {
    hide *;
    InvSizes(st, maps, g);
    LiveIff(st, maps, g.kinds, start, live, p);
    LiveAtRun(st, maps, g.kinds, start, p);
    RunOrStray(st, maps, g, start, p);
  }

  predicate RunHead_(page: Page, p: nat) { p % PAGE_SIZE == 0 && page.slab != 0 && page.slab != SLAB_PAGE_BUSY }

  /** Among chunks the strays are those of the bitmap; among runs, the first pages of free ones. */
  lemma StrayIs(kinds: seq<Kind>, start: nat, p: nat)
    requires start <= p && PageOf(start, p) < |kinds|
    ensures kinds[PageOf(start, p)].Chunks? ==> (Stray(kinds, start, p) <==> InBitmap(kinds, start, p))
    ensures !kinds[PageOf(start, p)].Chunks? ==> !InBitmap(kinds, start, p)
  {
  }

  /** A live block of eight bytes is a chunk of a page that has its bitmap in it. */
  lemma SmallestInPage(st: Store, maps: seq<seq<nat>>, g: Plan, start: nat, live: map<nat, nat>, p: nat)
    requires Inv(st, maps, g) && LiveOk(st, maps, g.kinds, start, live) && p in live && live[p] == 8
    ensures start <= p && PageOf(start, p) < |g.kinds| && g.kinds[PageOf(start, p)] == Chunks(3)
  {
    hide *;
    InvSizes(st, maps, g);
    LiveIff(st, maps, g.kinds, start, live, p);
    LiveFrom(st, maps, g.kinds, start, p);
    var b := LiveBlock(st, maps, g.kinds, start, live, p);
    OffsetTells(st, maps, g, b);
    OfEight(st, maps, g, b);
    assert b.i == PageOf(start, p) by { WhichPage(start, p, Offset(g.kinds, b)); }
  }

  lemma LiveFrom(st: Store, maps: seq<seq<nat>>, kinds: seq<Kind>, start: nat, p: nat)
    requires |maps| == |st.pages| == |kinds| && LiveAt(st, maps, kinds, start, p)
    ensures start <= p && PageOf(start, p) < |kinds|
  {
  }

  lemma WhichPage(start: nat, p: nat, offset: nat)
    requires start + offset == p
    ensures PageOf(start, p) == offset / PAGE_SIZE
  {
  }

  lemma OfEight(st: Store, maps: seq<seq<nat>>, g: Plan, b: Block)
    requires Inv(st, maps, g) && IsBlock(st, maps, g.kinds, b) && Extent(g.kinds, b) == 8
    ensures b.i < |g.kinds| && g.kinds[b.i] == Chunks(3)
  {
    BlockSize(st, maps, g, b);
    assert RunOk(g.kinds, b.i);
    hide Inv, RunsOk;
  }

  /** The first chunk of such a page is the bitmap's, and no block. */
  lemma BitmapIsStray(st: Store, maps: seq<seq<nat>>, g: Plan, start: nat, live: map<nat, nat>, i: nat)
    requires Inv(st, maps, g) && LiveOk(st, maps, g.kinds, start, live) && start % PAGE_SIZE == 0
    requires i < |g.kinds| && g.kinds[i] == Chunks(3)
    ensures var q := PageAddr(start, i); PageOf(start, q) == i && InBitmap(g.kinds, start, q) && q !in live
  {
    hide Inv, LiveOk, LiveAt, PageAddr, PageOf;
    var q := PageAddr(start, i);
    PageBegins(start, i);
    InvSizes(st, maps, g);
    LiveIff(st, maps, g.kinds, start, live, q);
    LiveAtPart(st, maps, g.kinds, start, q, 3);
  }

  lemma PageBegins(start: nat, i: nat)
    requires start % PAGE_SIZE == 0
    ensures var q := PageAddr(start, i); PageOf(start, q) == i && q % PAGE_SIZE == 0 && q % 8 == 0 && start <= q
  {
    WholePages(start / PAGE_SIZE + i);
    WholePages(i);
  }

  lemma WholePages(n: nat)
    ensures PAGE_SIZE * n / PAGE_SIZE == n && PAGE_SIZE * n % PAGE_SIZE == 0 && PAGE_SIZE * n % 8 == 0
  {
  }

  /** What a run that passes the checks is, and how long. */
  lemma RunTells(st: Store, maps: seq<seq<nat>>, g: Plan, start: nat, live: map<nat, nat>, p: nat)
    requires Inv(st, maps, g) && LiveOk(st, maps, g.kinds, start, live) && start % PAGE_SIZE == 0 && start <= p
    requires PageOf(start, p) < |g.kinds| < 0x1_0000_0000 && !g.kinds[PageOf(start, p)].Chunks?
    requires p in live || Stray(g.kinds, start, p)
    ensures PageOf(start, p) < |st.pages|
    ensures var i := PageOf(start, p);
      && (p in live <==> g.kinds[i].UsedRun?) && (p in live ==> p == PageAddr(start, i))
      && g.kinds[i] == if st.pages[i].slab >= SLAB_PAGE_START then UsedRun(st.pages[i].slab - SLAB_PAGE_START)
        else FreeRun(st.pages[i].slab)
  {
    var i := PageOf(start, p);
    RunAdmits(st, maps, g, start, live, p);
    LiveIff(st, maps, g.kinds, start, live, p);
    LiveAtRun(st, maps, g.kinds, start, p);
    assert PageOk(st.pages[i], maps[i], g.kinds[i]) && RunOk(g.kinds, i);
    hide ListOk, Chain, RunsOk, PagesOk, LiveOk;
  }

  lemma RunOrStray(st: Store, maps: seq<seq<nat>>, g: Plan, start: nat, p: nat)
    requires Inv(st, maps, g) && start % PAGE_SIZE == 0 && start <= p
    requires PageOf(start, p) < |g.kinds| < 0x1_0000_0000 && !g.kinds[PageOf(start, p)].Chunks?
    ensures var i := PageOf(start, p);
      && i < |st.pages| && st.pages[i].tag == SLAB_PAGE
      && (RunHead_(st.pages[i], p) <==> (g.kinds[i].UsedRun? && PageAddr(start, i) == p) || Stray(g.kinds, start, p))
      && (g.kinds[i].UsedRun? ==> st.pages[i].slab == g.kinds[i].n + SLAB_PAGE_START)
  {
    var i := PageOf(start, p);
    assert PageOk(st.pages[i], maps[i], g.kinds[i]) && RunOk(g.kinds, i);
    hide ListOk, Chain, RunsOk, PagesOk;
  }
}
