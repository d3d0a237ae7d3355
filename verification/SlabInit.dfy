/** How `slab_init` lays a pool out over the memory it is given, in the widths the code computes in. */
module SlabInit {
  import opened SlabShape
  import opened Slab

  const POOL_BYTES := 80          // sizeof(slab_pool_t)
  const DESCRIPTOR_BYTES := 24    // sizeof(slab_page_t)

  /** A page and its descriptor. */
  const ONE_PAGE := PAGE_SIZE + DESCRIPTOR_BYTES

  const WORD32 := 0x1_0000_0000
  const WORD64 := 0x1_0000_0000_0000_0000

  /** A 64-bit difference, and an `int` made of the low 32 bits of one. */
  function Unsigned64(x: int): nat { x % WORD64 }

  function Int32(x: int): int { if x % WORD32 < WORD32 / 2 then x % WORD32 else x % WORD32 - WORD32 }

  function AlignUp(p: nat): nat { (p + (PAGE_SIZE - 1)) / PAGE_SIZE * PAGE_SIZE }

  /** The pages hoped for, the address of the page area, and the pages kept. */
  function Hoped(size: nat): nat
    requires size >= POOL_BYTES
  {
    (size - POOL_BYTES) / (PAGE_SIZE + DESCRIPTOR_BYTES) % WORD32
  }

  function Start(addr: nat, size: nat): nat
    requires size >= POOL_BYTES
  {
    AlignUp(addr + POOL_BYTES + SLOTS * DESCRIPTOR_BYTES + Hoped(size) * DESCRIPTOR_BYTES)
  }

  function Kept(addr: nat, size: nat): nat
    requires size >= POOL_BYTES
  {
    var m := Int32(Hoped(size) - Unsigned64(addr + size - Start(addr, size)) / PAGE_SIZE);
    if m > 0 then (Hoped(size) - m) % WORD32 else Hoped(size)
  }

  /** The pages the free list is given lie inside the memory exactly when the page area begins there.
      The size is one whose page count fits the 32 bits it is kept in. */
  lemma PagesFit(addr: nat, size: nat)
    requires POOL_BYTES + PAGE_SIZE <= size < PAGE_SIZE * WORD32
    ensures Start(addr, size) + PAGE_SIZE * Kept(addr, size) <= addr + size <==> Start(addr, size) <= addr + size
    ensures Start(addr, size) <= addr + size ==> Kept(addr, size) <= Hoped(size)
  {
    var n, start, end := Hoped(size), Start(addr, size), addr + size;
    HopedIs(size);
    StartIs(addr, size);
    if start <= end {
      RoomIs(addr, size);
      assert Unsigned64(end - start) == end - start by { hide Hoped, Start; }
      hide Hoped, Start;
    } else {
      var d := start - end;
      hide Hoped, Start;
      assert n <= 1 && 0 < d < 2 * PAGE_SIZE;
      assert Unsigned64(end - start) == WORD64 - d;
    }
  }

  /** No page count below this size is cut. */
  lemma HopedIs(size: nat)
    requires POOL_BYTES + PAGE_SIZE <= size < PAGE_SIZE * WORD32
    ensures var n := Hoped(size);
      n < WORD32 && (PAGE_SIZE + DESCRIPTOR_BYTES) * n <= size - POOL_BYTES < (PAGE_SIZE + DESCRIPTOR_BYTES) * (n + 1)
  {
  }

  lemma StartIs(addr: nat, size: nat)
    requires size >= POOL_BYTES
    ensures var p := addr + POOL_BYTES + SLOTS * DESCRIPTOR_BYTES + Hoped(size) * DESCRIPTOR_BYTES;
      p <= Start(addr, size) < p + PAGE_SIZE && Start(addr, size) % PAGE_SIZE == 0
  {
    hide Hoped;
  }

  /** The whole pages between the start of the page area and the end of the memory are at most two fewer
      than hoped for. */
  lemma RoomIs(addr: nat, size: nat)
    requires POOL_BYTES + PAGE_SIZE <= size < PAGE_SIZE * WORD32 && Start(addr, size) <= addr + size
    ensures Hoped(size) - 2 <= (addr + size - Start(addr, size)) / PAGE_SIZE <= Hoped(size)
    ensures 0 <= addr + size - Start(addr, size) < WORD64
  {
    HopedIs(size);
    StartIs(addr, size);
    hide Hoped, Start;
    Pages(addr + size - Start(addr, size), Hoped(size));
  }

  lemma Pages(bytes: nat, n: nat)
    requires PAGE_SIZE * n < bytes + 2 * PAGE_SIZE && bytes < PAGE_SIZE * n + PAGE_SIZE
    ensures n - 2 <= bytes / PAGE_SIZE <= n
  {
  }

  /** A pool one page long at an unlucky address: the page area would begin past its end, and the free
      list is told of 2^32 - 1 pages. */
  lemma TooManyPages()
    ensures var addr, size := 0x10ee0, POOL_BYTES + PAGE_SIZE;
      addr % 16 == 0 && Start(addr, size) > addr + size && Kept(addr, size) == WORD32 - 1
  {
    var addr, size := 0x10ee0, POOL_BYTES + PAGE_SIZE;
    assert Hoped(size) == 0;
    assert Start(addr, size) == 0x12000;
    hide Hoped, Start;
    assert Unsigned64(addr + size - 0x12000) == WORD64 - 0xd0;
  }

  /** What comes of the memory given: nothing, a page area past its end, an area without a page, or a pool. */
  datatype Outcome = Refused | PastEnd | NoPages | Made(pool: SlabPool)

  /** `slab_init`: the pool manages whole pages inside the memory it was given, behind its own head. */
  method Init(addr: nat, size: nat) returns (r: Outcome)
    requires addr + size < WORD64 && size < PAGE_SIZE * WORD32
    ensures r.Refused? <==> size < POOL_BYTES + PAGE_SIZE
    ensures !r.Refused? ==> (r.PastEnd? <==> Start(addr, size) > addr + size)
    ensures !r.Refused? && !r.PastEnd? ==> (r.NoPages? <==> addr + size < Start(addr, size) + PAGE_SIZE)
    ensures r.Made? ==> r.pool.Valid() && fresh(r.pool) && r.pool.live == map[]
    ensures r.Made? ==> addr + POOL_BYTES + DESCRIPTOR_BYTES * (SLOTS + r.pool.pages.Length) <= r.pool.start
    ensures r.Made? ==> var start, n := r.pool.start, r.pool.pages.Length;
      start + PAGE_SIZE * n <= addr + size < start + PAGE_SIZE * (n + 1)
    ensures r.Made? ==> var head := POOL_BYTES + DESCRIPTOR_BYTES * (SLOTS + (size - POOL_BYTES) / ONE_PAGE);
      addr + head <= r.pool.start < addr + head + PAGE_SIZE
  {
    hide Hoped, Start, Kept, Unsigned64, Int32, AlignUp;
    if size < POOL_BYTES + PAGE_SIZE {
      return Refused;
    }
    if Start(addr, size) > addr + size {
      return PastEnd;
    }
    PagesFill(addr, size);
    if Kept(addr, size) == 0 {
      return NoPages;
    }
    var pool := new SlabPool(Start(addr, size), Kept(addr, size));
    r := Made(pool);
  }

  /** The pages kept fill the memory from their start, and begin less than a page behind the descriptors. */
  lemma PagesFill(addr: nat, size: nat)
    requires POOL_BYTES + PAGE_SIZE <= size < PAGE_SIZE * WORD32 && addr + size < WORD64
    requires Start(addr, size) <= addr + size
    ensures var start, n := Start(addr, size), Kept(addr, size);
      && n < WORD32 && start % PAGE_SIZE == 0 && start + PAGE_SIZE * n <= addr + size < start + PAGE_SIZE * (n + 1)
      && addr + POOL_BYTES + DESCRIPTOR_BYTES * (SLOTS + n) <= start
    ensures var head := POOL_BYTES + DESCRIPTOR_BYTES * (SLOTS + (size - POOL_BYTES) / ONE_PAGE);
      addr + head <= Start(addr, size) < addr + head + PAGE_SIZE
  {
    KeptIs(addr, size);
    StartIs(addr, size);
    assert Hoped(size) == (size - POOL_BYTES) / ONE_PAGE by { HopedWhole(size); }
    hide Hoped, Start, Kept;
    Remainder(addr + size - Start(addr, size));
  }

  lemma HopedWhole(size: nat)
    requires POOL_BYTES + PAGE_SIZE <= size < PAGE_SIZE * WORD32
    ensures Hoped(size) == (size - POOL_BYTES) / ONE_PAGE
  {
  }

  lemma Remainder(bytes: nat)
    ensures PAGE_SIZE * (bytes / PAGE_SIZE) <= bytes < PAGE_SIZE * (bytes / PAGE_SIZE + 1)
  {
  }

  /** With the page area inside the memory, the pages kept are those that fit between it and the end. */
  lemma KeptIs(addr: nat, size: nat)
    requires POOL_BYTES + PAGE_SIZE <= size < PAGE_SIZE * WORD32 && addr + size < WORD64
    requires Start(addr, size) <= addr + size
    ensures Kept(addr, size) == (addr + size - Start(addr, size)) / PAGE_SIZE <= Hoped(size) < WORD32
    ensures Start(addr, size) % PAGE_SIZE == 0
    ensures addr + POOL_BYTES + DESCRIPTOR_BYTES * (SLOTS + Hoped(size)) <= Start(addr, size)
  {
    HopedIs(size);
    StartIs(addr, size);
    RoomIs(addr, size);
    hide Hoped, Start;
    assert Unsigned64(addr + size - Start(addr, size)) == addr + size - Start(addr, size);
  }
}
