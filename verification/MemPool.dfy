/** The bump allocator of `mem_pool.c`: a chain of blocks, each handed out from its start to its end. */
module MemPool {
  import opened Records

  const PTR: nat := 8
  const WORD: nat := 0x1_0000_0000_0000_0000
  const POOL_HEAD: nat := 56
  const BLOCK_HEAD: nat := 32
  const MAX_SMALL: nat := 4095

  /** `mem_align_ptr`. */
  function Align(p: nat): nat { (p + PTR - 1) / PTR * PTR }

  /** The test of `mem_pool_alloc`, whose difference is taken as an unsigned word. */
  predicate Passes(end: nat, m: nat, size: nat) { (end - m) % WORD >= size }

  /** It is the right test for every place in a block exactly when the block ends on a boundary. */
  lemma PassesIsRight(end: nat)
    requires PTR <= end < WORD - PTR
    ensures (forall last: nat, size: nat :: last <= end && 0 < size <= MAX_SMALL ==>
               (Passes(end, Align(last), size) <==> Align(last) + size <= end)) <==> end % PTR == 0
  {
    if end % PTR == 0 {
      forall last: nat, size: nat | last <= end && 0 < size <= MAX_SMALL
        ensures Passes(end, Align(last), size) <==> Align(last) + size <= end
      {
        AlignWithin(last, end);
      }
    } else {
      assert Align(end) > end && end - Align(end) >= -(PTR as int);
      assert Passes(end, Align(end), 1);
    }
  }

  lemma AlignWithin(last: nat, end: nat)
    requires last <= end && end % PTR == 0
    ensures last <= Align(last) <= end && Align(last) % PTR == 0
  {
  }

  /** One block. The next one in the chain is the next in the sequence. */
  datatype Block = Block(base: nat, last: nat, end: nat, failed: nat)

  /** A chunk handed out, and the block it lies in. */
  datatype Chunk = Chunk(addr: nat, size: nat, home: nat)

  ghost predicate Sound(b: Block, psize: nat) {
    && b.base % 16 == 0 && psize % PTR == 0 && b.end == b.base + psize < WORD - PTR
    && b.base + BLOCK_HEAD <= b.last <= b.end
  }

  /** Where the next chunk of a block begins. */
  function Place(b: Block, aligned: bool): nat { if aligned then Align(b.last) else b.last }

  predicate Room(b: Block, size: nat, aligned: bool) { Place(b, aligned) + size <= b.end }

  ghost predicate NoRoom(blocks: seq<Block>, current: nat, size: nat, aligned: bool) {
    forall j :: current <= j < |blocks| ==> !Room(blocks[j], size, aligned)
  }

  /** Block `i` is the first from `current` on that has room. */
  ghost predicate FirstFit(blocks: seq<Block>, current: nat, i: nat, size: nat, aligned: bool) {
    && current <= i < |blocks| && Room(blocks[i], size, aligned)
    && forall j :: current <= j < i ==> !Room(blocks[j], size, aligned)
  }

  ghost predicate Apart(a: Block, b: Block) { a.end <= b.base || b.end <= a.base }

  ghost predicate Inside(blocks: seq<Block>, c: Chunk) {
    c.home < |blocks| && blocks[c.home].base + BLOCK_HEAD <= c.addr && c.addr + c.size <= blocks[c.home].last
  }

  ghost predicate Disjoint(c: Chunk, d: Chunk) { c.addr + c.size <= d.addr || d.addr + d.size <= c.addr }

  class Pool {
    const psize: nat
    const max: nat
    var blocks: seq<Block>
    var current: nat
    /** What was handed out since the last reset. */
    ghost var chunks: seq<Chunk>

    ghost predicate Valid()
      reads this
    {
      && current < |blocks| && POOL_HEAD + max <= psize
      && (forall i :: 0 <= i < |blocks| ==> Sound(blocks[i], psize))
      && (forall i, j :: 0 <= i < j < |blocks| ==> Apart(blocks[i], blocks[j]))
      && (forall k :: 0 <= k < |chunks| ==> Inside(blocks, chunks[k]))
      && forall k, l :: 0 <= k < l < |chunks| ==> Disjoint(chunks[k], chunks[l])
    }

    /** `mem_pool_creat`, for memory at `p` and a size that ends on a boundary. */
    constructor (p: nat, size: nat)
      requires p % 16 == 0 && size % PTR == 0 && size >= POOL_HEAD && p + size < WORD - PTR
      ensures Valid() && chunks == [] && blocks == [Block(p, p + POOL_HEAD, p + size, 0)]
    {
      psize := size;
      max := if size - POOL_HEAD < MAX_SMALL then size - POOL_HEAD else MAX_SMALL;
      blocks := [Block(p, p + POOL_HEAD, p + size, 0)];
      current, chunks := 0, [];
    }

    /** A new chunk at or after `last` in block `i` overlaps nothing. */
    lemma NewIsApart(i: nat, m: nat, size: nat)
      requires Valid() && i < |blocks| && blocks[i].last <= m && m + size <= blocks[i].end
      ensures var c := Chunk(m, size, i);
        && (forall k :: 0 <= k < |chunks| ==> Disjoint(chunks[k], c))
        && Inside(blocks[i := blocks[i].(last := m + size)], c)
        && forall k :: 0 <= k < |chunks| ==> Inside(blocks[i := blocks[i].(last := m + size)], chunks[k])
    {
      forall k | 0 <= k < |chunks|
        ensures Disjoint(chunks[k], Chunk(m, size, i)) && Inside(blocks[i := blocks[i].(last := m + size)], chunks[k])
      {
        var c := chunks[k];
        assert Inside(blocks, c);
        assert Sound(blocks[i], psize) && Sound(blocks[c.home], psize);
        if c.home < i {
          assert Apart(blocks[c.home], blocks[i]);
        } else if c.home > i {
          assert Apart(blocks[i], blocks[c.home]);
        }
      }
      assert Sound(blocks[i], psize);
    }

    /** Part of block `i` is handed out. */
    method Take(i: nat, m: nat, size: nat)
      requires Valid() && i < |blocks| && blocks[i].last <= m && m + size <= blocks[i].end
      modifies this`blocks, this`chunks
      ensures Valid() && chunks == old(chunks) + [Chunk(m, size, i)]
      ensures blocks == old(blocks)[i := old(blocks[i]).(last := m + size)]
    {
      NewIsApart(i, m, size);
      assert Sound(blocks[i], psize);
      blocks := blocks[i := blocks[i].(last := m + size)];
      chunks := chunks + [Chunk(m, size, i)];
    }

    lemma Current()
      requires Valid()
      ensures current < |blocks|
    {
    }

    /** The test of the code finds room in a block exactly when there is, at either place. */
    lemma Tested(i: nat, size: nat)
      requires Valid() && i < |blocks| && size <= max
      ensures var b := blocks[i]; var a := Align(b.last);
        && b.last <= a && a % PTR == 0 && Place(b, true) == a && Place(b, false) == b.last
        && (Passes(b.end, a, size) <==> Room(b, size, true)) && (Room(b, size, true) ==> a + size <= b.end)
        && (Passes(b.end, b.last, size) <==> Room(b, size, false)) && (Room(b, size, false) ==> b.last + size <= b.end)
    {
      assert Sound(blocks[i], psize);
      AlignWithin(blocks[i].last, blocks[i].end);
      hide Align;
    }

    lemma First(was: seq<Block>, from: nat, i: nat, size: nat, aligned: bool)
      requires from <= i < |was| && Room(was[i], size, aligned)
      requires forall j :: from <= j < i ==> !Room(was[j], size, aligned)
      ensures FirstFit(was, from, i, size, aligned) && !NoRoom(was, from, size, aligned)
    {
    }

    lemma Full(was: seq<Block>, from: nat, size: nat, aligned: bool)
      requires forall j :: from <= j < |was| ==> !Room(was[j], size, aligned)
      ensures NoRoom(was, from, size, aligned)
    {
    }

    /** `mem_pool_alloc` for a size up to `max`, with memory for one more block at `fresh` if the system has it. What it
        hands out is aligned, inside a block, and apart from everything handed out before. */
    method Alloc(size: nat, more: Option<nat>) returns (m: Option<nat>, ghost home: nat)
      requires Valid() && size <= max && (more.Some? ==> Usable(more.value))
      modifies this
      ensures Valid()
      ensures m == None <==> more == None && NoRoom(old(blocks), old(current), size, true)
      ensures m == None ==> chunks == old(chunks) && blocks == old(blocks) && current == old(current)
      ensures m.Some? ==> chunks == old(chunks) + [Chunk(m.value, size, home)]
      ensures m.Some? && NoRoom(old(blocks), old(current), size, true) ==>
        && home == |old(blocks)| && m.value == Align(more.value + BLOCK_HEAD)
        && blocks == Failed(old(blocks), old(current)) + [Block(more.value, m.value + size, more.value + psize, 0)]
        && PassedOver(old(blocks), old(current), current)
      ensures !NoRoom(old(blocks), old(current), size, true) ==>
        && FirstFit(old(blocks), old(current), home, size, true) && m == Some(Place(old(blocks)[home], true))
        && blocks == old(blocks)[home := old(blocks)[home].(last := m.value + size)] && current == old(current)
      ensures m.Some? ==> m.value % PTR == 0
    {
      hide *;
      Current();
      var i := current;
      home := |blocks|;
      while i < |blocks|
        invariant i <= |blocks| && Valid() && blocks == old(blocks) && chunks == old(chunks) && current == old(current)
        invariant forall j :: current <= j < i ==> !Room(blocks[j], size, true)
        invariant more.Some? ==> Usable(more.value)
      {
        var a := Align(blocks[i].last);
        Tested(i, size);
        if Passes(blocks[i].end, a, size) {
          Take(i, a, size);
          First(old(blocks), old(current), i, size, true);
          return Some(a), i;
        }
        i := i + 1;
      }
      Full(old(blocks), old(current), size, true);
      m := AllocBlock(size, more);
    }

    /** `mem_pool_nalloc` for a size up to `max`: the same without alignment. */
    method Nalloc(size: nat, more: Option<nat>) returns (m: Option<nat>, ghost home: nat)
      requires Valid() && size <= max && (more.Some? ==> Usable(more.value))
      modifies this
      ensures Valid()
      ensures m == None <==> more == None && NoRoom(old(blocks), old(current), size, false)
      ensures m == None ==> chunks == old(chunks) && blocks == old(blocks) && current == old(current)
      ensures m.Some? ==> chunks == old(chunks) + [Chunk(m.value, size, home)]
      ensures m.Some? && NoRoom(old(blocks), old(current), size, false) ==>
        && home == |old(blocks)| && m.value == Align(more.value + BLOCK_HEAD)
        && blocks == Failed(old(blocks), old(current)) + [Block(more.value, m.value + size, more.value + psize, 0)]
        && PassedOver(old(blocks), old(current), current)
      ensures !NoRoom(old(blocks), old(current), size, false) ==>
        && FirstFit(old(blocks), old(current), home, size, false) && m == Some(Place(old(blocks)[home], false))
        && blocks == old(blocks)[home := old(blocks)[home].(last := m.value + size)] && current == old(current)
    {
      hide *;
      Current();
      var i := current;
      home := |blocks|;
      while i < |blocks|
        invariant i <= |blocks| && Valid() && blocks == old(blocks) && chunks == old(chunks) && current == old(current)
        invariant forall j :: current <= j < i ==> !Room(blocks[j], size, false)
        invariant more.Some? ==> Usable(more.value)
      {
        var a := blocks[i].last;
        Tested(i, size);
        if Passes(blocks[i].end, a, size) {
          Take(i, a, size);
          First(old(blocks), old(current), i, size, false);
          return Some(a), i;
        }
        i := i + 1;
      }
      Full(old(blocks), old(current), size, false);
      m := AllocBlock(size, more);
    }

    /** Memory the system gives for a block: aligned, and apart from the blocks there are. */
    ghost predicate Usable(p: nat)
      reads this
    {
      && p % 16 == 0 && p + psize < WORD - PTR
      && forall i :: 0 <= i < |blocks| ==> p + psize <= blocks[i].base || blocks[i].end <= p
    }

    /** `mem_pool_alloc_block`: a new last block; blocks that failed often are passed over from now on. */
    method AllocBlock(size: nat, more: Option<nat>) returns (m: Option<nat>)
      requires Valid() && size <= max && (more.Some? ==> Usable(more.value))
      modifies this
      ensures Valid() && (m == None <==> more == None)
      ensures m == None ==> chunks == old(chunks) && blocks == old(blocks) && current == old(current)
      ensures m.Some? ==> m.value == Align(more.value + BLOCK_HEAD) && m.value % PTR == 0
      ensures m.Some? ==> chunks == old(chunks) + [Chunk(m.value, size, |old(blocks)|)]
      ensures m.Some? ==> blocks == Failed(old(blocks), old(current)) + [Block(more.value, m.value + size,
        more.value + psize, 0)]
      ensures m.Some? ==> PassedOver(old(blocks), old(current), current)
    {
      if more.None? { return None; }
      hide Sound, Inside, Align, Failed, PassedOver;
      var p := more.value;
      var a := Align(p + BLOCK_HEAD);
      NewIsSound(p);
      var at := CountFailures();
      SameBlocks(old(blocks));
      blocks := blocks + [Block(p, a, p + psize, 0)];
      MoreBlocks(blocks[..|blocks| - 1], blocks);
      current := at;
      Take(|blocks| - 1, a, size);
      m := Some(a);
    }

    /** The blocks that had no room count it, and the search will pass over those that have failed often. */
    method CountFailures() returns (at: nat)
      requires current < |blocks|
      modifies this`blocks
      ensures blocks == Failed(old(blocks), current) && PassedOver(old(blocks), current, at) && at < |blocks|
      ensures forall j :: 0 <= j < |blocks| ==> blocks[j] == old(blocks)[j].(failed := blocks[j].failed)
    {
      at := current;
      var i := current;
      while i + 1 < |blocks|
        invariant current <= at <= i < |blocks| == |old(blocks)|
        invariant forall j :: 0 <= j < |blocks| ==>
          blocks[j] == old(blocks)[j].(failed := old(blocks)[j].failed + if current <= j < i then 1 else 0)
        invariant at == current || old(blocks)[at - 1].failed > 4
        invariant forall j :: at <= j < i ==> old(blocks)[j].failed <= 4
      {
        var failed := blocks[i].failed;
        blocks := blocks[i := blocks[i].(failed := failed + 1)];
        if failed > 4 { at := i + 1; }
        i := i + 1;
      }
    }

    /** Every block from `current` on but the last has failed once more. */
    static function Failed(was: seq<Block>, current: nat): (now: seq<Block>)
      ensures |now| == |was|
    {
      seq(|was|, j requires 0 <= j < |was| =>
        if current <= j < |was| - 1 then was[j].(failed := was[j].failed + 1) else was[j])
    }

    /** The search will begin behind the last block, but for the end of the chain, that had failed more than
        four times. */
    static ghost predicate PassedOver(was: seq<Block>, current: nat, next: nat) {
      && current <= next && (current < |was| ==> next < |was|)
      && (next > current ==> next <= |was| && was[next - 1].failed > 4)
      && forall j :: next <= j < |was| - 1 ==> was[j].failed <= 4
    }

    lemma NewIsSound(p: nat)
      requires Valid() && p % 16 == 0 && p + psize < WORD - PTR
      ensures Sound(Block(p, Align(p + BLOCK_HEAD), p + psize, 0), psize) && Align(p + BLOCK_HEAD) % PTR == 0
      ensures Align(p + BLOCK_HEAD) + max <= p + psize
    {
      assert Sound(blocks[0], psize);
      AlignWithin(p + BLOCK_HEAD, p + BLOCK_HEAD);
    }

    lemma MoreBlocks(was: seq<Block>, now: seq<Block>)
      requires |was| <= |now| && was == now[..|was|]
      ensures forall c :: Inside(was, c) ==> Inside(now, c)
    {
    }

    lemma SameBlocks(was: seq<Block>)
      requires |blocks| == |was| && forall j :: 0 <= j < |blocks| ==> blocks[j] == was[j].(failed := blocks[j].failed)
      ensures forall j :: 0 <= j < |blocks| && Sound(was[j], psize) ==> Sound(blocks[j], psize)
      ensures forall c :: Inside(was, c) ==> Inside(blocks, c)
    {
    }

    /** `mem_pool_reset`: everything handed out is taken back, and the blocks are kept. */
    method Reset()
      requires Valid()
      modifies this
      ensures Valid() && chunks == [] && current == 0 && |blocks| == |old(blocks)|
      ensures forall i :: 0 <= i < |blocks| ==>
        blocks[i] == Block(old(blocks)[i].base, old(blocks)[i].base + POOL_HEAD, old(blocks)[i].end, 0)
    {
      chunks := [];
      var i := 0;
      while i < |blocks|
        invariant i <= |blocks| == |old(blocks)| && chunks == []
        invariant forall j :: 0 <= j < |blocks| ==> Sound(blocks[j], psize)
        invariant forall j :: i <= j < |blocks| ==> blocks[j] == old(blocks)[j]
        invariant forall j :: 0 <= j < i ==>
          blocks[j] == Block(old(blocks)[j].base, old(blocks)[j].base + POOL_HEAD, old(blocks)[j].end, 0)
      {
        blocks := blocks[i := blocks[i].(last := blocks[i].base + POOL_HEAD, failed := 0)];
        i := i + 1;
      }
      current := 0;
    }
  }
}
