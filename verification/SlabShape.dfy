/** What the page descriptors and bitmaps of `slab.c` stand for: runs of free and used pages, and pages
    cut into chunks, with one bit to a chunk kept in one of three places. */
module SlabShape {
  import opened Arith
  import opened Bits
  import opened SlabLinks

  const SLAB_PAGE := 0
  const SLAB_BIG := 1
  const SLAB_EXACT := 2
  const SLAB_SMALL := 3

  const PAGE_SIZE := 4096
  const PAGE_SHIFT := 12
  const MIN_SHIFT := 3
  const EXACT_SHIFT := 6
  const MAP_SHIFT := 32
  const SLOTS := 9

  const SLAB_PAGE_START := 0x8000_0000_0000_0000
  const SLAB_PAGE_BUSY := 0xffff_ffff_ffff_ffff

  /** How a page is used.  A chunk page holds chunks of `Pow2(shift)` bytes. */
  datatype Kind =
    | FreeRun(n: nat) | FreeRest(run: nat)
    | UsedRun(n: nat) | UsedRest(run: nat)
    | Chunks(shift: nat)

  predicate IsShift(s: nat) { MIN_SHIFT <= s < PAGE_SHIFT }

  /** Bytes to a chunk, chunks to a page, words in the bitmap at the start of a page, and the chunks
      that bitmap takes up. */
  function Size(s: nat): (n: nat)
    ensures n > 0
  {
    match s
    case 3 => 8 case 4 => 16 case 5 => 32 case 6 => 64 case 7 => 128
    case 8 => 256 case 9 => 512 case 10 => 1024 case 11 => 2048 case _ => PAGE_SIZE
  }

  function Count(s: nat): (n: nat)
    ensures n > 0
  {
    match s
    case 3 => 512 case 4 => 256 case 5 => 128 case 6 => 64 case 7 => 32
    case 8 => 16 case 9 => 8 case 10 => 4 case 11 => 2 case _ => 1
  }

  function Words(s: nat): (n: nat)
    ensures 1 <= n <= 8
  {
    match s case 3 => 8 case 4 => 4 case 5 => 2 case _ => 1
  }

  function Reserved(s: nat): nat { match s case 3 => 8 case 4 => 2 case 5 => 1 case _ => 0 }

  function TagOf(s: nat): nat {
    if s < EXACT_SHIFT then SLAB_SMALL else if s == EXACT_SHIFT then SLAB_EXACT else SLAB_BIG
  }

  /** The tables are the shifts and divisions of the code. */
  lemma Table(s: nat)
    requires IsShift(s)
    ensures Pow2(s) == Size(s) && Pow2(PAGE_SHIFT - s) == Count(s)
    ensures s < EXACT_SHIFT ==> Count(s) / 64 == Words(s)
    ensures s < EXACT_SHIFT ==> Reserved(s) == if Count(s) / 8 / Size(s) == 0 then 1 else Count(s) / 8 / Size(s)
  {
    assert Pow2(5) == 32 && Pow2(6) == 64 && Pow2(7) == 128 && Pow2(8) == 256 && Pow2(9) == 512;
    assert Pow2(10) == 1024 && Pow2(11) == 2048;
  }

  /** The chunks of a page fill it, and the bitmap fits in those set aside for it. */
  lemma Measures(s: nat)
    requires IsShift(s)
    ensures Count(s) * Size(s) == PAGE_SIZE && Reserved(s) < Count(s) && Count(s) >= 2
    ensures s < EXACT_SHIFT ==> Words(s) * 64 == Count(s) && 8 * Words(s) <= Reserved(s) * Size(s)
    ensures s < EXACT_SHIFT ==> 1 <= Reserved(s) && Reserved(s) + 1 < 64
    ensures s > EXACT_SHIFT ==> Count(s) <= 32
  {
  }

  // ---------------------------------------------------------------- chunks

  /** Chunk `k` of a page is taken: the bit in the page's own bitmap, in its descriptor, or in the upper
      half of its descriptor. */
  ghost predicate Taken(slab: nat, w: seq<nat>, s: nat, k: nat) {
    if s < EXACT_SHIFT then k / 64 < |w| && Bit(w[k / 64], k % 64)
    else if s == EXACT_SHIFT then Bit(slab, k)
    else Bit(slab, MAP_SHIFT + k)
  }

  ghost predicate HasFree(slab: nat, w: seq<nat>, s: nat) {
    exists k :: 0 <= k < Count(s) && !Taken(slab, w, s, k)
  }

  ghost predicate Occupied(slab: nat, w: seq<nat>, s: nat) {
    exists k :: Reserved(s) <= k < Count(s) && Taken(slab, w, s, k)
  }

  /** The words of a chunk page make sense. */
  ghost predicate ChunkOk(slab: nat, w: seq<nat>, s: nat) {
    && IsShift(s) && |w| == 8
    && (s < EXACT_SHIFT ==> slab == s && (forall j :: 0 <= j < Words(s) ==> w[j] < Pow2(64))
                            && (forall k :: 0 <= k < Reserved(s) ==> Taken(slab, w, s, k)))
    && (s == EXACT_SHIFT ==> slab < Pow2(64))
    && (s > EXACT_SHIFT ==> slab % 16 == s && slab < Pow2(MAP_SHIFT + Count(s)))
  }

  /** The bit of chunk `k` set or cleared, wherever it is. */
  ghost function MarkSlab(slab: nat, s: nat, k: nat, on: bool): nat {
    if s < EXACT_SHIFT then slab
    else
      var i := if s == EXACT_SHIFT then k else MAP_SHIFT + k;
      if on then SetBit(slab, i) else ClearBit(slab, i)
  }

  ghost function MarkWords(w: seq<nat>, s: nat, k: nat, on: bool): seq<nat> {
    if s < EXACT_SHIFT && k / 64 < |w| then
      w[k / 64 := if on then SetBit(w[k / 64], k % 64) else ClearBit(w[k / 64], k % 64)]
    else w
  }

  /** Marking a chunk changes that chunk and no other, and the page stays sound. */
  lemma Marked(slab: nat, w: seq<nat>, s: nat, k: nat, on: bool)
    requires ChunkOk(slab, w, s) && k < Count(s) && (on || k >= Reserved(s))
    ensures ChunkOk(MarkSlab(slab, s, k, on), MarkWords(w, s, k, on), s)
    ensures forall j :: 0 <= j < Count(s) ==>
      (Taken(MarkSlab(slab, s, k, on), MarkWords(w, s, k, on), s, j) <==> if j == k then on else Taken(slab, w, s, j))
  {
    Measures(s);
    var slab', w' := MarkSlab(slab, s, k, on), MarkWords(w, s, k, on);
    forall j | 0 <= j < Count(s) ensures Taken(slab', w', s, j) <==> if j == k then on else Taken(slab, w, s, j) {
      MarkedAt(slab, w, s, k, on, j);
    }
    MarkedSmall(slab, w, s, k, on);
  }

  lemma MarkedAt(slab: nat, w: seq<nat>, s: nat, k: nat, on: bool, j: nat)
    requires ChunkOk(slab, w, s) && k < Count(s) && j < Count(s)
    ensures Taken(MarkSlab(slab, s, k, on), MarkWords(w, s, k, on), s, j) <==> if j == k then on
      else Taken(slab, w, s, j)
  {
    Measures(s);
    if s < EXACT_SHIFT {
      SetBitIs(w[k / 64], k % 64, j % 64);
      ClearBitIs(w[k / 64], k % 64, j % 64);
      if j / 64 == k / 64 && j % 64 == k % 64 { assert j == 64 * (j / 64) + j % 64; }
    } else {
      var d := if s == EXACT_SHIFT then 0 else MAP_SHIFT;
      SetBitIs(slab, d + k, d + j);
      ClearBitIs(slab, d + k, d + j);
    }
  }

  lemma MarkedSmall(slab: nat, w: seq<nat>, s: nat, k: nat, on: bool)
    requires ChunkOk(slab, w, s) && k < Count(s)
    ensures s < EXACT_SHIFT ==> k / 64 < Words(s)
    ensures s < EXACT_SHIFT ==> forall j :: 0 <= j < Words(s) ==> MarkWords(w, s, k, on)[j] < Pow2(64)
    ensures s == EXACT_SHIFT ==> MarkSlab(slab, s, k, on) < Pow2(64)
    ensures s > EXACT_SHIFT ==>
      MarkSlab(slab, s, k, on) % 16 == s
      && MarkSlab(slab, s, k, on) < Pow2(MAP_SHIFT + Count(s))
  {
    hide Bit, SetBit, ClearBit, Low, Pow2, Taken;
    Measures(s);
    if s < EXACT_SHIFT {
      StaysSmall(w[k / 64], k % 64, 64);
    } else if s == EXACT_SHIFT {
      StaysSmall(slab, k, 64);
    } else {
      StaysSmall(slab, MAP_SHIFT + k, MAP_SHIFT + Count(s));
      LowKept(slab, 4, MAP_SHIFT + k);
      LowFour(slab);
      LowFour(MarkSlab(slab, s, k, on));
    }
  }

  // ---------------------------------------------------------------- what the code looks at

  ghost predicate WordsFull(w: seq<nat>, n: nat)
    requires n <= |w|
  {
    forall j :: 0 <= j < n ==> w[j] == Ones(64)
  }

  ghost predicate WordsClear(w: seq<nat>, n: nat)
    requires n <= |w|
  {
    forall j :: 1 <= j < n ==> w[j] == 0
  }

  /** A full page: its words are all `SLAB_BUSY`, its descriptor is, or the upper half equals the mask. */
  lemma FullSmall(slab: nat, w: seq<nat>, s: nat)
    requires ChunkOk(slab, w, s) && s < EXACT_SHIFT
    ensures !HasFree(slab, w, s) <==> WordsFull(w, Words(s))
  {
    hide Bit, Ones, Pow2;
    Measures(s);
    forall j | 0 <= j < Words(s) ensures w[j] == Ones(64) <==> AllOn(w[j], 64) { AllOrNone(w[j], 64); }
    if !HasFree(slab, w, s) {
      forall j | 0 <= j < Words(s) ensures AllOn(w[j], 64) {
        forall i | 0 <= i < 64 ensures Bit(w[j], i) { assert Taken(slab, w, s, 64 * j + i); }
      }
    } else {
      var k :| 0 <= k < Count(s) && !Taken(slab, w, s, k);
      assert !AllOn(w[k / 64], 64);
    }
  }

  lemma FullExact(slab: nat, w: seq<nat>)
    requires ChunkOk(slab, w, EXACT_SHIFT)
    ensures !HasFree(slab, w, EXACT_SHIFT) <==> slab == Ones(64)
    ensures !Occupied(slab, w, EXACT_SHIFT) <==> slab == 0
  {
    AllOrNone(slab, 64);
    forall k | 0 <= k < 64 ensures Taken(slab, w, EXACT_SHIFT, k) <==> Bit(slab, k) {}
    if AllOn(slab, 64) { assert !HasFree(slab, w, EXACT_SHIFT); }
    if k :| 0 <= k < 64 && !Bit(slab, k) { assert !Taken(slab, w, EXACT_SHIFT, k); }
    if AllOff(slab, 64) { assert !Occupied(slab, w, EXACT_SHIFT); }
    if k :| 0 <= k < 64 && Bit(slab, k) { assert Taken(slab, w, EXACT_SHIFT, k); }
  }

  lemma FullBig(slab: nat, w: seq<nat>, s: nat)
    requires ChunkOk(slab, w, s) && s > EXACT_SHIFT
    ensures !HasFree(slab, w, s) <==> Shr(slab, MAP_SHIFT) == Ones(Count(s))
    ensures !Occupied(slab, w, s) <==> Shr(slab, MAP_SHIFT) == 0
  {
    var map_, n := Shr(slab, MAP_SHIFT), Count(s);
    ShrSmall(slab, MAP_SHIFT, MAP_SHIFT + n);
    AllOrNone(map_, n);
    forall k | 0 <= k < n ensures Taken(slab, w, s, k) <==> Bit(map_, k) { ShrBit(slab, MAP_SHIFT, k); }
    hide Shr, Bit, Taken;
    if AllOn(map_, n) { assert !HasFree(slab, w, s); }
    if k :| 0 <= k < n && !Bit(map_, k) { assert !Taken(slab, w, s, k); }
    if AllOff(map_, n) { assert !Occupied(slab, w, s); }
    if k :| 0 <= k < n && Bit(map_, k) { assert Taken(slab, w, s, k); }
  }

  /** An empty page with a bitmap: nothing past the reserved bits of the first word, zero words after it. */
  lemma EmptySmall(slab: nat, w: seq<nat>, s: nat)
    requires ChunkOk(slab, w, s) && s < EXACT_SHIFT
    ensures !Occupied(slab, w, s) <==> Shr(w[0], Reserved(s)) == 0 && WordsClear(w, Words(s))
  {
    hide Bit, Ones, Pow2, Shr;
    Measures(s);
    var r := Reserved(s);
    ShrSmall(w[0], r, 64);
    AllOrNone(Shr(w[0], r), 64 - r);
    forall j | 0 <= j < Words(s) ensures w[j] == 0 <==> AllOff(w[j], 64) { AllOrNone(w[j], 64); }
    forall i: nat | i < 64 - r ensures Bit(Shr(w[0], r), i) <==> Taken(slab, w, s, r + i) { ShrBit(w[0], r, i); }
    if !Occupied(slab, w, s) {
      EmptySmallClear(slab, w, s);
    } else {
      var k :| r <= k < Count(s) && Taken(slab, w, s, k);
      if k < 64 {
        assert Bit(Shr(w[0], r), k - r);
      } else {
        assert !AllOff(w[k / 64], 64);
      }
    }
  }

  lemma EmptySmallClear(slab: nat, w: seq<nat>, s: nat)
    requires ChunkOk(slab, w, s) && s < EXACT_SHIFT && !Occupied(slab, w, s)
    ensures AllOff(Shr(w[0], Reserved(s)), 64 - Reserved(s)) && forall j :: 1 <= j < Words(s) ==> AllOff(w[j], 64)
  {
    hide Bit, Pow2, Shr;
    Measures(s);
    var r := Reserved(s);
    forall i: nat | i < 64 - r ensures !Bit(Shr(w[0], r), i) {
      ShrBit(w[0], r, i);
      assert !Taken(slab, w, s, r + i);
    }
    forall j | 1 <= j < Words(s) ensures AllOff(w[j], 64) {
      forall i | 0 <= i < 64 ensures !Bit(w[j], i) { assert !Taken(slab, w, s, 64 * j + i); }
    }
  }
}
