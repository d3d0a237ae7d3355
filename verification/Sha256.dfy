/** The buffering, counting and padding of SHA-256 in `sha256.c`; the compression function is left open. */
module Sha256 {
  import opened Digest

  const WORD := 0x1_0000_0000
  const HALF := 0x8000_0000
  const LIMIT := 0x2000_0000_0000_0000

  // ---------------------------------------------------------------- the length words

  function HighWord(lo: nat, hi: nat): nat { lo / 0x2000_0000 % 4 + hi * 8 }

  /** The two length words as the code computes them, highest byte first. */
  function LengthBytes(len: nat): (b: seq<Byte>)
    ensures |b| == 8
  {
    BigEndian(HighWord(len % WORD, len / WORD), 4) + BigEndian(len % WORD * 8 % WORD, 4)
  }

  /** The padded message with those length words. */
  function Message(m: seq<Byte>): seq<Byte> { Padded(m, LengthBytes(|m|)) }

  function Quarter(n: nat): nat { n / 256 / 256 / 256 / 256 }

  lemma QuarterIs(n: nat)
    ensures Quarter(n) == n / WORD
  {
    var n1, n2, n3 := n / 256, n / 256 / 256, n / 256 / 256 / 256;
    assert n == n1 * 256 + n % 256 && n1 == n2 * 256 + n1 % 256 && n2 == n3 * 256 + n2 % 256;
    assert n3 == n3 / 256 * 256 + n3 % 256;
  }

  lemma LastFour(n: nat, len: nat)
    ensures BigEndian(n, len + 4)
      == BigEndian(Quarter(n), len) + [n / 256 / 256 / 256 % 256, n / 256 / 256 % 256, n / 256 % 256, n % 256]
  {
    var n1, n2, n3 := n / 256, n / 256 / 256, n / 256 / 256 / 256;
    assert BigEndian(n3, len + 1) == BigEndian(Quarter(n), len) + [n3 % 256];
    assert BigEndian(n2, len + 2) == BigEndian(n3, len + 1) + [n2 % 256];
    assert BigEndian(n1, len + 3) == BigEndian(n2, len + 2) + [n1 % 256];
  }

  /** A number of two words in bytes. */
  lemma TwoWords(hi: nat, lo: nat)
    requires lo < WORD
    ensures BigEndian(hi * WORD + lo, 8) == BigEndian(hi, 4) + BigEndian(lo, 4)
  {
    hide BigEndian, Quarter;
    var n := hi * WORD + lo;
    LastFour(n, 4);
    LastFour(lo, 0);
    QuarterIs(n);
    SameBytes(hi, lo);
    assert BigEndian(Quarter(lo), 0) == [];
  }

  lemma SameBytes(hi: nat, lo: nat)
    ensures var n := hi * WORD + lo;
      n % 256 == lo % 256 && n / 256 % 256 == lo / 256 % 256
      && n / 256 / 256 % 256 == lo / 256 / 256 % 256 && n / 256 / 256 / 256 % 256 == lo / 256 / 256 / 256 % 256
  {
    var n := hi * WORD + lo;
    assert n / 256 == hi * 0x100_0000 + lo / 256;
    assert n / 256 / 256 == hi * 0x1_0000 + lo / 256 / 256;
    assert n / 256 / 256 / 256 == hi * 0x100 + lo / 256 / 256 / 256;
  }

  lemma LastByte(n: nat)
    ensures BigEndian(n, 4)[3] == n % 256
  {
  }

  /** The high word drops the top bit of the low count: the length is right exactly when that bit is clear. */
  lemma LengthIsRight(len: nat)
    requires len < LIMIT
    ensures LengthBytes(len) == BigEndian(8 * len, 8) <==> len % WORD < HALF
  {
    hide BigEndian;
    var lo, hi := len % WORD, len / WORD;
    var top := lo / 0x2000_0000 + hi * 8;
    assert 8 * len == top * WORD + lo * 8 % WORD;
    TwoWords(top, lo * 8 % WORD);
    LastByte(top);
    LastByte(HighWord(lo, hi));
    if lo < HALF {
      assert HighWord(lo, hi) == top;
    } else {
      assert HighWord(lo, hi) == top - 4;
      assert LengthBytes(len)[3] == BigEndian(HighWord(lo, hi), 4)[3];
      assert BigEndian(8 * len, 8)[3] == BigEndian(top, 4)[3];
    }
  }

  /** So the message is padded as section 5.1.1 of FIPS 180-4 has it exactly then: always below 2^31 bytes, never
      between 2^31 and 2^32. */
  lemma MessageIsPadded(m: seq<Byte>)
    requires |m| < LIMIT
    ensures Message(m) == Padded(m, BigEndian(8 * |m|, 8)) <==> |m| % WORD < HALF
  {
    hide BigEndian, LengthBytes, Padded;
    LengthIsRight(|m|);
    PaddedTells(m, LengthBytes(|m|), BigEndian(8 * |m|, 8));
  }

  // ---------------------------------------------------------------- the two counts

  /** The counts after `dl` more bytes, as the code computes them from the words `lo` and `hi`. */
  function CountLo(lo: nat, dl: nat): nat {
    var z := lo % HALF + dl;
    z % HALF + (lo / HALF + z / HALF) % 2 * HALF
  }

  function CountHi(lo: nat, hi: nat, dl: nat): nat {
    hi + (lo / HALF + (lo % HALF + dl) / HALF) / 2
  }

  lemma CountsAdd(lo: nat, hi: nat, dl: nat)
    requires lo < WORD && dl < HALF
    ensures CountLo(lo, dl) < WORD && CountLo(lo, dl) + CountHi(lo, hi, dl) * WORD == lo + hi * WORD + dl
  {
  }

  // ---------------------------------------------------------------- the hash

  /** Place `p` of the block buffer and all that follows is zero. */
  ghost predicate Clean(b: seq<Byte>, p: nat)
    requires |b| == BLOCK
  {
    forall k :: p <= k < BLOCK ==> b[k] == 0
  }

  /** The buffer of a message: the bytes after the last block, and zeroes. */
  ghost predicate Holds(b: seq<Byte>, p: nat, rest: seq<Byte>)
  {
    |b| == BLOCK && p == |rest| <= BLOCK && b[..p] == rest && Clean(b, p)
  }

  lemma EmptyBuffer(b: seq<Byte>)
    requires |b| == BLOCK && Clean(b, 0)
    ensures Holds(b, 0, [])
  {
  }

  class Hash<S(!new)> {
    const transform: (S, seq<Byte>) -> S
    const iv: S
    var reg: S
    var value: S
    var dwordBufBytes: nat
    var byteNumLo: nat
    var byteNumHi: nat
    const dwordBuf: array<Byte>
    const padding: array<Byte>
    ghost var message: seq<Byte>

    ghost predicate Valid()
      reads this, dwordBuf
    {
      && dwordBuf.Length == BLOCK && padding.Length == BLOCK && dwordBuf != padding
      && byteNumLo < WORD && byteNumLo + byteNumHi * WORD == |message| < LIMIT
      && reg == Absorb(transform, iv, message)
      && Holds(dwordBuf[..], dwordBufBytes, Rest(message))
    }

    /** `sha256_reset`. */
    constructor (transform: (S, seq<Byte>) -> S, iv: S)
      ensures Valid() && message == [] && this.transform == transform && this.iv == iv
      ensures fresh(dwordBuf) && fresh(padding)
    {
      hide Valid, Absorb, Rest, Holds, Clean;
      this.transform, this.iv, reg, value := transform, iv, iv, iv;
      dwordBuf := new Byte[BLOCK](_ => 0);
      padding := new Byte[BLOCK](_ => 0);
      byteNumLo, byteNumHi, dwordBufBytes := 0, 0, 0;
      message := [];
      new;
      StartsValid();
    }

    lemma StartsValid()
      requires dwordBuf.Length == BLOCK && padding.Length == BLOCK && dwordBuf != padding
      requires forall k :: 0 <= k < BLOCK ==> dwordBuf[k] == 0
      requires byteNumLo == byteNumHi == dwordBufBytes == 0 && message == [] && reg == iv
      ensures Valid()
    {
      hide Absorb, Rest, Holds;
      ShortMessage(transform, iv, []);
      EmptyBuffer(dwordBuf[..]);
    }

    /** The loop over full blocks. Place `x, y` is byte `4 * x + y / 8` of the block. */
    method FullBlocks(dp: seq<Byte>, state: S) returns (r: S, x: nat, y: nat, z: nat)
      requires padding.Length == BLOCK && dwordBufBytes < BLOCK && |dp| < HALF
      modifies padding
      ensures z <= |dp| && x < 16 && (y == 0 || y == 8 || y == 16 || y == 24) && 4 * x + y / 8 + |dp| - z < BLOCK
      ensures (x == 0 && y == 0) || (z == 0 && 4 * x + y / 8 == dwordBufBytes && padding[..] == old(padding[..]))
      ensures var rest := old(padding[..dwordBufBytes]);
        r == Absorb(transform, state, rest + dp) && padding[..4 * x + y / 8] + dp[z..] == Rest(rest + dp)
    {
      hide Absorb, Rest;
      ghost var rest := padding[..dwordBufBytes];
      x, y := dwordBufBytes / 4, dwordBufBytes % 4 * 8;
      var w := (dwordBufBytes + |dp|) / 64 % 0x400_0000;
      z, r := 0, state;
      assert dp[0..] == dp;
      while w > 0
        invariant z <= |dp| && x < 16 && (y == 0 || y == 8 || y == 16 || y == 24)
        invariant w == (4 * x + y / 8 + |dp| - z) / 64
        invariant (x == 0 && y == 0) || (z == 0 && 4 * x + y / 8 == dwordBufBytes && padding[..] == old(padding[..]))
        invariant Absorb(transform, r, padding[..4 * x + y / 8] + dp[z..]) == Absorb(transform, state, rest + dp)
        invariant Rest(padding[..4 * x + y / 8] + dp[z..]) == Rest(rest + dp)
      {
        ghost var was, z0 := padding[..4 * x + y / 8], z;
        x, y, z := FillBlock(dp, x, y, z);
        NextBlock(transform, r, was, dp, z0, padding[..], z);
        r := transform(r, padding[..]);
        x, y, w := 0, 0, w - 1;
        assert padding[..0] + dp[z..] == dp[z..];
      }
      ShortMessage(transform, r, padding[..4 * x + y / 8] + dp[z..]);
    }

    /** One byte on. */
    static method NextPlace(x0: nat, y0: nat) returns (x: nat, y: nat)
      requires y0 == 0 || y0 == 8 || y0 == 16 || y0 == 24
      ensures (y == 0 || y == 8 || y == 16 || y == 24) && 4 * x + y / 8 == 4 * x0 + y0 / 8 + 1
    {
      y := y0 + 8;
      x := x0 + y / 32;
      y := y % 32;
    }

    method FillBlock(dp: seq<Byte>, x0: nat, y0: nat, z0: nat) returns (x: nat, y: nat, z: nat)
      requires padding.Length == BLOCK && x0 < 16 && (y0 == 0 || y0 == 8 || y0 == 16 || y0 == 24)
      requires z0 + BLOCK - (4 * x0 + y0 / 8) <= |dp|
      modifies padding
      ensures x == 16 && y == 0 && z == z0 + BLOCK - (4 * x0 + y0 / 8)
      ensures padding[..] == old(padding[..4 * x0 + y0 / 8]) + dp[z0..z]
    {
      x, y, z := x0, y0, z0;
      ghost var was := padding[..4 * x0 + y0 / 8];
      while x < 16
        invariant x <= 16 && (y == 0 || y == 8 || y == 16 || y == 24) && (x == 16 ==> y == 0)
        invariant z0 <= z && 4 * x + y / 8 == 4 * x0 + y0 / 8 + z - z0
        invariant padding[..4 * x + y / 8] == was + dp[z0..z]
        decreases BLOCK - (4 * x + y / 8)
      {
        ghost var p := 4 * x + y / 8;
        padding[4 * x + y / 8] := dp[z];
        assert padding[..p + 1] == padding[..p] + [dp[z]];
        x, y := NextPlace(x, y);
        z := z + 1;
      }
      assert padding[..64] == padding[..];
    }

    /** The bytes that fill no block go into the buffer as well. */
    method LastBytes(dp: seq<Byte>, x0: nat, y0: nat, z0: nat) returns (x: nat, y: nat)
      requires padding.Length == dwordBuf.Length == BLOCK && padding != dwordBuf
      requires z0 <= |dp| && x0 < 16 && (y0 == 0 || y0 == 8 || y0 == 16 || y0 == 24)
      requires 4 * x0 + y0 / 8 + |dp| - z0 < BLOCK
      requires padding[..] == dwordBuf[..] && Clean(padding[..], 4 * x0 + y0 / 8)
      modifies padding, dwordBuf
      ensures x < 16 && (y == 0 || y == 8 || y == 16 || y == 24)
      ensures padding[..] == dwordBuf[..]
      ensures Holds(dwordBuf[..], 4 * x + y / 8, old(padding[..4 * x0 + y0 / 8]) + dp[z0..])
    {
      hide Clean;
      x, y := x0, y0;
      var z, w := z0, |dp| - z0;
      ghost var was := padding[..4 * x0 + y0 / 8];
      while w > 0
        invariant x < 16 && (y == 0 || y == 8 || y == 16 || y == 24)
        invariant z0 <= z <= |dp| && w == |dp| - z && 4 * x + y / 8 == 4 * x0 + y0 / 8 + z - z0
        invariant padding[..] == dwordBuf[..] && Clean(padding[..], 4 * x + y / 8)
        invariant padding[..4 * x + y / 8] == was + dp[z0..z]
      {
        ghost var p, old0 := 4 * x + y / 8, padding[..];
        PutByte(4 * x + y / 8, dp[z]);
        CleanMore(old0, p, dp[z]);
        assert dp[z0..z + 1] == dp[z0..z] + [dp[z]];
        x, y := NextPlace(x, y);
        z, w := z + 1, w - 1;
      }
      assert dp[z0..|dp|] == dp[z0..];
    }

    method PutByte(p: nat, b: Byte)
      requires padding.Length == dwordBuf.Length == BLOCK && padding != dwordBuf && p < BLOCK
      requires padding[..] == dwordBuf[..]
      modifies padding, dwordBuf
      ensures padding[..] == dwordBuf[..] == old(padding[..])[p := b]
    {
      padding[p] := b;
      dwordBuf[p] := padding[p];
    }

    static lemma CleanMore(block: seq<Byte>, p: nat, b: Byte)
      requires |block| == BLOCK && p < BLOCK && Clean(block, p)
      ensures Clean(block[p := b], p + 1) && block[p := b][..p + 1] == block[..p] + [b]
    {
    }

    /** The closing bit and the length, in one block or two. */
    method LastBlocks(x: nat, y: nat, state: S) returns (r: S)
      requires padding.Length == BLOCK && x < 16 && (y == 0 || y == 8 || y == 16 || y == 24)
      requires byteNumLo < WORD && Clean(padding[..], 4 * x + y / 8)
      modifies padding, this`dwordBufBytes
      ensures dwordBufBytes == 4 * x + y / 8
      ensures r == Absorb(transform, state,
        old(padding[..4 * x + y / 8]) + [0x80] + Zeros(ZeroCount(4 * x + y / 8))
          + LengthBytes(byteNumLo + byteNumHi * WORD))
    {
      hide Absorb, BigEndian;
      ghost var rest := padding[..4 * x + y / 8];
      padding[4 * x + y / 8] := 0x80;
      assert padding[..4 * x + y / 8] == rest;
      dwordBufBytes := 4 * x + y / 8;
      r := state;
      if dwordBufBytes > 55 {
        ghost var first := padding[..];
        r := transform(r, padding[..]);
        for w := 0 to BLOCK
          invariant forall k :: 0 <= k < w ==> padding[k] == 0
          modifies padding
        {
          padding[w] := 0;
        }
        PutLength();
        assert forall k :: 0 <= k < 56 ==> padding[k] == padding[..56][k];
        TwoBlocks(transform, state, rest, first, padding[..], LengthBytes(byteNumLo + byteNumHi * WORD));
        r := transform(r, padding[..]);
      } else {
        PutLength();
        OneBlock(transform, state, rest, padding[..], LengthBytes(byteNumLo + byteNumHi * WORD));
        r := transform(r, padding[..]);
      }
    }

    method PutLength()
      requires padding.Length == BLOCK && byteNumLo < WORD
      modifies padding
      ensures padding[..56] == old(padding[..56])
      ensures padding[56..] == LengthBytes(byteNumLo + byteNumHi * WORD)
    {
      hide BigEndian, LengthBytes;
      LengthOf(byteNumLo, byteNumHi);
      ghost var was := padding[..60];
      PutWord(15, byteNumLo * 8 % WORD);
      ghost var low := padding[60..64];
      PutWord(14, byteNumLo / 0x2000_0000 % 4 + byteNumHi * 8);
      assert was[..56] == padding[..56];
      assert padding[60..] == low;
      assert padding[56..] == padding[56..60] + padding[60..];
    }

    method PutWord(x: nat, value: nat)
      requires padding.Length == BLOCK && x < 16
      modifies padding
      ensures padding[..4 * x] == old(padding[..4 * x]) && padding[4 * x + 4..] == old(padding[4 * x + 4..])
      ensures padding[4 * x..4 * x + 4] == BigEndian(value, 4)
    {
      padding[4 * x], padding[4 * x + 1] := value / 256 / 256 / 256 % 256, value / 256 / 256 % 256;
      padding[4 * x + 2], padding[4 * x + 3] := value / 256 % 256, value % 256;
      LastFour(value, 0);
      hide BigEndian;
      assert BigEndian(Quarter(value), 0) == [];
    }

    method Load()
      requires padding.Length == dwordBuf.Length == BLOCK && padding != dwordBuf
      modifies padding
      ensures padding[..] == dwordBuf[..]
    {
      forall k | 0 <= k < BLOCK { padding[k] := dwordBuf[k]; }
    }

    method Clear()
      requires padding.Length == dwordBuf.Length == BLOCK && padding != dwordBuf
      modifies padding, dwordBuf
      ensures padding[..] == dwordBuf[..] && Clean(padding[..], 0)
    {
      forall k | 0 <= k < BLOCK { dwordBuf[k] := 0; }
      forall k | 0 <= k < BLOCK { padding[k] := 0; }
    }

    /** `sha256_calculate`: refused past 2^61 bytes, otherwise the digest of the padded message so far. */
    method Calculate(dp: seq<Byte>) returns (ok: bool)
      requires Valid() && |dp| < HALF
      modifies this`reg, this`value, this`dwordBufBytes, this`byteNumLo, this`byteNumHi, this`message, dwordBuf, padding
      ensures Valid()
      ensures ok == (old(|message|) + |dp| < LIMIT)
      ensures message == if ok then old(message) + dp else old(message)
      ensures ok ==> value == Absorb(transform, iv, Message(message))
    {
      hide Absorb, Rest, Message, LengthBytes, CountLo, CountHi, Clean;
      CountsAdd(byteNumLo, byteNumHi, |dp|);
      var lo, hi := CountLo(byteNumLo, |dp|), CountHi(byteNumLo, byteNumHi, |dp|);
      if hi > 0x1fff_ffff { return false; }
      byteNumLo, byteNumHi := lo, hi;
      ghost var rest := Rest(message);
      AbsorbMore(transform, iv, message, dp);
      Load();
      assert padding[..dwordBufBytes] == rest;
      var state, x, y, z := FullBlocks(dp, reg);
      ghost var p := 4 * x + y / 8;
      if x == 0 && y == 0 {
        Clear();
      }
      assert padding[..] == dwordBuf[..];
      ghost var front := padding[..p];
      x, y := LastBytes(dp, x, y, z);
      message := message + dp;
      assert front + dp[z..] == Rest(message);
      reg := state;
      value := LastBlocks(x, y, state);
      Closing(transform, iv, message);
      ok := true;
    }
  }

  lemma LengthOf(lo: nat, hi: nat)
    requires lo < WORD
    ensures LengthBytes(lo + hi * WORD) == BigEndian(HighWord(lo, hi), 4) + BigEndian(lo * 8 % WORD, 4)
  {
    assert (lo + hi * WORD) % WORD == lo && (lo + hi * WORD) / WORD == hi;
    hide BigEndian;
  }

  lemma NextBlock<S>(f: (S, seq<Byte>) -> S, s: S, was: seq<Byte>, dp: seq<Byte>, z0: nat, block: seq<Byte>, z: nat)
    requires z0 <= z <= |dp| && |block| == BLOCK && block == was + dp[z0..z]
    ensures Absorb(f, s, was + dp[z0..]) == Absorb(f, f(s, block), dp[z..])
    ensures Rest(was + dp[z0..]) == Rest(dp[z..])
  {
    hide Absorb, Rest;
    assert was + dp[z0..] == block + dp[z..];
    AbsorbBlock(f, s, block, dp[z..]);
  }

  lemma OneBlock<S>(f: (S, seq<Byte>) -> S, s: S, rest: seq<Byte>, block: seq<Byte>, length: seq<Byte>)
    requires |block| == BLOCK && |rest| < 56 && |length| == 8
    requires block[..|rest|] == rest && block[|rest|] == 0x80 && block[56..] == length
    requires forall k :: |rest| < k < 56 ==> block[k] == 0
    ensures f(s, block) == Absorb(f, s, rest + [0x80] + Zeros(ZeroCount(|rest|)) + length)
  {
    hide Absorb;
    assert block == rest + [0x80] + Zeros(ZeroCount(|rest|)) + length;
    AbsorbBlock(f, s, block, []);
    assert block + [] == block;
    ShortMessage(f, f(s, block), []);
  }

  lemma TwoBlocks<S>(f: (S, seq<Byte>) -> S, s: S, rest: seq<Byte>, first: seq<Byte>, second: seq<Byte>,
      length: seq<Byte>)
    requires |first| == |second| == BLOCK && 56 <= |rest| < BLOCK && |length| == 8
    requires first[..|rest|] == rest && first[|rest|] == 0x80 && second[56..] == length
    requires forall k :: |rest| < k < BLOCK ==> first[k] == 0
    requires forall k :: 0 <= k < 56 ==> second[k] == 0
    ensures f(f(s, first), second) == Absorb(f, s, rest + [0x80] + Zeros(ZeroCount(|rest|)) + length)
  {
    hide Absorb;
    assert first + second == rest + [0x80] + Zeros(ZeroCount(|rest|)) + length;
    AbsorbBlock(f, s, first, second);
    AbsorbBlock(f, f(s, first), second, []);
    assert second + [] == second;
    ShortMessage(f, f(f(s, first), second), []);
  }

  lemma Closing<S>(f: (S, seq<Byte>) -> S, iv: S, m: seq<Byte>)
    ensures Absorb(f, iv, Message(m)) ==
      Absorb(f, Absorb(f, iv, m), Rest(m) + [0x80] + Zeros(ZeroCount(|Rest(m)|)) + LengthBytes(|m|))
  {
    assert ZeroCount(|Rest(m)|) == ZeroCount(|m|);
    hide Absorb, LengthBytes, Rest, ZeroCount, Zeros;
    var z := Zeros(ZeroCount(|m|));
    Regrouped(m, [0x80], z, LengthBytes(|m|));
    Regrouped(Rest(m), [0x80], z, LengthBytes(|m|));
    AbsorbMore(f, iv, m, [0x80] + z + LengthBytes(|m|));
  }

  lemma Regrouped(a: seq<Byte>, b: seq<Byte>, c: seq<Byte>, d: seq<Byte>)
    ensures a + b + c + d == a + (b + c + d)
  {
  }

  /** However a message is cut into pieces below 2^31 bytes, it is refused from 2^61 bytes on, and otherwise the digest
      depends on the whole only; it is that of section 5.1.1 of FIPS 180-4 as long as the low count has its top bit
      clear, in particular for every message below 2^31 bytes. */
  method DigestPieces<S(!new)>(transform: (S, seq<Byte>) -> S, iv: S, pieces: seq<seq<Byte>>)
      returns (ok: bool, digest: S)
    requires pieces != [] && forall i :: 0 <= i < |pieces| ==> |pieces[i]| < HALF
    ensures ok <==> |Joined(pieces)| < LIMIT
    ensures ok ==> digest == Absorb(transform, iv, Message(Joined(pieces)))
    ensures ok && |Joined(pieces)| % WORD < HALF ==>
      digest == Absorb(transform, iv, Padded(Joined(pieces), BigEndian(8 * |Joined(pieces)|, 8)))
  {
    hide Absorb, BigEndian, Message, LengthBytes, Padded, Joined;
    var h := new Hash(transform, iv);
    digest := iv;
    assert Joined(pieces[..0]) == [] by { NoPieces(pieces); }
    for i := 0 to |pieces|
      invariant h.Valid() && h.message == Joined(pieces[..i]) && h.transform == transform && h.iv == iv
      invariant fresh(h) && fresh(h.dwordBuf) && fresh(h.padding)
      invariant i > 0 ==> h.value == Absorb(transform, iv, Message(h.message)) && |h.message| < LIMIT
    {
      JoinedMore(pieces, i);
      JoinedWithin(pieces, i + 1);
      ok := h.Calculate(pieces[i]);
      if !ok { return; }
    }
    assert pieces[..|pieces|] == pieces;
    MessageIsPadded(h.message);
    ok, digest := true, h.value;
  }
}
