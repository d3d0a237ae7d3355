/** What MD5 and SHA-256 share: the message cut into blocks of 64 bytes, each folded into the state by a
    compression function that is left open, and the padding that completes the last block. */
module Digest {

  type Byte = n: nat | n < 256 witness 0

  const BLOCK := 64

  /** The state after all the whole blocks of `m`. */
  function Absorb<S>(f: (S, seq<Byte>) -> S, s: S, m: seq<Byte>): S
    decreases |m|
  {
    if |m| < BLOCK then s else Absorb(f, f(s, m[..BLOCK]), m[BLOCK..])
  }

  /** The bytes after the last whole block. */
  function Rest(m: seq<Byte>): (r: seq<Byte>)
    ensures |r| == |m| % BLOCK
  {
    m[|m| - |m| % BLOCK..]
  }

  /** Folding in more bytes starts from the state and the bytes left over. */
  lemma {:induction false} AbsorbMore<S>(f: (S, seq<Byte>) -> S, s: S, m: seq<Byte>, more: seq<Byte>)
    ensures Absorb(f, s, m + more) == Absorb(f, Absorb(f, s, m), Rest(m) + more)
    ensures Rest(m + more) == Rest(Rest(m) + more)
    decreases |m|
  {
    hide Rest;
    if |m| < BLOCK {
      ShortMessage(f, s, m);
    } else {
      assert (m + more)[..BLOCK] == m[..BLOCK] && (m + more)[BLOCK..] == m[BLOCK..] + more;
      AbsorbMore(f, f(s, m[..BLOCK]), m[BLOCK..], more);
      RestDrops(m);
      RestDrops(m + more);
    }
  }

  lemma ShortMessage<S>(f: (S, seq<Byte>) -> S, s: S, m: seq<Byte>)
    ensures |m| < BLOCK ==> Absorb(f, s, m) == s && Rest(m) == m
  {
    if |m| < BLOCK {
      hide Rest;
      RestOfShort(m);
    }
  }

  lemma RestOfShort(m: seq<Byte>)
    requires |m| < BLOCK
    ensures Rest(m) == m
  {
    var k := |m| - |m| % BLOCK;
    assert k == 0;
    assert m[k..] == m;
  }

  lemma RestDrops(m: seq<Byte>)
    requires |m| >= BLOCK
    ensures Rest(m) == Rest(m[BLOCK..])
  {
    assert |m[BLOCK..]| % BLOCK == |m| % BLOCK;
  }

  /** One whole block and what follows it. */
  lemma AbsorbBlock<S>(f: (S, seq<Byte>) -> S, s: S, b: seq<Byte>, more: seq<Byte>)
    requires |b| == BLOCK
    ensures Absorb(f, s, b + more) == Absorb(f, f(s, b), more) && Rest(b + more) == Rest(more)
  {
    assert (b + more)[..BLOCK] == b && (b + more)[BLOCK..] == more;
    RestDrops(b + more);
  }

  // ---------------------------------------------------------------- padding

  function Zeros(n: nat): (z: seq<Byte>)
    ensures |z| == n
  {
    seq(n, i => 0)
  }

  /** The zero bytes that bring a message, its closing 0x80 and them to 8 bytes short of a block. */
  function ZeroCount(len: nat): (k: nat)
    ensures k < BLOCK && (len + 1 + k) % BLOCK == BLOCK - 8
  {
    (BLOCK - 9 - len % BLOCK) % BLOCK
  }

  /** The padded message: the bit 1, zeroes, and the 8 bytes of the length. */
  function Padded(m: seq<Byte>, length: seq<Byte>): (p: seq<Byte>)
    requires |length| == 8
    ensures |p| == |m| + 1 + ZeroCount(|m|) + 8
  {
    m + [0x80] + Zeros(ZeroCount(|m|)) + length
  }

  /** The same message is padded alike only with the same length. */
  lemma PaddedTells(m: seq<Byte>, a: seq<Byte>, b: seq<Byte>)
    requires |a| == |b| == 8
    ensures Padded(m, a) == Padded(m, b) <==> a == b
  {
    var front := m + [0x80] + Zeros(ZeroCount(|m|));
    hide Zeros, ZeroCount;
    assert (front + a)[|front|..] == a && (front + b)[|front|..] == b;
  }

  /** It is whole blocks, none longer than needed, and begins with the message. */
  lemma PaddedIsWhole(m: seq<Byte>, length: seq<Byte>)
    requires |length| == 8
    ensures |Padded(m, length)| % BLOCK == 0 && |Padded(m, length)| < |m| + 9 + BLOCK
    ensures Padded(m, length)[..|m|] == m
  {
    var k := ZeroCount(|m|);
    hide ZeroCount;
    assert (|m| + 1 + k + 8) % BLOCK == 0;
  }

  /** `n` in bytes, lowest first, and highest first. */
  function LittleEndian(n: nat, len: nat): (b: seq<Byte>)
    ensures |b| == len
    decreases len
  {
    if len == 0 then [] else [n % 256] + LittleEndian(n / 256, len - 1)
  }

  function BigEndian(n: nat, len: nat): (b: seq<Byte>)
    ensures |b| == len
    decreases len
  {
    if len == 0 then [] else BigEndian(n / 256, len - 1) + [n % 256]
  }

  // ---------------------------------------------------------------- messages in pieces

  function Joined(pieces: seq<seq<Byte>>): seq<Byte> {
    if pieces == [] then [] else Joined(pieces[..|pieces| - 1]) + pieces[|pieces| - 1]
  }

  lemma NoPieces(pieces: seq<seq<Byte>>)
    ensures Joined(pieces[..0]) == []
  {
  }

  lemma JoinedMore(pieces: seq<seq<Byte>>, i: nat)
    requires i < |pieces|
    ensures Joined(pieces[..i + 1]) == Joined(pieces[..i]) + pieces[i]
  {
    assert pieces[..i + 1][..i] == pieces[..i];
  }

  lemma {:induction false} JoinedWithin(pieces: seq<seq<Byte>>, i: nat)
    requires i <= |pieces|
    ensures |Joined(pieces[..i])| <= |Joined(pieces)|
    ensures i > 0 ==> |pieces[i - 1]| <= |Joined(pieces)|
    decreases |pieces|
  {
    assert pieces[..|pieces|] == pieces;
    if i < |pieces| {
      var fewer := pieces[..|pieces| - 1];
      assert fewer[..i] == pieces[..i];
      JoinedWithin(fewer, i);
    } else if i > 0 {
      JoinedMore(pieces, i - 1);
    }
  }
}
