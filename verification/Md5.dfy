/** The buffering, counting and padding of MD5 in `md5.c`; `md5_transform` is left open. */
module Md5 {
  import opened Digest

  const WORD := 0x1_0000_0000

  /** The bit count of a message as its two words hold it, modulo 2^64. */
  function BitCount(len: nat): nat { 8 * len % (WORD * WORD) }

  /** What section 3 of RFC 1321 feeds to the compression function. */
  function Message(m: seq<Byte>): seq<Byte> { Padded(m, LittleEndian(BitCount(|m|), 8)) }

  /** The four bytes of a word, lowest first. */
  function WordBytes(w: nat): (b: seq<Byte>)
    ensures |b| == 4
  {
    [w % 256, w / 0x100 % 256, w / 0x1_0000 % 256, w / 0x100_0000 % 256]
  }

  lemma EarlierStay(was: seq<Byte>, now: seq<Byte>, i: nat)
    requires 4 * i <= |was| == |now| && now[..4 * i] == was[..4 * i]
    ensures forall k :: 0 <= k < i ==> now[4 * k..4 * k + 4] == was[4 * k..4 * k + 4]
  {
    forall k | 0 <= k < i ensures now[4 * k..4 * k + 4] == was[4 * k..4 * k + 4] {
      assert now[4 * k..4 * k + 4] == now[..4 * i][4 * k..4 * k + 4];
      assert was[4 * k..4 * k + 4] == was[..4 * i][4 * k..4 * k + 4];
    }
  }

  /** `Encode`: words to bytes, lowest byte first. */
  method Encode(input: seq<nat>, len: nat) returns (output: array<Byte>)
    requires len == 4 * |input|
    ensures fresh(output) && output.Length == len
    ensures forall i :: 0 <= i < |input| ==> output[4 * i..4 * i + 4] == WordBytes(input[i])
  {
    output := new Byte[len](_ => 0);
    var i, j := 0, 0;
    while j < len
      invariant j == 4 * i <= len && output.Length == len
      invariant forall k :: 0 <= k < i ==> output[4 * k..4 * k + 4] == WordBytes(input[k])
    {
      ghost var was := output[..];
      output[j] := input[i] % 256;
      output[j + 1] := input[i] / 0x100 % 256;
      output[j + 2] := input[i] / 0x1_0000 % 256;
      output[j + 3] := input[i] / 0x100_0000 % 256;
      assert output[..j] == was[..j];
      EarlierStay(was, output[..], i);
      assert output[j..j + 4] == WordBytes(input[i]);
      i, j := i + 1, j + 4;
    }
  }

  lemma FourBytes(n: nat, rest: nat)
    ensures LittleEndian(n, 4 + rest) == WordBytes(n % WORD) + LittleEndian(n / WORD, rest)
  {
    hide LittleEndian;
    FirstFour(n, rest);
    FirstDigit(n);
    SecondDigit(n);
    ThirdDigit(n);
    FourthDigit(n);
    WordsOver(n);
  }

  lemma WordsOver(n: nat)
    ensures n / 256 / 256 / 256 / 256 == n / WORD
  {
    var n1, n2, n3 := n / 256, n / 256 / 256, n / 256 / 256 / 256;
    assert n == n1 * 256 + n % 256 && n1 == n2 * 256 + n1 % 256 && n2 == n3 * 256 + n2 % 256;
    assert n3 == n3 / 256 * 256 + n3 % 256;
  }

  lemma FirstFour(n: nat, rest: nat)
    ensures LittleEndian(n, 4 + rest) ==
      [n % 256, n / 256 % 256, n / 256 / 256 % 256, n / 256 / 256 / 256 % 256]
        + LittleEndian(n / 256 / 256 / 256 / 256, rest)
  {
    var n1, n2, n3 := n / 256, n / 256 / 256, n / 256 / 256 / 256;
    assert LittleEndian(n3, 1 + rest) == [n3 % 256] + LittleEndian(n3 / 256, rest);
    assert LittleEndian(n2, 2 + rest) == [n2 % 256] + LittleEndian(n3, 1 + rest);
    assert LittleEndian(n1, 3 + rest) == [n1 % 256] + LittleEndian(n2, 2 + rest);
  }

  lemma FirstDigit(n: nat)
    ensures n % WORD % 256 == n % 256
  {
  }

  lemma SecondDigit(n: nat)
    ensures n % WORD / 0x100 % 256 == n / 256 % 256
  {
    assert n / 0x100 == n / WORD * 0x100_0000 + n % WORD / 0x100;
  }

  lemma ThirdDigit(n: nat)
    ensures n % WORD / 0x1_0000 % 256 == n / 256 / 256 % 256
  {
    var q := n / 256 / 256;
    assert q == n / 0x1_0000;
    assert q == n / WORD * 0x1_0000 + n % WORD / 0x1_0000;
  }

  lemma FourthDigit(n: nat)
    ensures n % WORD / 0x100_0000 % 256 == n / 256 / 256 / 256 % 256
  {
    var q := n / 256 / 256 / 256;
    assert q == n / 0x100_0000;
    assert q == n / WORD * 0x100 + n % WORD / 0x100_0000;
  }

  lemma SplitWord(lo: nat, hi: nat)
    requires lo < WORD && hi < WORD
    ensures (lo + hi * WORD) % WORD == lo && (lo + hi * WORD) / WORD == hi && hi % WORD == hi && hi / WORD == 0
  {
  }

  lemma Nothing(b: seq<Byte>)
    ensures b + LittleEndian(0, 0) == b
  {
  }

  /** The two count words, lowest first, are the eight bytes of the count. */
  lemma TwoWords(lo: nat, hi: nat)
    requires lo < WORD && hi < WORD
    ensures WordBytes(lo) + WordBytes(hi) == LittleEndian(lo + hi * WORD, 8)
  {
    hide LittleEndian, WordBytes;
    SplitWord(lo, hi);
    FourBytes(lo + hi * WORD, 4);
    FourBytes(hi, 0);
    Nothing(WordBytes(hi));
  }

  /** `Decode`, for one word. */
  function WordOf(b: seq<Byte>): nat
    requires |b| == 4
  {
    b[0] as int + b[1] as int * 0x100 + b[2] as int * 0x1_0000 + b[3] as int * 0x100_0000
  }

  method Decode(input: seq<Byte>) returns (output: array<nat>)
    requires |input| % 4 == 0
    ensures fresh(output) && output.Length == |input| / 4
    ensures forall i :: 0 <= i < output.Length ==> output[i] == WordOf(input[4 * i..4 * i + 4])
  {
    output := new nat[|input| / 4](_ => 0);
    var i, j := 0, 0;
    while j < |input|
      invariant j == 4 * i <= |input| && i <= output.Length
      invariant forall k :: 0 <= k < i ==> output[k] == WordOf(input[4 * k..4 * k + 4])
    {
      output[i] := input[j] as int + input[j + 1] as int * 0x100 + input[j + 2] as int * 0x1_0000
        + input[j + 3] as int * 0x100_0000;
      i, j := i + 1, j + 4;
    }
  }

  /** `Encode` and `Decode` undo each other, word by word. */
  lemma WordsRoundTrip(w: nat, b: seq<Byte>)
    requires w < WORD && |b| == 4
    ensures WordOf(WordBytes(w)) == w && WordBytes(WordOf(b)) == b
  {
    BytesBack(b);
    hide WordBytes, WordOf;
    WordBack(w);
  }

  lemma WordBack(w: nat)
    requires w < WORD
    ensures WordOf(WordBytes(w)) == w
  {
    var w1, w2, w3 := w / 0x100, w / 0x1_0000, w / 0x100_0000;
    assert w == w % 256 + w1 * 256 && w1 == w1 % 256 + w2 * 256 && w2 == w2 % 256 + w3 * 256 && w3 < 256;
  }

  lemma BytesBack(b: seq<Byte>)
    requires |b| == 4
    ensures WordBytes(WordOf(b)) == b
  {
    assert WordOf(b) / 0x100 == b[1] as int + b[2] as int * 0x100 + b[3] as int * 0x1_0000;
    assert WordOf(b) / 0x1_0000 == b[2] as int + b[3] as int * 0x100;
    assert WordOf(b) / 0x100_0000 == b[3];
  }

  /** The loop test of `md5_update` in the 32 bits it is computed in. */
  predicate BlockLeft(i: nat, len: nat) { (i + 63) % WORD < len }

  /** The place its loop has come to after `k` rounds, with `index` bytes in the buffer before the call. */
  function PlaceAfter(index: nat, k: nat): nat
    requires index < BLOCK
  {
    (BLOCK - index + BLOCK * k) % WORD
  }

  /** The buffer was empty, or the piece ends before the last place the loop can come to. */
  predicate Ends(index: nat, len: nat) { index == 0 || len < WORD - index }

  /** The loop over whole blocks comes to an end exactly under that condition. */
  lemma LoopEnds(index: nat, len: nat)
    requires index < BLOCK && BLOCK - index <= len < WORD
    ensures (exists k: nat :: !BlockLeft(PlaceAfter(index, k), len)) <==> Ends(index, len)
  {
    if Ends(index, len) {
      var k := (len - (BLOCK - index)) / BLOCK;
      var i := BLOCK - index + BLOCK * k;
      assert i <= len < i + BLOCK;
      TestIsRight(index, i, len, k);
      assert PlaceAfter(index, k) == i;
    } else {
      forall k: nat ensures BlockLeft(PlaceAfter(index, k), len) { GoesRound(index, len, k); }
    }
  }

  /** At every place on the way the test says whether a whole block is left. */
  lemma TestIsRight(index: nat, i: nat, len: nat, k: nat)
    requires index < BLOCK && i == BLOCK - index + BLOCK * k && i <= len < WORD && Ends(index, len)
    ensures BlockLeft(i, len) <==> i + 63 < len
  {
  }

  /** Without that condition it never ends: from the last place, which is past the last whole block, the next
      round comes back to the first. */
  lemma GoesRound(index: nat, len: nat, k: nat)
    requires 0 < index < BLOCK && WORD - index <= len < WORD
    ensures BlockLeft(PlaceAfter(index, k), len)
    ensures PlaceAfter(index, WORD / BLOCK - 1) == WORD - index
      && PlaceAfter(index, WORD / BLOCK) == PlaceAfter(index, 0)
  {
    var j := k % (WORD / BLOCK);
    assert k == k / (WORD / BLOCK) * (WORD / BLOCK) + j;
    var i := BLOCK - index + BLOCK * j;
    assert BLOCK - index + BLOCK * k == i + k / (WORD / BLOCK) * WORD;
    SameRest(i, k / (WORD / BLOCK));
    assert i < WORD && PlaceAfter(index, k) == i;
  }

  lemma SameRest(i: nat, q: nat)
    requires i < WORD
    ensures (i + q * WORD) % WORD == i
  {
  }

  /** One byte, and then the longest piece there can be: no end. */
  lemma NoEnd()
    ensures forall k: nat :: BlockLeft(PlaceAfter(1, k), WORD - 1)
  {
    LoopEnds(1, WORD - 1);
  }

  /** A digest under way, with any state type and compression function. */
  class Context<S(!new)> {
    const transform: (S, seq<Byte>) -> S
    const iv: S
    var state: S
    var count0: nat
    var count1: nat
    const buffer: array<Byte>
    ghost var message: seq<Byte>

    /** The count is that of the message, the state holds its whole blocks, the buffer the rest. */
    ghost predicate Valid()
      reads this, buffer
    {
      && buffer.Length == BLOCK && count0 < WORD && count1 < WORD
      && count0 + count1 * WORD == BitCount(|message|)
      && state == Absorb(transform, iv, message)
      && buffer[..|message| % BLOCK] == Rest(message)
    }

    /** `md5_init`. */
    constructor (transform: (S, seq<Byte>) -> S, iv: S)
      ensures Valid() && message == [] && this.transform == transform && this.iv == iv && fresh(buffer)
    {
      this.transform, this.iv, state := transform, iv, iv;
      count0, count1 := 0, 0;
      buffer := new Byte[BLOCK](_ => 0);
      message := [];
    }

    method Copy(index: nat, input: seq<Byte>, from: nat, len: nat)
      requires index + len <= buffer.Length && from + len <= |input|
      modifies buffer
      ensures buffer[..index] == old(buffer[..index]) && buffer[index..index + len] == input[from..from + len]
    {
      ghost var was := buffer[..index];
      for k := 0 to len
        invariant buffer[..index] == was && buffer[index..index + k] == input[from..from + k]
      {
        buffer[index + k] := input[from + k];
        assert buffer[index..index + k + 1] == buffer[index..index + k] + [input[from + k]];
      }
    }

    /** The count of the bits of `len` more bytes, with the carry from the lower word. */
    method CountUp(len: nat)
      requires len < WORD && count0 < WORD && count1 < WORD && count0 + count1 * WORD == BitCount(|message|)
      modifies this`count0, this`count1
      ensures count0 < WORD && count1 < WORD && count0 + count1 * WORD == BitCount(|message| + len)
    {
      CountAdds(count0, count1, |message|, len);
      hide BitCount;
      var shifted := len * 8 % WORD;
      count0 := (count0 + shifted) % WORD;
      if count0 < shifted {
        count1 := (count1 + 1) % WORD;
      }
      count1 := (count1 + len / 0x2000_0000) % WORD;
    }

    /** `md5_update`, for every piece on which its loop ends. */
    method Update(input: seq<Byte>)
      requires Valid() && |input| < WORD && Ends(|message| % BLOCK, |input|)
      modifies this`state, this`count0, this`count1, this`message, buffer
      ensures Valid() && message == old(message) + input
    {
      hide Absorb, BitCount;
      ghost var m := message;
      CountTells(count0, count1, |message|);
      var index := count0 / 8 % BLOCK;
      CountUp(|input|);
      AbsorbMore(transform, iv, m, input);
      Feed(index, input, Rest(m));
      message := m + input;
    }

    /** The blocks completed by `input` go into the state, the bytes left over into the buffer. */
    method Feed(index: nat, input: seq<Byte>, ghost rest: seq<Byte>)
      requires buffer.Length == BLOCK && index == |rest| < BLOCK && buffer[..index] == rest
      requires |input| < WORD && Ends(index, |input|)
      modifies this`state, buffer
      ensures state == Absorb(transform, old(state), rest + input)
      ensures buffer[..|rest + input| % BLOCK] == Rest(rest + input)
    {
      hide Absorb, Rest, BlockLeft, Ends;
      ghost var s := state;
      var partLen := BLOCK - index;
      if |input| >= partLen {
        Copy(index, input, 0, partLen);
        assert buffer[..] == buffer[..index] + buffer[index..index + partLen];
        FirstBlock(transform, s, rest, input, buffer[..], partLen);
        state := transform(state, buffer[..]);
        var i := FeedBlocks(input, index);
        ShortMessage(transform, state, input[i..]);
        Copy(0, input, i, |input| - i);
        assert buffer[..|input| - i] == buffer[0..0 + |input| - i];
        RestLength(rest + input);
      } else {
        ShortMessage(transform, state, rest + input);
        Copy(index, input, 0, |input|);
        assert buffer[..index + |input|] == buffer[..index] + buffer[index..index + |input|];
        RestLength(rest + input);
      }
    }

    /** The loop over the whole blocks after the first `64 - index` bytes. */
    method FeedBlocks(input: seq<Byte>, index: nat) returns (i: nat)
      requires index < BLOCK && BLOCK - index <= |input| < WORD && Ends(index, |input|)
      modifies this`state
      ensures i <= |input| < i + BLOCK
      ensures Absorb(transform, state, input[i..]) == Absorb(transform, old(state), input[BLOCK - index..])
      ensures Rest(input[i..]) == Rest(input[BLOCK - index..])
    {
      hide Absorb, Rest, BlockLeft, Ends;
      i := BLOCK - index;
      ghost var k: nat := 0;
      while BlockLeft(i, |input|)
        invariant i <= |input| && i == BLOCK - index + BLOCK * k
        invariant Absorb(transform, state, input[i..]) == Absorb(transform, old(state), input[BLOCK - index..])
        invariant Rest(input[i..]) == Rest(input[BLOCK - index..])
        decreases |input| - i
      {
        TestIsRight(index, i, |input|, k);
        assert input[i..] == input[i..i + 64] + input[i + 64..];
        AbsorbBlock(transform, state, input[i..i + 64], input[i + 64..]);
        state := transform(state, input[i..i + 64]);
        i, k := i + 64, k + 1;
      }
      TestIsRight(index, i, |input|, k);
    }

    /** `md5_final`: the state is that of the whole padded message. */
    method Final() returns (digest: S)
      requires Valid()
      modifies this`state, this`count0, this`count1, this`message, buffer
      ensures digest == Absorb(transform, iv, Message(old(message)))
    {
      hide Absorb, LittleEndian, WordBytes, Zeros, Padded, Message, BitCount;
      ghost var m := message;
      var bits := Encode([count0, count1], 8);
      EightBytes(bits[..], count0, count1);
      CountTells(count0, count1, |message|);
      var index := count0 / 8 % BLOCK;
      var padLen := if index < 56 then 56 - index else 120 - index;
      PadIs(m, padLen, bits[..]);
      Update([0x80] + Zeros(padLen - 1));
      Update(bits[..]);
      ShortMessage(transform, iv, []);
      digest := state;
    }
  }

  lemma EightBytes(bits: seq<Byte>, lo: nat, hi: nat)
    requires |bits| == 8 && lo < WORD && hi < WORD
    requires forall i :: 0 <= i < 2 ==> bits[4 * i..4 * i + 4] == WordBytes([lo, hi][i])
    ensures bits == LittleEndian(lo + hi * WORD, 8)
  {
    hide LittleEndian, WordBytes;
    TwoWords(lo, hi);
    assert bits[4 * 0..4 * 0 + 4] == WordBytes([lo, hi][0]) && bits[4 * 1..4 * 1 + 4] == WordBytes([lo, hi][1]);
    assert bits == bits[0..4] + bits[4..8];
  }

  /** The padding `md5_final` takes from its table, and the length, complete the padded message. */
  lemma PadIs(m: seq<Byte>, padLen: nat, bits: seq<Byte>)
    requires padLen == if |m| % BLOCK < 56 then 56 - |m| % BLOCK else 120 - |m| % BLOCK
    requires |bits| == 8 && bits == LittleEndian(BitCount(|m|), 8)
    ensures 1 <= padLen <= 64 && m + ([0x80] + Zeros(padLen - 1)) + bits == Message(m)
  {
    hide LittleEndian, BitCount;
    assert ZeroCount(|m|) == padLen - 1;
    assert m + ([0x80] + Zeros(padLen - 1)) == m + [0x80] + Zeros(padLen - 1);
  }

  /** The sum of the two counts, carry included. */
  lemma CountAdds(count0: nat, count1: nat, len: nat, more: nat)
    requires count0 < WORD && count1 < WORD && more < WORD && count0 + count1 * WORD == BitCount(len)
    ensures var shifted := more * 8 % WORD;
      var lo := (count0 + shifted) % WORD;
      var hi := ((if lo < shifted then (count1 + 1) % WORD else count1) + more / 0x2000_0000) % WORD;
      lo + hi * WORD == BitCount(len + more)
  {
    var shifted := more * 8 % WORD;
    var carry := if count0 + shifted >= WORD then 1 else 0;
    var lo, top := count0 + shifted - carry * WORD, count1 + carry + more / 0x2000_0000;
    assert more * 8 == shifted + more / 0x2000_0000 * WORD;
    assert lo == (count0 + shifted) % WORD;
    TopWraps(lo, top);
    CountGrows(len, more, lo + top * WORD);
    hide BitCount;
    TopAdds(count1, carry, more / 0x2000_0000);
  }

  lemma TopAdds(count1: nat, carry: nat, k: nat)
    requires count1 < WORD && carry <= 1
    ensures (count1 + carry + k) % WORD == ((if carry == 1 then (count1 + 1) % WORD else count1) + k) % WORD
  {
  }

  lemma CountGrows(len: nat, more: nat, sum: nat)
    requires sum == BitCount(len) + 8 * more
    ensures sum % (WORD * WORD) == BitCount(len + more)
  {
    var q := 8 * len / (WORD * WORD);
    assert 8 * (len + more) == sum + q * (WORD * WORD);
    SameRemainder(sum, q);
  }

  lemma SameRemainder(a: nat, q: nat)
    ensures (a + q * (WORD * WORD)) % (WORD * WORD) == a % (WORD * WORD)
  {
  }

  lemma TopWraps(lo: nat, top: nat)
    requires lo < WORD
    ensures (lo + top * WORD) % (WORD * WORD) == lo + top % WORD * WORD
  {
    var k := top / WORD;
    assert lo + top * WORD == lo + top % WORD * WORD + k * (WORD * WORD);
  }

  lemma CountTells(count0: nat, count1: nat, len: nat)
    requires count0 < WORD && count1 < WORD && count0 + count1 * WORD == BitCount(len)
    ensures count0 / 8 % BLOCK == len % BLOCK
  {
    var q := 8 * len / (WORD * WORD);
    assert count0 == 8 * (len - q * 0x2000_0000_0000_0000 - count1 * 0x2000_0000);
  }

  lemma FirstBlock<S>(f: (S, seq<Byte>) -> S, s: S, rest: seq<Byte>, input: seq<Byte>, buffer: seq<Byte>, part: nat)
    requires part <= |input| && buffer == rest + input[..part] && |buffer| == BLOCK
    ensures Absorb(f, f(s, buffer), input[part..]) == Absorb(f, s, rest + input)
    ensures Rest(input[part..]) == Rest(rest + input)
  {
    hide Absorb, Rest;
    assert input == input[..part] + input[part..];
    assert rest + input == buffer + input[part..];
    AbsorbBlock(f, s, buffer, input[part..]);
  }

  lemma RestLength(m: seq<Byte>)
    ensures |Rest(m)| == |m| % BLOCK
  {
  }

  /** However a message is cut into pieces, the digest is that of the padded whole. */
  method DigestPieces<S(!new)>(transform: (S, seq<Byte>) -> S, iv: S, pieces: seq<seq<Byte>>) returns (digest: S)
    requires forall i :: 0 <= i < |pieces| ==> |pieces[i]| < WORD && Ends(|Joined(pieces[..i])| % BLOCK, |pieces[i]|)
    ensures digest == Absorb(transform, iv, Message(Joined(pieces)))
  {
    var c := new Context(transform, iv);
    for i := 0 to |pieces|
      invariant c.Valid() && c.message == Joined(pieces[..i]) && c.transform == transform && c.iv == iv
      invariant fresh(c) && fresh(c.buffer)
    {
      JoinedMore(pieces, i);
      c.Update(pieces[i]);
    }
    assert pieces[..|pieces|] == pieces;
    digest := c.Final();
  }
}
