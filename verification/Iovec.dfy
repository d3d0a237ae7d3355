/** The write vector of `iovec.c`: what is added leaves byte by byte in order, however short the writes, and each item
    is called back once. */
module Iovec {

  type Byte = n: nat | n < 256 witness 0

  /** `wiov_orig_t`: what was added, with its callbacks known by `id`; none after a reset. */
  datatype Orig = NoOrig | Orig(id: int, bytes: seq<Byte>)

  /** `struct iovec`: where in the bytes added the rest begins, and its length. */
  datatype Piece = Piece(base: nat, len: nat)

  datatype Option<T> = None | Some(value: T)

  datatype Call = Succ(o: Orig) | Fail(o: Orig)

  /** The bytes still to be written from item `i` on. */
  function Rest(orig: seq<Orig>, iov: seq<Piece>, i: nat, cnt: nat): seq<Byte>
    requires i <= cnt <= |orig| && |orig| == |iov| && AllFit(orig, iov, i, cnt)
    decreases cnt - i
  {
    if i == cnt then [] else
      assert Fits(orig[i], iov[i]);
      orig[i].bytes[iov[i].base..] + Rest(orig, iov, i + 1, cnt)
  }

  predicate AllFit(orig: seq<Orig>, iov: seq<Piece>, i: nat, cnt: nat)
    requires cnt <= |orig| && |orig| == |iov|
  {
    forall k {:trigger orig[k]} {:trigger iov[k]} :: i <= k < cnt ==> Fits(orig[k], iov[k])
  }

  predicate Fits(o: Orig, p: Piece) { o.Orig? && p.base + p.len == |o.bytes| }

  lemma {:induction false} RestSame(orig: seq<Orig>, iov: seq<Piece>, orig': seq<Orig>, iov': seq<Piece>, i: nat,
      cnt: nat)
    requires i <= cnt <= |orig| == |iov| && |orig'| == |iov'| >= cnt
    requires AllFit(orig, iov, i, cnt) && forall k :: i <= k < cnt ==> orig'[k] == orig[k] && iov'[k] == iov[k]
    ensures Rest(orig', iov', i, cnt) == Rest(orig, iov, i, cnt)
    decreases cnt - i
  {
    if i < cnt { RestSame(orig, iov, orig', iov', i + 1, cnt); }
  }

  lemma {:induction false} RestMore(orig: seq<Orig>, iov: seq<Piece>, i: nat, cnt: nat)
    requires i <= cnt < |orig| == |iov| && AllFit(orig, iov, i, cnt + 1)
    ensures Rest(orig, iov, i, cnt + 1) == Rest(orig, iov, i, cnt) + orig[cnt].bytes[iov[cnt].base..]
    decreases cnt - i
  {
    if i < cnt {
      RestMore(orig, iov, i + 1, cnt);
      var a, b, c := orig[i].bytes[iov[i].base..], Rest(orig, iov, i + 1, cnt), orig[cnt].bytes[iov[cnt].base..];
      assert a + (b + c) == (a + b) + c;
    } else {
      assert Rest(orig, iov, cnt + 1, cnt + 1) == [];
    }
  }

  lemma RestStarts(orig: seq<Orig>, iov: seq<Piece>, i: nat, cnt: nat)
    requires i < cnt <= |orig| == |iov| && AllFit(orig, iov, i, cnt)
    ensures Fits(orig[i], iov[i]) && AllFit(orig, iov, i + 1, cnt)
    ensures Rest(orig, iov, i, cnt) == orig[i].bytes[iov[i].base..] + Rest(orig, iov, i + 1, cnt)
  {
  }

  lemma RestEnds(orig: seq<Orig>, iov: seq<Piece>, cnt: nat)
    requires cnt <= |orig| == |iov|
    ensures Rest(orig, iov, cnt, cnt) == []
  {
  }

  class Wiov {
    const max: nat
    const orig: array<Orig>
    const iov: array<Piece>
    var cnt: nat
    var idx: nat
    var calls: seq<Call>
    /** Every item ever added, and the bytes of all of them. */
    ghost var items: seq<Orig>
    ghost var all: seq<Byte>
    ghost var sent: nat

    /** The items called back are the first ones, the rest stand in the vector; so do the bytes not written. */
    ghost predicate Valid()
      reads this, orig, iov
    {
      Queued(sent) && (idx == cnt ==> idx == 0)
    }

    ghost predicate Queued(at: nat)
      reads this`cnt, this`idx, this`calls, this`items, this`all, orig, iov
    {
      && orig.Length == iov.Length == max && idx <= cnt <= max
      && |items| == |calls| + cnt - idx
      && (forall k :: 0 <= k < |calls| ==> calls[k].o == items[k])
      && (forall k :: idx <= k < cnt ==> orig[k] == items[|calls| + k - idx])
      && (forall k :: idx < k < cnt ==> iov[k].base == 0)
      && at <= |all| && AllFit(orig[..], iov[..], idx, cnt) && all[at..] == Rest(orig[..], iov[..], idx, cnt)
    }

    /** `wiov_init` once its two arrays are there. */
    constructor (max: nat)
      ensures Valid() && items == [] && all == [] && calls == [] && cnt == 0 && this.max == if max > 1024 then 1024
        else max
      ensures fresh(orig) && fresh(iov)
    {
      this.max := if max > 1024 then 1024 else max;
      orig := new Orig[if max > 1024 then 1024 else max](_ => NoOrig);
      iov := new Piece[if max > 1024 then 1024 else max](_ => Piece(0, 0));
      cnt, idx, calls, items, all, sent := 0, 0, [], [], [], 0;
    }

    /** `wiov_item_add`, on a vector that is not full. */
    method Add(o: Orig)
      requires Valid() && cnt < max && o.Orig?
      modifies this`cnt, this`items, this`all, orig, iov
      ensures Valid() && items == old(items) + [o] && all == old(all) + o.bytes && cnt == old(cnt) + 1
    {
      hide Rest;
      ghost var orig0, iov0 := orig[..], iov[..];
      iov[cnt] := Piece(0, |o.bytes|);
      orig[cnt] := o;
      cnt := cnt + 1;
      items, all := items + [o], all + o.bytes;
      RestSame(orig0, iov0, orig[..], iov[..], idx, cnt - 1);
      RestMore(orig[..], iov[..], idx, cnt - 1);
      assert o.bytes[0..] == o.bytes;
      Lengthened(old(all), o.bytes, sent);
    }

    method Reset(i: nat)
      requires i < orig.Length == iov.Length
      modifies orig, iov
      ensures orig[..] == old(orig[..])[i := NoOrig] && iov[..] == old(iov[..])[i := Piece(0, 0)]
    {
      iov[i] := Piece(0, 0);
      orig[i] := NoOrig;
    }

    /** The first item is written: it is called back. */
    method Finish(ghost at: nat)
      requires Queued(at) && idx < cnt
      modifies this`idx, this`calls, orig, iov
      ensures idx == old(idx) + 1 && Queued(at + old(iov[idx].len)) && calls == old(calls) + [Succ(old(orig[idx]))]
    {
      hide Rest;
      ghost var orig0, iov0 := orig[..], iov[..];
      RestStarts(orig0, iov0, idx, cnt);
      Advanced(all, at, orig0[idx].bytes[iov0[idx].base..], Rest(orig0, iov0, idx + 1, cnt));
      calls := calls + [Succ(orig[idx])];
      Reset(idx);
      RestSame(orig0, iov0, orig[..], iov[..], idx + 1, cnt);
      idx := idx + 1;
    }

    /** The first item is written in part. */
    method Trim(k: nat, ghost at: nat)
      requires Queued(at) && idx < cnt && k < iov[idx].len
      modifies iov
      ensures Queued(at + k) && iov[idx].len > 0
    {
      hide Rest;
      ghost var orig0, iov0 := orig[..], iov[..];
      RestStarts(orig0, iov0, idx, cnt);
      iov[idx] := Piece(iov[idx].base + k, iov[idx].len - k);
      RestSame(orig0, iov0, orig[..], iov[..], idx + 1, cnt);
      RestStarts(orig[..], iov[..], idx, cnt);
      Shortened(all, at, orig0[idx].bytes[iov0[idx].base..], Rest(orig0, iov0, idx + 1, cnt), k);
    }

    /** `wiov_item_adjust` after a write of `n` bytes: as many bytes have left, the items they complete are called back,
        and the next item, if any, has bytes left. */
    method Adjust(n: nat)
      requires Valid() && n <= |all| - sent
      modifies this`cnt, this`idx, this`calls, this`sent, orig, iov
      ensures Valid() && sent == old(sent) + n
      ensures old(calls) <= calls && forall k :: |old(calls)| <= k < |calls| ==> calls[k].Succ?
      ensures idx < cnt ==> iov[idx].len > 0
    {
      hide Queued;
      Sizes(sent);
      var len: nat := 0;
      while idx < cnt
        invariant Queued(sent + len) && len <= n && sent == old(sent) && all == old(all)
        invariant idx <= cnt <= max == iov.Length == orig.Length
        invariant old(calls) <= calls && forall k :: |old(calls)| <= k < |calls| ==> calls[k].Succ?
        decreases cnt - idx
      {
        if len + iov[idx].len <= n {
          len := len + iov[idx].len;
          Finish(sent + len - iov[idx].len);
          Sizes(sent + len);
        } else {
          Trim(n - len, sent + len);
          sent := sent + n;
          Sizes(sent);
          return;
        }
      }
      Emptied(sent + len);
      sent := sent + n;
      idx, cnt := 0, 0;
      Empty(sent);
    }

    lemma Sizes(at: nat)
      requires Queued(at)
      ensures idx <= cnt <= max == iov.Length == orig.Length && at <= |all|
    {
    }

    /** With every item finished, all is written; and a vector emptied then is in order. */
    lemma Emptied(at: nat)
      requires Queued(at) && idx == cnt
      ensures at == |all| && |calls| == |items| && forall k :: 0 <= k < |calls| ==> calls[k].o == items[k]
    {
      RestEnds(orig[..], iov[..], cnt);
    }

    lemma Empty(at: nat)
      requires idx == cnt == 0 && max == iov.Length == orig.Length && at == |all|
      requires |calls| == |items| && forall k :: 0 <= k < |calls| ==> calls[k].o == items[k]
      ensures Queued(at)
    {
      RestEnds(orig[..], iov[..], 0);
    }

    /** `wiov_clean`: what was not written is called back as failed, and its bytes are dropped. */
    method Clean()
      requires Valid()
      modifies this`cnt, this`idx, this`calls, this`sent, orig, iov
      ensures Valid() && cnt == 0 && |calls| == |items| && sent == |all|
      ensures old(calls) <= calls && forall k :: |old(calls)| <= k < |calls| ==> calls[k].Fail?
    {
      var i := idx;
      while i < cnt
        invariant idx <= i <= cnt <= max && |items| == |calls| + cnt - i
        invariant forall k :: 0 <= k < |calls| ==> calls[k].o == items[k]
        invariant forall k :: i <= k < cnt ==> orig[k] == items[|calls| + k - i]
        invariant old(calls) <= calls && forall k :: |old(calls)| <= k < |calls| ==> calls[k].Fail?
      {
        calls := calls + [Fail(orig[i])];
        Reset(i);
        i := i + 1;
      }
      idx, cnt, sent := 0, 0, |all|;
    }
  }

  lemma Advanced(all: seq<Byte>, at: nat, head: seq<Byte>, rest: seq<Byte>)
    requires at <= |all| && all[at..] == head + rest
    ensures at + |head| <= |all| && all[at + |head|..] == rest
  {
    assert all[at + |head|..] == all[at..][|head|..];
  }

  lemma Lengthened(all: seq<Byte>, more: seq<Byte>, at: nat)
    requires at <= |all|
    ensures (all + more)[at..] == all[at..] + more
  {
  }

  lemma Shortened(all: seq<Byte>, at: nat, head: seq<Byte>, rest: seq<Byte>, k: nat)
    requires at <= |all| && all[at..] == head + rest && k <= |head|
    ensures at + k <= |all| && all[at + k..] == head[k..] + rest
  {
    assert all[at + k..] == all[at..][k..];
  }

  /** `wiov_init`: no vector unless there is memory for both arrays. */
  method Init(max: nat, origOk: bool, iovOk: bool) returns (wiov: Option<Wiov>)
    ensures wiov.Some? <==> origOk && iovOk
    ensures wiov.Some? ==> var w := wiov.value;
      fresh(w) && w.Valid() && w.items == [] && w.cnt == 0 && w.max == if max > 1024 then 1024 else max
  {
    if !origOk || !iovOk {
      return None;
    }
    var w := new Wiov(max);
    return Some(w);
  }
}
