/** The receiving side of `acc_rsvr.c`: frames of a head and a body cut out of a byte stream that arrives in
    pieces of any size. */
module AccRsvr {

  type Byte = n: nat | n < 256 witness 0

  datatype Event = Data(bytes: seq<Byte>) | Interrupted | WouldBlock | Reset | Failed | Closed
  datatype Errno = None | Eagain | Eintr | Econnreset | Other
  datatype Phase = RecvInit | RecvHead | ReadyBody | RecvBody | RecvPost
  datatype Code = Ok | Again | Close | Err

  // ---------------------------------------------------------------- frames

  /** What the protocol object tells: the size of a head, and from a head the size of its body. */
  datatype Protocol = Protocol(head: nat, body: seq<Byte> -> nat)

  predicate IsFrame(p: Protocol, m: seq<Byte>) {
    |m| >= p.head && |m| == p.head + p.body(m[..p.head])
  }

  predicate IsPartial(p: Protocol, s: seq<Byte>) {
    |s| < p.head || |s| < p.head + p.body(s[..p.head])
  }

  /** Every frame fits a buffer of this size. */
  ghost predicate Fits(p: Protocol, size: nat) {
    forall h :: |h| == p.head ==> p.head + p.body(h) <= size
  }

  /** The frames of a stream, and the bytes after the last of them. */
  function Split(p: Protocol, s: seq<Byte>): (r: (seq<seq<Byte>>, seq<Byte>))
    requires p.head > 0
    decreases |s|
  {
    if IsPartial(p, s) then ([], s) else
      var n := p.head + p.body(s[..p.head]);
      var rest := Split(p, s[n..]);
      ([s[..n]] + rest.0, rest.1)
  }

  function Concat(ms: seq<seq<Byte>>): seq<Byte> {
    if ms == [] then [] else ms[0] + Concat(ms[1..])
  }

  lemma {:induction false} ConcatMore(ms: seq<seq<Byte>>, m: seq<Byte>)
    ensures Concat(ms + [m]) == Concat(ms) + m
  {
    if ms == [] {
      assert ms + [m] == [m] && [m][1..] == [];
      assert Concat([m]) == m + Concat([]);
    } else {
      assert (ms + [m])[1..] == ms[1..] + [m];
      ConcatMore(ms[1..], m);
    }
  }

  lemma ConcatFirst(m: seq<Byte>, ms: seq<seq<Byte>>)
    ensures Concat([m] + ms) == m + Concat(ms)
  {
    assert ([m] + ms)[1..] == ms;
  }

  /** Splitting is the only way to read a stream as frames followed by a part of one. */
  lemma {:induction false} SplitIsUnique(p: Protocol, ms: seq<seq<Byte>>, part: seq<Byte>)
    requires p.head > 0 && IsPartial(p, part)
    requires forall m :: m in ms ==> IsFrame(p, m)
    ensures Split(p, Concat(ms) + part) == (ms, part)
  {
    if ms == [] {
      assert Concat(ms) + part == part;
    } else {
      var s, n := Concat(ms) + part, |ms[0]|;
      assert s == ms[0] + (Concat(ms[1..]) + part);
      assert IsFrame(p, ms[0]);
      assert s[..p.head] == ms[0][..p.head];
      assert s[..n] == ms[0] && s[n..] == Concat(ms[1..]) + part;
      SplitIsUnique(p, ms[1..], part);
      assert [ms[0]] + ms[1..] == ms;
    }
  }

  /** And it loses nothing. */
  lemma {:induction false} SplitIsWhole(p: Protocol, s: seq<Byte>)
    requires p.head > 0
    ensures var (ms, part) := Split(p, s);
      s == Concat(ms) + part && IsPartial(p, part) && forall m :: m in ms ==> IsFrame(p, m)
    decreases |s|
  {
    if !IsPartial(p, s) {
      var n := p.head + p.body(s[..p.head]);
      SplitIsWhole(p, s[n..]);
      var (ms, part) := Split(p, s[n..]);
      assert s[..n][..p.head] == s[..p.head];
      ConcatFirst(s[..n], ms);
      hide Concat;
      assert s == s[..n] + s[n..];
    }
  }

  lemma Assoc(a: seq<Byte>, b: seq<Byte>, c: seq<Byte>)
    ensures (a + b) + c == a + (b + c)
  {
  }

  lemma {:induction false} ConcatJoins(a: seq<seq<Byte>>, b: seq<seq<Byte>>)
    ensures Concat(a + b) == Concat(a) + Concat(b)
  {
    if a == [] {
      assert a + b == b;
    } else {
      ConcatJoins(a[1..], b);
      assert (a + b)[1..] == a[1..] + b;
      Assoc(a[0], Concat(a[1..]), Concat(b));
    }
  }

  /** What has arrived of a stream splits into the first of its frames. */
  lemma SplitGrows(p: Protocol, a: seq<Byte>, b: seq<Byte>)
    requires p.head > 0
    ensures Split(p, a).0 <= Split(p, a + b).0
  {
    hide Split, Concat, IsPartial, IsFrame;
    SplitIsWhole(p, a);
    var (ms, part) := Split(p, a);
    SplitIsWhole(p, part + b);
    var (more, rest) := Split(p, part + b);
    ConcatJoins(ms, more);
    assert a + b == Concat(ms) + (part + b);
    Assoc(Concat(ms), Concat(more), rest);
    SplitIsUnique(p, ms + more, rest);
  }

  // ---------------------------------------------------------------- the socket

  function Bytes(events: seq<Event>): seq<Byte> {
    if events == [] then [] else (if events[0].Data? then events[0].bytes else []) + Bytes(events[1..])
  }

  function Work(events: seq<Event>): nat {
    if events == [] then 0 else 1 + (if events[0].Data? then |events[0].bytes| else 0) + Work(events[1..])
  }

  lemma FirstEvent(e: Event, rest: seq<Event>)
    ensures Bytes([e] + rest) == (if e.Data? then e.bytes else []) + Bytes(rest)
    ensures Work([e] + rest) == 1 + (if e.Data? then |e.bytes| else 0) + Work(rest)
  {
    assert ([e] + rest)[1..] == rest;
  }

  /** Events that end the connection; to read no bytes is to read the end. */
  predicate Hard(e: Event) { e.Closed? || e.Reset? || e.Failed? || e == Data([]) }

  /** Events that leave the connection up. */
  predicate Mild(events: seq<Event>) { forall i :: 0 <= i < |events| ==> !Hard(events[i]) }

  /** The bytes that arrive before the connection ends. */
  function Fine(events: seq<Event>): seq<Byte> {
    if events == [] || Hard(events[0]) then []
    else (if events[0].Data? then events[0].bytes else []) + Fine(events[1..])
  }

  lemma FineFirst(e: Event, rest: seq<Event>)
    ensures Fine([e] + rest) == if Hard(e) then [] else (if e.Data? then e.bytes else []) + Fine(rest)
    ensures Mild([e] + rest) <==> !Hard(e) && Mild(rest)
  {
    assert ([e] + rest)[1..] == rest;
    assert Mild([e] + rest) ==> !Hard(([e] + rest)[0]);
    forall i | 0 <= i < |rest| && Mild([e] + rest) ensures !Hard(rest[i]) { assert ([e] + rest)[i + 1] == rest[i]; }
  }

  lemma {:induction false} MildIsFine(events: seq<Event>)
    requires Mild(events)
    ensures Fine(events) == Bytes(events)
  {
    if events != [] {
      assert !Hard(events[0]);
      forall i | 0 <= i < |events| - 1 ensures !Hard(events[1..][i]) { assert events[1..][i] == events[i + 1]; }
      MildIsFine(events[1..]);
    }
  }

  /** The event a read met, if there was one left. */
  datatype Last = Nothing | Met(e: Event)

  /** What `read` says of it. */
  predicate Tells(last: Last, n: int, errno: Errno) {
    match last
    case Nothing => n < 0 && errno == Eagain
    case Met(Data(bytes)) => if bytes == [] then n == 0 else n > 0
    case Met(Interrupted) => n < 0 && errno == Eintr
    case Met(WouldBlock) => n < 0 && errno == Eagain
    case Met(Reset) => n < 0 && errno == Econnreset
    case Met(Failed) => n < 0 && errno == Other
    case Met(Closed) => n == 0
  }

  /** What is to be made of it, in the head of a frame and in its body; `Ok` is to read on. */
  function Verdict(last: Last, head: bool): Code {
    match last
    case Nothing => Again
    case Met(Data(bytes)) => if bytes == [] then Close else Ok
    case Met(Interrupted) => Ok
    case Met(WouldBlock) => Again
    case Met(Reset) => if head then Close else Err
    case Met(Failed) => Err
    case Met(Closed) => Close
  }

  /** All or a first part of what an event brings is read after the bytes `was`. */
  lemma EventRead(was: seq<Byte>, e: Event, rest: seq<Event>, got: seq<Byte>, after: seq<Event>)
    requires if e.Data? && |got| < |e.bytes|
      then 0 < |got| && got == e.bytes[..|got|] && after == [Data(e.bytes[|got|..])] + rest
      else got == (if e.Data? then e.bytes else []) && after == rest
    ensures was + got + Bytes(after) == was + Bytes([e] + rest) && Work(after) < Work([e] + rest)
    ensures if Hard(e) then was + got == was + Fine([e] + rest) && !Mild([e] + rest)
      else was + got + Fine(after) == was + Fine([e] + rest) && (Mild(after) <==> Mild([e] + rest))
  {
    hide Bytes, Work, Fine, Mild;
    FirstEvent(e, rest);
    FineFirst(e, rest);
    Assoc(was, got, Bytes(after));
    Assoc(was, got, Fine(after));
    if e.Data? && |got| < |e.bytes| {
      var more := e.bytes[|got|..];
      FirstEvent(Data(more), rest);
      FineFirst(Data(more), rest);
      assert e.bytes == got + more;
      Assoc(got, more, Bytes(rest));
      Assoc(got, more, Fine(rest));
    }
  }

  /** What will happen on the connection, and the bytes read from it so far. */
  class Socket {
    var events: seq<Event>
    ghost var taken: seq<Byte>
    ghost var last: Last

    constructor (events: seq<Event>)
      ensures this.events == events && taken == []
    {
      this.events, taken, last := events, [], Nothing;
    }

    /** Unless the last event ended the connection, the bytes to come are those there were, less those
        read; if it did, those read are all there were. */
    ghost predicate Goes(was: seq<Byte>, before: seq<Event>)
      reads this
    {
      if last.Met? && Hard(last.e) then taken == was + Fine(before) && !Mild(before)
      else taken + Fine(events) == was + Fine(before) && (Mild(events) <==> Mild(before))
    }

    /** The same over several reads, of which only the last can have ended the connection; `up` says that
        it did not. */
    ghost predicate Went(up: bool, was: seq<Byte>, before: seq<Event>)
      reads this
    {
      if up then taken + Fine(events) == was + Fine(before) && (Mild(events) <==> Mild(before))
      else Goes(was, before)
    }

    /** `read`: some of the bytes that have arrived, none lost and none twice, or an error. */
    method Read(buffer: array<Byte>, off: nat, left: nat) returns (n: int, errno: Errno)
      requires off + left <= buffer.Length
      modifies this, buffer
      ensures n <= left && buffer[..off] == old(buffer[..off])
      ensures left == 0 ==> n == 0
      ensures if n > 0 then taken == old(taken) + buffer[off..off + n]
        else taken == old(taken) && buffer[..] == old(buffer[..])
      ensures taken + Bytes(events) == old(taken + Bytes(events))
      ensures left == 0 || Work(events) < old(Work(events)) || (events == old(events) == [] && n < 0 && errno == Eagain)
      ensures left > 0 ==> last == (if old(events) == [] then Nothing else Met(old(events)[0])) && Tells(last, n, errno)
      ensures left > 0 ==> Goes(old(taken), old(events))
    {
      hide Bytes, Work, Fine, Mild, Hard;
      errno := None;
      if left == 0 { return 0, None; }
      last := Nothing;
      if events == [] { return -1, Eagain; }
      ghost var was, got: seq<Byte> := taken, [];
      var e, rest := events[0], events[1..];
      last := Met(e);
      assert events == [e] + rest;
      match e {
        case Data(bytes) =>
          n := if |bytes| < left then |bytes| else left;
          forall k | 0 <= k < n { buffer[off + k] := bytes[k]; }
          got := bytes[..n];
          assert buffer[off..off + n] == got;
          events := if n < |bytes| then [Data(bytes[n..])] + rest else rest;
          taken := taken + got;
        case Interrupted => n, errno, events := -1, Eintr, rest;
        case WouldBlock => n, errno, events := -1, Eagain, rest;
        case Reset => n, errno, events := -1, Econnreset, rest;
        case Failed => n, errno, events := -1, Other, rest;
        case Closed => n, events := 0, rest;
      }
      EventRead(was, e, rest, got, events);
    }
  }

  // ---------------------------------------------------------------- the receiver

  /** The first `n` frames have memory and are accepted. */
  ghost predicate AllGranted(memory: nat -> bool, accepts: nat -> bool, n: nat) {
    forall k :: 0 <= k < n ==> memory(k) && accepts(k)
  }

  /** Nothing is denied the first `n` frames until the last of them is refused, or after them there is no
      memory. */
  ghost predicate Denied(memory: nat -> bool, accepts: nat -> bool, n: nat) {
    || (AllGranted(memory, accepts, n) && !memory(n))
    || (n > 0 && AllGranted(memory, accepts, n - 1) && memory(n - 1) && !accepts(n - 1))
  }

  class Receiver {
    const p: Protocol
    const size: nat
    const sck: Socket
    /** Whether there is memory for a frame, and whether the callback accepts it, by the frame's number. */
    const memory: nat -> bool
    const accepts: nat -> bool
    var phase: Phase
    var addr: array?<Byte>
    var off: nat
    var total: nat
    var delivered: seq<seq<Byte>>

    /** Every frame fits the buffer, and what was read is the frames delivered and the part in the buffer. */
    ghost predicate Framed(part: seq<Byte>)
      reads this`delivered, sck`taken
    {
      0 < p.head <= size && Whole() && sck.taken == Concat(delivered) + part
    }

    ghost predicate Whole()
      reads this`delivered
    {
      Fits(p, size) && forall m :: m in delivered ==> IsFrame(p, m)
    }

    ghost predicate InHead(limit: nat)
      reads this, sck, addr
    {
      && addr != null && addr.Length == size && off <= limit <= total == p.head <= size
      && Framed(addr[..off])
    }

    ghost predicate InBody()
      reads this, sck, addr
    {
      && addr != null && addr.Length == size && p.head <= off <= total <= size
      && total == p.head + p.body(addr[..p.head]) && Framed(addr[..off])
    }

    /** Between calls. */
    ghost predicate Valid()
      reads this, sck, addr
    {
      match phase
      case RecvInit => Framed([])
      case RecvHead => InHead(p.head) && off < p.head
      case RecvBody => InBody() && off < total
      case _ => false
    }

    constructor (p: Protocol, size: nat, sck: Socket, memory: nat -> bool, accepts: nat -> bool)
      requires 0 < p.head <= size && Fits(p, size)
      requires sck.taken == []
      ensures Valid() && Granted() && this.p == p && this.sck == sck && delivered == [] && addr == null
      ensures this.memory == memory && this.accepts == accepts && phase == RecvInit
    {
      this.p, this.size, this.sck, this.memory, this.accepts := p, size, sck, memory, accepts;
      phase, addr, off, total, delivered := RecvInit, null, 0, 0, [];
    }

    /** One `read` into the buffer, behind what is there. */
    method Fill(buffer: array<Byte>, left: nat) returns (n: int, errno: Errno)
      requires off + left <= buffer.Length && Framed(buffer[..off]) && left > 0
      modifies sck, buffer
      ensures n <= left && buffer[..off] == old(buffer[..off]) && Framed(buffer[..off + if n > 0 then n else 0])
      ensures sck.taken + Bytes(sck.events) == old(sck.taken + Bytes(sck.events))
      ensures Work(sck.events) < old(Work(sck.events))
        || (sck.events == old(sck.events) == [] && n < 0 && errno == Eagain)
      ensures Tells(sck.last, n, errno) && sck.Goes(old(sck.taken), old(sck.events))
    {
      hide Concat, Whole, Bytes, Work, Mild, Fine;
      ghost var was := buffer[..off];
      n, errno := sck.Read(buffer, off, left);
      if n > 0 { Grows(was, buffer[off..off + n], buffer[..off + n]); }
    }

    /** `acc_recv_head`. */
    method Head(buffer: array<Byte>) returns (ret: Code)
      requires addr == buffer && InHead(p.head) && off < p.head
      modifies this`off, sck, buffer
      ensures InHead(p.head) && if ret == Ok then off == p.head else off < p.head
      ensures sck.taken + Bytes(sck.events) == old(sck.taken + Bytes(sck.events))
      ensures Work(sck.events) < old(Work(sck.events)) || (ret == Again && sck.events == [])
      ensures ret != Ok ==> ret == Verdict(sck.last, true)
      ensures sck.Went(ret == Ok, old(sck.taken), old(sck.events))
    {
      hide Concat, Whole, Bytes, Work, Mild, Fine;
      while true
        invariant InHead(p.head) && off < p.head
        invariant sck.taken + Bytes(sck.events) == old(sck.taken + Bytes(sck.events))
        invariant Work(sck.events) <= old(Work(sck.events)) && sck.Went(true, old(sck.taken), old(sck.events))
        decreases Work(sck.events)
      {
        var left := p.head - off;
        var n, errno := Fill(buffer, left);
        if n == left {
          off := off + n;
          return Ok;
        } else if n > 0 {
          off := off + n;
          continue;
        } else if n == 0 || errno == Econnreset {
          return Close;
        } else if errno == Eagain {
          return Again;
        } else if errno == Eintr {
          continue;
        }
        return Err;
      }
    }

    lemma BodyHead(buffer: array<Byte>) returns (head: seq<Byte>)
      requires addr == buffer && InBody()
      ensures buffer.Length == size && p.head <= off <= total <= size
      ensures buffer[..p.head] == head && total == p.head + p.body(head) && Framed(buffer[..off])
    {
      head := buffer[..p.head];
    }

    lemma StillBody(buffer: array<Byte>, head: seq<Byte>)
      requires addr == buffer && buffer.Length == size && p.head <= off <= total <= size
      requires buffer[..p.head] == head && total == p.head + p.body(head) && Framed(buffer[..off])
      ensures InBody()
    {
    }

    /** `acc_recv_body`. */
    method Body(buffer: array<Byte>) returns (ret: Code)
      requires addr == buffer && InBody() && off < total
      modifies this`off, sck, buffer
      ensures InBody() && if ret == Ok then off == total else off < total
      ensures sck.taken + Bytes(sck.events) == old(sck.taken + Bytes(sck.events))
      ensures Work(sck.events) < old(Work(sck.events)) || (ret == Again && sck.events == [])
      ensures ret != Ok ==> ret == Verdict(sck.last, false)
      ensures sck.Went(ret == Ok, old(sck.taken), old(sck.events))
    {
      hide Concat, Framed, Whole, Bytes, Work, InBody, Mild, Fine;
      ghost var head := BodyHead(buffer);
      while true
        invariant p.head <= off < total && buffer[..p.head] == head && Framed(buffer[..off])
        invariant sck.taken + Bytes(sck.events) == old(sck.taken + Bytes(sck.events))
        invariant Work(sck.events) <= old(Work(sck.events)) && sck.Went(true, old(sck.taken), old(sck.events))
        decreases Work(sck.events)
      {
        var left := total - off;
        ghost var was := buffer[..off];
        var n, errno := Fill(buffer, left);
        assert buffer[..p.head] == buffer[..off][..p.head] == was[..p.head];
        if n == left {
          off := off + n;
          StillBody(buffer, head);
          return Ok;
        } else if n > 0 {
          off := off + n;
          continue;
        } else if n == 0 {
          StillBody(buffer, head);
          return Close;
        } else if errno == Eagain {
          StillBody(buffer, head);
          return Again;
        }
        if errno == Eintr {
          continue;
        }
        StillBody(buffer, head);
        return Err;
      }
    }

    lemma Grows(was: seq<Byte>, more: seq<Byte>, now: seq<Byte>)
      requires now == was + more
      ensures Concat(delivered) + was + more == Concat(delivered) + now
    {
    }

    lemma Delivered(part: seq<Byte>)
      requires Framed(part) && IsPartial(p, part)
      ensures delivered == Split(p, sck.taken).0
    {
      hide Concat, IsFrame, Split, IsPartial;
      SplitIsUnique(p, delivered, part);
    }

    /** A whole frame is in the buffer. */
    ghost predicate Complete()
      reads this, sck, addr
    {
      && addr != null && addr.Length == size && total == off <= size && IsFrame(p, addr[..off])
      && Framed(addr[..off])
    }

    /** At the end of a call that did not fill the buffer. */
    ghost predicate Stopped(ret: Code)
      reads this, sck, addr
    {
      p.head > 0 && ret != Ok && (ret == Again ==> Valid()) && delivered == Split(p, sck.taken).0
    }

    /** Some part of a frame is being read. */
    ghost predicate AtWork()
      reads this
    {
      phase == RecvHead || phase == RecvBody
    }

    /** Every frame so far had memory and was accepted, and the one at work has memory. */
    ghost predicate Granted()
      reads this`delivered, this`phase
    {
      AllGranted(memory, accepts, |delivered|) && (phase != RecvInit ==> memory(|delivered|))
    }

    /** Why a call ends: by what the last read met, or because there is no memory for the next frame, or
        because the callback refused the last one. */
    ghost predicate Answers(ret: Code)
      reads this, sck
    {
      if AtWork() then ret == Verdict(sck.last, phase == RecvHead) && Granted()
      else ret == Err && Denied(memory, accepts, |delivered|)
    }

    /** Phase `RECV_INIT`: allocation may fail. */
    method Start() returns (ret: Code)
      requires phase == RecvInit && Valid() && Granted()
      modifies this`addr, this`off, this`total, this`phase
      ensures if ret == Ok then phase == RecvHead && Valid() && Granted() && fresh(addr)
        else ret == Err && Stopped(ret) && addr == old(addr) && Answers(ret) && phase == RecvInit
    {
      hide Concat, Split, IsFrame;
      if !memory(|delivered|) {
        Delivered([]);
        return Err;
      }
      addr := new Byte[size];
      assert addr[..0] == [];
      off, total, phase := 0, p.head, RecvHead;
      ret := Ok;
    }

    /** Phase `RECV_HEAD`: with an empty body the frame is complete. */
    method TakeHead() returns (ret: Code)
      requires phase == RecvHead && Valid() && Granted()
      modifies this`off, this`phase, this`addr, sck, addr
      ensures ret == Ok ==> Granted()
      ensures ret == Ok ==>
        addr == old(addr) && ((phase == ReadyBody && InBodyNext())
        || (phase == RecvPost && Complete()))
      ensures ret != Ok ==> Stopped(ret) && (addr == null || addr == old(addr))
      ensures sck.taken + Bytes(sck.events) == old(sck.taken + Bytes(sck.events))
      ensures Work(sck.events) < old(Work(sck.events)) || (ret == Again && sck.events == [])
      ensures sck.Went(ret == Ok, old(sck.taken), old(sck.events)) && (ret != Ok ==> Answers(ret) && AtWork())
    {
      hide Concat, Split, Bytes, Work, Mild, Fine;
      var buffer: array<Byte> := addr;
      ret := Head(buffer);
      match ret {
        case Ok =>
          assert buffer[..off][..p.head] == buffer[..p.head];
          phase := if p.body(buffer[..p.head]) != 0 then ReadyBody else RecvPost;
        case Again =>
          Delivered(buffer[..off]);
        case _ =>
          Delivered(buffer[..off]);
          addr := null;
      }
    }

    /** The head is complete and announces a body. */
    ghost predicate InBodyNext()
      reads this, sck, addr
    {
      && addr != null && addr.Length == size && p.head == off == total <= size
      && p.body(addr[..p.head]) > 0 && Framed(addr[..off])
    }

    /** Phase `READY_BODY`. */
    method PrepareBody()
      requires phase == ReadyBody && InBodyNext() && Granted()
      modifies this`total, this`phase
      ensures phase == RecvBody && Valid() && Granted()
    {
      hide Concat, IsFrame;
      total, phase := total + p.body(addr[..p.head]), RecvBody;
    }

    /** Phase `RECV_BODY`. */
    method TakeBody() returns (ret: Code)
      requires phase == RecvBody && Valid() && Granted()
      modifies this`off, this`phase, this`addr, sck, addr
      ensures ret == Ok ==> addr == old(addr) && phase == RecvPost && Complete() && Granted()
      ensures ret != Ok ==> Stopped(ret) && (addr == null || addr == old(addr))
      ensures sck.taken + Bytes(sck.events) == old(sck.taken + Bytes(sck.events))
      ensures Work(sck.events) < old(Work(sck.events)) || (ret == Again && sck.events == [])
      ensures sck.Went(ret == Ok, old(sck.taken), old(sck.events)) && (ret != Ok ==> Answers(ret) && AtWork())
    {
      hide Concat, Split, Bytes, Work, Mild, Fine;
      var buffer: array<Byte> := addr;
      ret := Body(buffer);
      assert buffer[..off][..p.head] == buffer[..p.head];
      match ret {
        case Ok =>
          phase := RecvPost;
        case Again =>
          Delivered(buffer[..off]);
        case _ =>
          Delivered(buffer[..off]);
          addr := null;
      }
    }

    /** Phase `RECV_POST`: the callback may refuse the frame. */
    method Post() returns (ret: Code)
      requires phase == RecvPost && Complete() && Granted()
      modifies this`delivered, this`phase, this`addr
      ensures delivered == old(delivered) + [old(addr[..off])] && addr == null
      ensures if ret == Ok then phase == RecvInit && Valid() && Granted()
        else ret == Err && Stopped(ret) && Answers(ret) && phase == RecvPost
    {
      hide Concat, Split, IsFrame;
      ConcatMore(delivered, addr[..off]);
      delivered := delivered + [addr[..off]];
      addr := null;
      if accepts(|delivered| - 1) {
        phase := RecvInit;
        return Ok;
      }
      Delivered([]);
      ret := Err;
    }

    /** `acc_recv_data`, with an allocator that may fail and a callback that may refuse. While the connection
        lives the receiver stays valid, and at every return what was delivered is all the frames of the bytes
        read so far. */
    method RecvData() returns (ret: Code)
      requires Valid() && Granted()
      modifies this, sck, addr
      ensures Stopped(ret)
      ensures sck.taken + Bytes(sck.events) == old(sck.taken + Bytes(sck.events))
      ensures ret == Again ==> sck.events == [] || Work(sck.events) < old(Work(sck.events))
      ensures addr == null || addr == old(addr) || fresh(addr)
      ensures Answers(ret) && sck.Went(!AtWork(), old(sck.taken), old(sck.events))
    {
      hide Concat, Split, IsFrame, Bytes, Work, Mild, Fine, Framed, InHead, InBody, InBodyNext, Complete, Valid,
        Stopped, Granted, Answers;
      while true
        invariant Valid() && Granted() && (addr == null || addr == old(addr) || fresh(addr))
        invariant sck.taken + Bytes(sck.events) == old(sck.taken + Bytes(sck.events))
        invariant Work(sck.events) <= old(Work(sck.events)) && sck.Went(true, old(sck.taken), old(sck.events))
        decreases Work(sck.events)
      {
        AtRest();
        if phase == RecvInit {
          ret := Start();
          if ret != Ok { return; }
        }
        if phase == RecvHead {
          ret := TakeHead();
          if ret != Ok { return; }
        }
        if phase == ReadyBody {
          PrepareBody();
        }
        if phase == RecvBody {
          ret := TakeBody();
          if ret != Ok { return; }
        }
        ret := Post();
        if ret != Ok { return; }
      }
    }

    lemma AtRest()
      requires Valid()
      ensures phase == RecvInit || (addr != null && (phase == RecvHead || phase == RecvBody))
    {
      hide Framed;
    }
  }

  lemma DeniedStays(memory: nat -> bool, accepts: nat -> bool, n: nat, m: nat)
    requires n <= m && Denied(memory, accepts, n)
    ensures !(AllGranted(memory, accepts, m) && memory(m))
  {
  }

  lemma NothingYet(p: Protocol)
    requires p.head > 0
    ensures Split(p, []).0 == []
  {
  }

  lemma NoEvents(events: seq<Event>)
    ensures events == [] <==> Work(events) == 0
    ensures events == [] ==> Bytes(events) == []
  {
  }

  lemma NothingHard()
    ensures Mild([]) && Fine([]) == []
  {
  }

  /** However reads cut the stream, and whatever is interrupted or retried in between, the messages are the frames
      of the bytes that arrive before the connection ends, or the first of them up to where memory or the callback
      denies one; and the connection is up at the end exactly when nothing ended it and nothing was denied. */
  method Serve(p: Protocol, size: nat, events: seq<Event>, memory: nat -> bool, accepts: nat -> bool)
      returns (messages: seq<seq<Byte>>, up: bool)
    requires 0 < p.head <= size && Fits(p, size)
    ensures var frames := Split(p, Fine(events)).0;
      && messages <= frames
      && (Denied(memory, accepts, |messages|) || (messages == frames && AllGranted(memory, accepts, |frames|)))
      && (up ==> messages == frames == Split(p, Bytes(events)).0)
      && (up <==> Mild(events) && AllGranted(memory, accepts, |frames|) && (events != [] ==> memory(|frames|)))
  {
    hide Concat, Split, IsFrame, Bytes, Work, Mild, Fine, AllGranted;
    var sck := new Socket(events);
    var r := new Receiver(p, size, sck, memory, accepts);
    NothingYet(p);
    while sck.events != []
      invariant r.Valid() && r.Granted() && r.p == p && r.sck == sck && fresh(r) && fresh(sck)
        && r.memory == memory && r.accepts == accepts && (r.addr == null || fresh(r.addr))
      invariant (r.phase == RecvInit ==> sck.events == events) && (events == [] ==> sck.events == [])
      invariant r.delivered == Split(p, sck.taken).0
      invariant sck.taken + Fine(sck.events) == Fine(events) && (Mild(sck.events) <==> Mild(events))
      decreases Work(sck.events)
    {
      NoEvents(sck.events);
      var ret := r.RecvData();
      NoEvents(sck.events);
      if ret != Again {
        if !r.AtWork() {
          SplitGrows(p, sck.taken, Fine(sck.events));
          DeniedStays(memory, accepts, |r.delivered|, |Split(p, Fine(events)).0|);
        }
        return r.delivered, false;
      }
    }
    NoEvents(sck.events);
    NothingHard();
    assert sck.taken + [] == sck.taken;
    MildIsFine(events);
    return r.delivered, true;
  }
}
