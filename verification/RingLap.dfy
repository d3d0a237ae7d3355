/** Why no compare-and-set may win on a head index that has come round: a thread that slept meanwhile reserves
    places in a ring that is full. */
module RingLap {
  import opened Arith
  import opened Ring
  import opened RingCreat
  import opened RingZero

  /** One value goes in and comes out, by threads 1 and 2. */
  lemma OneThrough(max: nat, data: seq<Addr>, c: nat, ts: seq<Pc>) returns (data': seq<Addr>)
    requires 0 < max == |data| <= 0x8000_0000 && c < TWO_TO_THE_32 && |ts| >= 3 && ts[1] == ts[2] == Idle
    ensures |data'| == max
    ensures Reaches(Machine(After(max, data, c, 0), ts), Machine(After(max, data', Lo(c + 1), 0), ts))
  {
    hide Solo, Reaches, Leads;
    data' := OnePush(max, data, c, 0, ts);
    var m := Machine(After(max, data', c, 1), ts);
    OneThere(max, data', c);
    PopsAlone(m.sh);
    SoloReaches(m, 2, Pop(1), 9);
    var s', out := After(max, data', Lo(c + 1), 0), PopReturn([data'[c % max]]);
    var m1 := Machine(s', ts[2 := out]);
    Still(s', Idle, Pop(1));
    Tick(s', out, Pop(1), s', Idle, 0);
    SoloReaches(m1, 2, Pop(1), 1);
    assert m1.ts[2 := Idle] == ts;
    ReachesOn(m, m1, Machine(s', ts));
    ReachesOn(Machine(After(max, data, c, 0), ts), m, Machine(s', ts));
  }

  lemma OneThere(max: nat, data: seq<Addr>, c: nat)
    requires max == |data| && c < TWO_TO_THE_32
    ensures Lo(Lo(c + 1) - c) >= 1 && OneLess(After(max, data, c, 1)) == After(max, data, Lo(c + 1), 0)
  {
    LoCollapse(0 - c, c + 1);
    LoCollapse(0, c + 1);
  }

  /** Any number of values go in and come out, short of a lap. */
  lemma {:induction false} Through(max: nat, data: seq<Addr>, c: nat, c': nat, ts: seq<Pc>) returns (data': seq<Addr>)
    requires 0 < max == |data| <= 0x8000_0000 && c <= c' < TWO_TO_THE_32 && |ts| >= 3 && ts[1] == ts[2] == Idle
    ensures |data'| == max
    ensures Reaches(Machine(After(max, data, c, 0), ts), Machine(After(max, data', c', 0), ts))
    decreases c' - c
  {
    hide Reaches, After;
    data' := data;
    if c == c' {
      Stays(Machine(After(max, data, c, 0), ts));
    } else {
      var data1 := OneThrough(max, data, c, ts);
      SmallLo(c + 1);
      data' := Through(max, data1, c + 1, c', ts);
      ReachesOn(Machine(After(max, data, c, 0), ts), Machine(After(max, data1, c + 1, 0), ts),
                Machine(After(max, data', c', 0), ts));
    }
  }

  /** The push of thread 0 up to its compare-and-set, on a new ring. */
  lemma ReadsHead(s: Shared)
    requires 0 < s.max == |s.data| < TWO_TO_THE_32 && s == After(s.max, s.data, 0, 0)
    ensures Solo(s, Idle, Push([8]), 3) == (s, PushCas([8], 0, 0))
  {
    hide Solo;
    Still(s, PushCas([8], 0, 0), Push([8]));
    Tick(s, PushLoadTail([8], 0), Push([8]), s, PushCas([8], 0, 0), 0);
    Tick(s, PushLoadHead([8]), Push([8]), s, PushLoadTail([8], 0), 1);
    Tick(s, Idle, Push([8]), s, PushLoadHead([8]), 2);
  }

  /** On a ring of any size: thread 0 starts a push and sleeps before its compare-and-set. The others let
      2^32 - max values through and then fill the ring, so that the head is the same word again. Thread 0
      wakes, wins, and more places are reserved than there are. */
  lemma LapOverfills(max: nat, n: nat) returns (m: Machine)
    requires 1 <= max <= 0x8000_0000 && n >= 3
    ensures Reaches(New(max, n), m) && |m.ts| == n && m.ts[0] == PushCopy([8], 0, 0) && Lo(m.sh.ph - m.sh.ct) == max + 1
  {
    hide Solo, Reaches, Leads;
    var m0, c := New(max, n), TWO_TO_THE_32 - max;
    ReadsHead(m0.sh);
    SoloReaches(m0, 0, Push([8]), 3);
    var ts := m0.ts[0 := PushCas([8], 0, 0)];
    var m1 := Machine(m0.sh, ts);
    var data1 := Through(max, m0.sh.data, 0, c, ts);
    var m2 := Machine(After(max, data1, c, 0), ts);
    var data2 := Fills(max, data1, c, 0, ts);
    var m3 := Machine(After(max, data2, c, max), ts);
    var s' := m3.sh.(ph := 1);
    Still(s', PushCopy([8], 0, 0), Push([8]));
    Tick(m3.sh, PushCas([8], 0, 0), Push([8]), s', PushCopy([8], 0, 0), 0);
    SoloReaches(m3, 0, Push([8]), 1);
    m := Machine(s', ts[0 := PushCopy([8], 0, 0)]);
    assert m3.ts[0 := PushCopy([8], 0, 0)] == m.ts;
    ReachesOn(m0, m1, m2);
    ReachesOn(m0, m2, m3);
    ReachesOn(m0, m3, m);
  }
}
