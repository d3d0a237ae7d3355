/** The doubly linked lists of `slab.c`: pages on the free list and on the list of their chunk size,
    each list closed into a ring by its head. */
module SlabLinks {

  /** A pointer to a page descriptor: an element of the page array, or a list head. */
  datatype Ref = Nil | FreeHead | SlotHead(s: nat) | At(i: nat)

  /** A page descriptor.  The two low bits of the word `prev`, which say how the page is used, are `tag`. */
  datatype Page = Page(slab: nat, next: Ref, prev: Ref, tag: nat)

  datatype Store = Store(pages: seq<Page>, slots: seq<Page>, free: Page)

  predicate Points(st: Store, r: Ref) {
    match r
    case Nil => false
    case FreeHead => true
    case SlotHead(s) => s < |st.slots|
    case At(i) => i < |st.pages|
  }

  function Target(st: Store, r: Ref): Page
    requires Points(st, r)
  {
    match r
    case FreeHead => st.free
    case SlotHead(s) => st.slots[s]
    case At(i) => st.pages[i]
  }

  function With(st: Store, r: Ref, p: Page): (w: Store)
    requires Points(st, r)
    ensures |w.pages| == |st.pages| && |w.slots| == |st.slots|
  {
    match r
    case FreeHead => st.(free := p)
    case SlotHead(s) => st.(slots := st.slots[s := p])
    case At(i) => st.(pages := st.pages[i := p])
  }

  function SetNext(st: Store, r: Ref, next: Ref): Store
    requires Points(st, r)
  {
    With(st, r, Target(st, r).(next := next))
  }

  function SetPrev(st: Store, r: Ref, prev: Ref, tag: nat): Store
    requires Points(st, r)
  {
    With(st, r, Target(st, r).(prev := prev, tag := tag))
  }

  lemma WithOthers(st: Store, r: Ref, p: Page, q: Ref)
    requires Points(st, r) && Points(st, q)
    ensures Points(With(st, r, p), q)
    ensures Target(With(st, r, p), q) == if q == r then p else Target(st, q)
  {
  }

  // ---------------------------------------------------------------- chains

  /** The `k`th of the ring: the head stands before the first and after the last. */
  function Nth(head: Ref, l: seq<nat>, k: int): Ref { if 0 <= k < |l| then At(l[k]) else head }

  ghost predicate Distinct(l: seq<nat>) { forall j, k :: 0 <= j < k < |l| ==> l[j] != l[k] }

  ghost predicate Linked(st: Store, head: Ref, l: seq<nat>, tag: nat, k: nat)
    requires k < |l| && l[k] < |st.pages|
  {
    var p := st.pages[l[k]];
    p.next == Nth(head, l, k + 1) && p.prev == Nth(head, l, k - 1) && p.tag == tag
  }

  /** The pages of `l`, in order, on the ring of `head`. */
  ghost predicate Chain(st: Store, head: Ref, l: seq<nat>, tag: nat) {
    && Points(st, head) && !head.At? && Distinct(l) && (forall k :: 0 <= k < |l| ==> l[k] < |st.pages|)
    && Target(st, head).next == Nth(head, l, 0)
    && forall k :: 0 <= k < |l| ==> Linked(st, head, l, tag, k)
  }

  /** A chain does not notice what happens to other pages and heads. */
  lemma ChainFrame(st: Store, st': Store, head: Ref, l: seq<nat>, tag: nat)
    requires Chain(st, head, l, tag) && Points(st', head) && |st'.pages| == |st.pages|
    requires Target(st', head).next == Target(st, head).next
    requires forall k :: 0 <= k < |l| ==>
      var p, q := st.pages[l[k]], st'.pages[l[k]]; q.next == p.next && q.prev == p.prev && q.tag == p.tag
    ensures Chain(st', head, l, tag)
  {
    forall k | 0 <= k < |l| ensures Linked(st', head, l, tag, k) { assert Linked(st, head, l, tag, k); }
  }

  function Dropped(l: seq<nat>, k: nat): (r: seq<nat>)
    requires k < |l|
    ensures |r| == |l| - 1 && forall j :: 0 <= j < |r| ==> r[j] == if j < k then l[j] else l[j + 1]
    ensures forall x :: x in r ==> x in l
  {
    l[..k] + l[k + 1..]
  }

  /** `next` and `prev` joined to each other: what every target looks like. */
  function Join(st: Store, prev: Ref, next: Ref, tag: nat): (j: Store)
    requires Points(st, prev) && Points(st, next)
    ensures |j.pages| == |st.pages| && |j.slots| == |st.slots|
  {
    SetPrev(SetNext(st, prev, next), next, prev, tag)
  }

  lemma Joined(st: Store, prev: Ref, next: Ref, tag: nat, q: Ref)
    requires Points(st, prev) && Points(st, next) && Points(st, q)
    ensures Points(Join(st, prev, next, tag), q)
    ensures var t := Target(st, q); var t' := Target(Join(st, prev, next, tag), q);
      && t'.slab == t.slab
      && t'.next == (if q == prev then next else t.next)
      && t'.prev == (if q == next then prev else t.prev) && t'.tag == (if q == next then tag else t.tag)
  {
    var st1 := SetNext(st, prev, next);
    WithOthers(st, prev, Target(st, prev).(next := next), q);
    WithOthers(st, prev, Target(st, prev).(next := next), next);
    WithOthers(st1, next, Target(st1, next).(prev := prev, tag := tag), q);
  }

  /** What joining leaves alone: every page but the two, and every other head. */
  lemma JoinKeeps(st: Store, prev: Ref, next: Ref, tag: nat)
    requires Points(st, prev) && Points(st, next)
    ensures var st' := Join(st, prev, next, tag);
      && (forall j :: 0 <= j < |st.pages| ==> st'.pages[j].slab == st.pages[j].slab)
      && (forall j :: 0 <= j < |st.pages| && At(j) != prev && At(j) != next ==> st'.pages[j] == st.pages[j])
      && (FreeHead != prev && FreeHead != next ==> st'.free == st.free)
      && (forall s :: 0 <= s < |st.slots| && SlotHead(s) != prev && SlotHead(s) != next ==> st'.slots[s] == st.slots[s])
  {
  }

  lemma Neighbours(st: Store, head: Ref, l: seq<nat>, tag: nat, k: nat)
    requires Chain(st, head, l, tag) && k < |l|
    ensures st.pages[l[k]].prev == Nth(head, l, k - 1) && st.pages[l[k]].next == Nth(head, l, k + 1)
      && st.pages[l[k]].tag == tag
    ensures Points(st, Nth(head, l, k - 1)) && Points(st, Nth(head, l, k + 1))
    ensures Nth(head, l, k - 1) != At(l[k]) && At(l[k]) != Nth(head, l, k + 1)
  {
    assert Linked(st, head, l, tag, k);
  }

  lemma Unlinked(st: Store, head: Ref, l: seq<nat>, tag: nat, k: nat)
    requires Chain(st, head, l, tag) && k < |l|
    ensures var prev, next := Nth(head, l, k - 1), Nth(head, l, k + 1);
      && Points(st, prev) && Points(st, next) && Chain(Join(st, prev, next, tag), head, Dropped(l, k), tag)
  {
    Neighbours(st, head, l, tag, k);
    var l', prev, next := Dropped(l, k), Nth(head, l, k - 1), Nth(head, l, k + 1);
    var st' := Join(st, prev, next, tag);
    Joined(st, prev, next, tag, head);
    forall j | 0 <= j < |l'| ensures Linked(st', head, l', tag, j) { UnlinkedAt(st, head, l, tag, k, j); }
  }

  lemma UnlinkedAt(st: Store, head: Ref, l: seq<nat>, tag: nat, k: nat, j: nat)
    requires Chain(st, head, l, tag) && k < |l| && j < |l| - 1
    ensures var prev, next := Nth(head, l, k - 1), Nth(head, l, k + 1);
      && Points(st, prev) && Points(st, next) && Dropped(l, k)[j] < |st.pages|
      && Linked(Join(st, prev, next, tag), head, Dropped(l, k), tag, j)
  {
    Neighbours(st, head, l, tag, k);
    var o := if j < k then j else j + 1;
    assert Linked(st, head, l, tag, o);
    var l', prev, next := Dropped(l, k), Nth(head, l, k - 1), Nth(head, l, k + 1);
    Joined(st, prev, next, tag, At(l[o]));
    hide Join, With, Dropped;
    assert Nth(head, l', j + 1) == if j + 1 == k then next else Nth(head, l, o + 1);
    assert Nth(head, l', j - 1) == if j == k then prev else Nth(head, l, o - 1);
    assert At(l[o]) == prev <==> o == k - 1;
    assert At(l[o]) == next <==> o == k + 1;
    hide Nth, Distinct;
  }

  // ---------------------------------------------------------------- a page enters a chain

  /** Page `i` between `prev` and `next`, which were joined to each other or to a page that goes. */
  function Insert(st: Store, i: nat, prev: Ref, next: Ref, tag: nat): (w: Store)
    requires i < |st.pages| && Points(st, prev) && Points(st, next)
    ensures |w.pages| == |st.pages| && |w.slots| == |st.slots|
  {
    SetPrev(SetNext(With(st, At(i), st.pages[i].(next := next, prev := prev, tag := tag)), prev, At(i)), next, At(i),
      tag)
  }

  lemma Inserted(st: Store, i: nat, prev: Ref, next: Ref, tag: nat, q: Ref)
    requires i < |st.pages| && Points(st, prev) && Points(st, next) && prev != At(i) && next != At(i) && Points(st, q)
    ensures Points(Insert(st, i, prev, next, tag), q)
    ensures var t := Target(st, q); var t' := Target(Insert(st, i, prev, next, tag), q);
      && t'.slab == t.slab
      && t'.next == (if q == prev then At(i) else if q == At(i) then next else t.next)
      && t'.prev == (if q == next then At(i) else if q == At(i) then prev else t.prev)
      && t'.tag == (if q == next || q == At(i) then tag else t.tag)
  {
    var p := st.pages[i].(next := next, prev := prev, tag := tag);
    var st1 := With(st, At(i), p);
    WithOthers(st, At(i), p, prev);
    WithOthers(st, At(i), p, next);
    WithOthers(st, At(i), p, q);
    var p2 := Target(st1, prev).(next := At(i));
    var st2 := With(st1, prev, p2);
    WithOthers(st1, prev, p2, next);
    WithOthers(st1, prev, p2, q);
    WithOthers(st2, next, Target(st2, next).(prev := At(i), tag := tag), q);
  }

  /** What an insertion leaves alone. */
  lemma InsertKeeps(st: Store, i: nat, prev: Ref, next: Ref, tag: nat)
    requires i < |st.pages| && Points(st, prev) && Points(st, next)
    ensures var st' := Insert(st, i, prev, next, tag);
      && (forall j :: 0 <= j < |st.pages| ==> st'.pages[j].slab == st.pages[j].slab)
      && (forall j :: 0 <= j < |st.pages| && j != i && At(j) != prev && At(j) != next ==> st'.pages[j] == st.pages[j])
      && (FreeHead != prev && FreeHead != next ==> st'.free == st.free)
      && (forall s :: 0 <= s < |st.slots| && SlotHead(s) != prev && SlotHead(s) != next ==> st'.slots[s] == st.slots[s])
  {
  }

  /** At the front of the ring. */
  lemma Pushed(st: Store, head: Ref, l: seq<nat>, tag: nat, i: nat)
    requires Chain(st, head, l, tag) && i < |st.pages| && i !in l
    ensures Points(st, Nth(head, l, 0)) && Chain(Insert(st, i, head, Nth(head, l, 0), tag), head, [i] + l, tag)
  {
    var l', next := [i] + l, Nth(head, l, 0);
    var st' := Insert(st, i, head, next, tag);
    Inserted(st, i, head, next, tag, head);
    forall j | 0 <= j < |l'| ensures Linked(st', head, l', tag, j) {
      if j > 0 { assert Linked(st, head, l, tag, j - 1); }
      Inserted(st, i, head, next, tag, At(l'[j]));
    }
  }

  /** In the place of the `k`th page. */
  lemma Replaced(st: Store, head: Ref, l: seq<nat>, tag: nat, k: nat, i: nat)
    requires Chain(st, head, l, tag) && k < |l| && i < |st.pages| && i !in l
    ensures var prev, next := Nth(head, l, k - 1), Nth(head, l, k + 1);
      && Points(st, prev) && Points(st, next) && Chain(Insert(st, i, prev, next, tag), head, l[k := i], tag)
  {
    Neighbours(st, head, l, tag, k);
    var l', prev, next := l[k := i], Nth(head, l, k - 1), Nth(head, l, k + 1);
    var st' := Insert(st, i, prev, next, tag);
    Inserted(st, i, prev, next, tag, head);
    forall j | 0 <= j < |l'| ensures Linked(st', head, l', tag, j) { ReplacedAt(st, head, l, tag, k, i, j); }
  }

  lemma ReplacedAt(st: Store, head: Ref, l: seq<nat>, tag: nat, k: nat, i: nat, j: nat)
    requires Chain(st, head, l, tag) && k < |l| && i < |st.pages| && i !in l && j < |l|
    ensures var prev, next := Nth(head, l, k - 1), Nth(head, l, k + 1);
      && Points(st, prev) && Points(st, next) && l[k := i][j] < |st.pages|
      && Linked(Insert(st, i, prev, next, tag), head, l[k := i], tag, j)
  {
    Neighbours(st, head, l, tag, k);
    assert Linked(st, head, l, tag, j);
    Inserted(st, i, Nth(head, l, k - 1), Nth(head, l, k + 1), tag, At(l[k := i][j]));
    hide Insert, With;
  }

  // ---------------------------------------------------------------- other chains

  /** A change confined to one ring leaves every other ring as it is. */
  lemma OthersKept(st: Store, st': Store, head: Ref, l: seq<nat>, other: Ref, m: seq<nat>, tag: nat)
    requires Chain(st, other, m, tag) && other != head && forall x :: x in m ==> x !in l
    requires |st'.pages| == |st.pages| && |st'.slots| == |st.slots|
    requires forall j :: 0 <= j < |st.pages| && j !in l ==> SameLinks(st.pages[j], st'.pages[j])
    requires head != FreeHead ==> st'.free == st.free
    requires forall s :: 0 <= s < |st.slots| && head != SlotHead(s) ==> st'.slots[s] == st.slots[s]
    ensures Chain(st', other, m, tag)
  {
    ChainFrame(st, st', other, m, tag);
  }

  ghost predicate SameLinks(p: Page, q: Page) { q.next == p.next && q.prev == p.prev && q.tag == p.tag }

  /** A page joins an empty ring: its head's own back link is not written. */
  lemma PushedAlone(st: Store, head: Ref, tag: nat, i: nat, slab: nat)
    requires Chain(st, head, [], tag) && i < |st.pages|
    ensures Chain(SetNext(With(st, At(i), Page(slab, head, head, tag)), head, At(i)), head, [i], tag)
  {
    var p := Page(slab, head, head, tag);
    var st1 := With(st, At(i), p);
    WithOthers(st, At(i), p, head);
    WithOthers(st1, head, Target(st1, head).(next := At(i)), At(i));
    WithOthers(st1, head, Target(st1, head).(next := At(i)), head);
    WithOthers(st, At(i), p, At(i));
    var st2 := SetNext(st1, head, At(i));
    assert Linked(st2, head, [i], tag, 0);
  }
}
