/** The timer queue of `timer.c`: a heap in an array, whose root 0 has the one child 1, while every other
    place `i` has the children `2 * i` and `2 * i + 1`. Each entry notes its place in the heap when some
    of the moves are made, and `timer_task_stop` goes by that note. */
module Timer {

  /** A task: which one it is, and when it is next due. */
  datatype Task = Task(id: nat, ttl: int)

  const TIMER_CAP := 128

  /** Every task is due no sooner than the one above it. */
  ghost predicate Heap(s: seq<Task>) { forall i :: 1 <= i < |s| ==> s[i / 2].ttl <= s[i].ttl }

  /** Due no later than all of them. */
  ghost predicate Least(t: Task, s: seq<Task>) { forall i :: 0 <= i < |s| ==> t.ttl <= s[i].ttl }

  lemma RootIsLeast(s: seq<Task>)
    requires Heap(s) && s != []
    ensures Least(s[0], s)
  {
    forall i | 0 <= i < |s| ensures s[0].ttl <= s[i].ttl { RootAbove(s, i); }
  }

  lemma HeapShorter(s: seq<Task>)
    requires Heap(s) && s != []
    ensures Heap(s[..|s| - 1])
  {
  }

  lemma {:induction false} RootAbove(s: seq<Task>, i: nat)
    requires Heap(s) && i < |s|
    ensures s[0].ttl <= s[i].ttl
  {
    if i > 0 {
      RootAbove(s, i / 2);
    }
  }

  /** A hole at `i` filled from `j`, the entry at `i` to go to `j`: the same tasks. */
  lemma HoleMoves(s: seq<Task>, i: nat, j: nat, t: Task)
    requires i < |s| && j < |s| && i != j
    ensures multiset(s[i := s[j]][j := t]) == multiset(s[i := t])
  {
    var a, b := s[i := t], s[i := s[j]][j := t];
    assert b == a[i := a[j]][j := a[i]];
  }

  // ---------------------------------------------------------------- the two repairs

  /** In order but for the entry at `idx`, which may be due before the one above it. */
  ghost predicate HeapAbove(s: seq<Task>, idx: nat) {
    && (forall i :: 1 <= i < |s| && i != idx ==> s[i / 2].ttl <= s[i].ttl)
    && (forall i :: 1 <= i < |s| && i != idx && i / 2 == idx && idx < |s| ==> s[idx / 2].ttl <= s[i].ttl)
  }

  /** In order but for the entry at `idx`, which may be due after those below it. */
  ghost predicate HeapBelow(s: seq<Task>, idx: nat) {
    && (forall i :: 1 <= i < |s| && i / 2 != idx && i != idx ==> s[i / 2].ttl <= s[i].ttl)
    && (forall i :: 1 <= i < |s| && i != idx && i / 2 == idx && 1 <= idx < |s| ==> s[idx / 2].ttl <= s[i].ttl)
    && (1 <= idx < |s| ==> s[idx / 2].ttl <= s[idx].ttl)
  }

  lemma StepUp(s: seq<Task>, idx: nat, t: Task)
    requires 1 <= idx < |s| && HeapAbove(s[idx := t], idx) && s[idx / 2].ttl > t.ttl
    ensures HeapAbove(s[idx := s[idx / 2]][idx / 2 := t], idx / 2)
  {
    var w, w', up := s[idx := t], s[idx := s[idx / 2]][idx / 2 := t], idx / 2;
    forall i | 1 <= i < |s| && i != up ensures w'[i / 2].ttl <= w'[i].ttl {
      if i != idx { assert w[i / 2].ttl <= w[i].ttl; }
      if i / 2 == idx { assert w[idx / 2].ttl <= w[i].ttl; }
    }
    if up >= 1 { assert w[up / 2].ttl <= w[up].ttl; }
  }

  /** The smaller child takes the place of the entry, which goes below. */
  lemma StepDown(s: seq<Task>, idx: nat, min: nat, t: Task)
    requires idx < |s| && idx < min < |s| && min / 2 == idx && HeapBelow(s[idx := t], idx) && s[min].ttl < t.ttl
    requires forall i :: 1 <= i < |s| && i != idx && i / 2 == idx ==> s[min].ttl <= s[i].ttl
    ensures HeapBelow(s[idx := s[min]][min := t], min)
  {
    var w, w' := s[idx := t], s[idx := s[min]][min := t];
    forall i | 1 <= i < |s| && i / 2 != min && i != min ensures w'[i / 2].ttl <= w'[i].ttl {
      if i == idx {
        assert w[idx / 2].ttl <= w[min].ttl;
      } else if i / 2 != idx {
        assert w[i / 2].ttl <= w[i].ttl;
      }
    }
    forall i | 1 <= i < |s| && i != min && i / 2 == min ensures w'[min / 2].ttl <= w'[i].ttl {
      assert w[i / 2].ttl <= w[i].ttl;
    }
  }

  // ---------------------------------------------------------------- the notes of the places

  /** The place noted for an entry: the field `idx`, which is 0 at first. */
  function Idx(place: map<nat, nat>, id: nat): nat { if id in place then place[id] else 0 }

  /** Every note is right. */
  ghost predicate Placed(s: seq<Task>, place: map<nat, nat>) {
    forall k :: 0 <= k < |s| ==> Idx(place, s[k].id) == k
  }

  /** No entry has this name. */
  ghost predicate Unused(s: seq<Task>, id: nat) { forall k :: 0 <= k < |s| ==> s[k].id != id }

  /** While the last entry `t` sinks to take the place of the one that is `gone`: every note is right but
      that of `t`, which is still the last place. */
  ghost predicate PlacedBut(s: seq<Task>, place: map<nat, nat>, hole: nat, t: Task, gone: nat) {
    && (forall k :: 0 <= k < |s| && k != hole ==> Idx(place, s[k].id) == k && s[k].id != gone)
    && Idx(place, t.id) == |s| && t.id != gone
  }

  lemma TakenOut(s: seq<Task>, place: map<nat, nat>, i: nat)
    requires Placed(s, place) && i < |s| - 1
    ensures PlacedBut(s[..|s| - 1], place, i, s[|s| - 1], s[i].id)
  {
  }

  lemma Follows(s: seq<Task>, place: map<nat, nat>, hole: nat, min: nat, t: Task, gone: nat)
    requires PlacedBut(s, place, hole, t, gone) && hole < |s| && min < |s| && hole != min
    ensures PlacedBut(s[hole := s[min]], place[s[min].id := hole], min, t, gone)
  {
    var s', place' := s[hole := s[min]], place[s[min].id := hole];
    forall k | 0 <= k < |s| && k != min ensures Idx(place', s'[k].id) == k && s'[k].id != gone {
      if k != hole { assert Idx(place, s[k].id) == k && Idx(place, s[min].id) == min; }
    }
  }

  /** Where the entry lands it is noted only when there is a place below; at the bottom the note goes to
      the entry that is gone. */
  lemma Lands(s: seq<Task>, place: map<nat, nat>, hole: nat, t: Task, gone: nat, bottom: bool)
    requires PlacedBut(s, place, hole, t, gone) && hole < |s|
    ensures Placed(s[hole := t], place[(if bottom then gone else t.id) := hole]) <==> !bottom
  {
    var s', place' := s[hole := t], place[(if bottom then gone else t.id) := hole];
    if bottom {
      assert Idx(place', s'[hole].id) == |s|;
    } else {
      forall k | 0 <= k < |s| ensures Idx(place', s'[k].id) == k {
        if k != hole { assert Idx(place, s[k].id) == k; }
      }
    }
  }

  function Noted(place: map<nat, nat>, note: Option<nat>, at: nat): map<nat, nat> {
    if note.Some? then place[note.value := at] else place
  }

  lemma OneNote(place: map<nat, nat>, id: nat, at: nat)
    ensures Noted(place, Some(id), at) == place[id := at]
  {
  }

  /** What the sinking loop keeps of the notes. */
  ghost predicate Noting(s: seq<Task>, place: map<nat, nat>, idx: nat, t: Task, gone: Option<nat>,
                         was: map<nat, nat>, noted: bool) {
    && (gone == None ==> place == was && !noted)
    && (noted ==> gone.Some? && PlacedBut(s, place, idx, t, gone.value))
  }

  lemma StartsNoting(s: seq<Task>, place: map<nat, nat>, at: nat, t: Task, gone: Option<nat>)
    ensures Noting(s, place, at, t, gone, place, gone.Some? && PlacedBut(s, place, at, t, gone.value))
  {
  }

  lemma NoteFollows(s: seq<Task>, place: map<nat, nat>, idx: nat, min: nat, t: Task, gone: Option<nat>,
                    was: map<nat, nat>, noted: bool)
    requires Noting(s, place, idx, t, gone, was, noted) && idx < |s| && min < |s| && idx != min
    ensures var note := if gone.Some? then Some(s[min].id) else None;
      Noting(s[idx := s[min]], Noted(place, note, idx), min, t, gone, was, noted)
  {
    hide PlacedBut;
    if noted { Follows(s, place, idx, min, t, gone.value); }
  }

  lemma NoteLands(s: seq<Task>, place: map<nat, nat>, idx: nat, t: Task, gone: Option<nat>, was: map<nat, nat>,
                  noted: bool, bottom: bool)
    requires Noting(s, place, idx, t, gone, was, noted) && idx < |s|
    ensures var note := if gone.Some? then Some(if bottom then gone.value else t.id) else None;
      && (gone == None ==> Noted(place, note, idx) == was)
      && (noted ==> (Placed(s[idx := t], Noted(place, note, idx)) <==> !bottom))
  {
    hide PlacedBut, Placed;
    if noted { Lands(s, place, idx, t, gone.value, bottom); }
  }

  /** The last entry stands somewhere else, and its note still says the last place. */
  lemma LastMoved(s: seq<Task>, s': seq<Task>, place: map<nat, nat>)
    requires Placed(s, place) && s != [] && |s'| < |s| && s[|s| - 1] in multiset(s')
    ensures !Placed(s', place)
  {
    var k :| 0 <= k < |s'| && s'[k] == s[|s| - 1];
    assert Idx(place, s[|s| - 1].id) == |s| - 1;
    assert Idx(place, s'[k].id) != k;
  }

  /** An entry put at the end leaves the notes right; one that rises leaves wrong the note of the entry
      it pushed to the end. */
  lemma Joins(s: seq<Task>, s': seq<Task>, place: map<nat, nat>, t: Task, at: nat)
    requires Placed(s, place) && Unused(s, t.id) && at < |s'| == |s| + 1
    requires if at == |s| then s' == s + [t] else s != [] && s'[|s|] == s[|s| / 2]
    ensures Placed(s', place[t.id := at]) <==> at == |s|
  {
    var place' := place[t.id := at];
    if at == |s| {
      forall k | 0 <= k < |s'| ensures Idx(place', s'[k].id) == k {
        if k < |s| { assert Idx(place, s[k].id) == k; }
      }
    } else {
      assert Idx(place, s[|s| / 2].id) == |s| / 2;
      assert Idx(place', s'[|s|].id) != |s|;
    }
  }

  class TimerQueue {
    var e: array<Task>
    var len: nat
    var place: map<nat, nat>

    ghost predicate Valid()
      reads this, e
    {
      len <= e.Length && e.Length > 0 && Heap(e[..len])
    }

    ghost function Tasks(): multiset<Task>
      requires len <= e.Length
      reads this, e
    {
      multiset(e[..len])
    }

    constructor ()
      ensures Valid() && len == 0 && Tasks() == multiset{} && fresh(e) && NotesRight() && place == map[]
    {
      e := new Task[TIMER_CAP](_ => Task(0, 0));
      len := 0;
      place := map[];
    }

    /** Every entry's note is right; then no two entries have one name. */
    ghost predicate NotesRight()
      requires len <= e.Length
      reads this, e
    {
      Placed(e[..len], place)
    }

    /** Twice the room when there is none left; `allocOk` says whether memory is to be had. */
    method Grow(allocOk: bool) returns (ok: bool)
      requires Valid()
      modifies this`e
      ensures Valid() && len == old(len) && e[..len] == old(e[..len]) && (e == old(e) || fresh(e))
      ensures ok <==> old(len < e.Length) || allocOk
      ensures if ok then len < e.Length else e == old(e)
    {
      ok := true;
      if len >= e.Length {
        if !allocOk {
          return false;
        }
        var was, n := e, e.Length;
        var bigger := new Task[2 * n](i requires 0 <= i < 2 * n reads was => if i < was.Length then was[i]
          else Task(0, 0));
        e := bigger;
        assert e[..len] == was[..len];
      }
    }

    lemma TasksAre()
      requires Valid()
      ensures len <= e.Length && Heap(e[..len]) && Tasks() == multiset(e[..len])
    {
    }

    /** `timer_task_start`: the entry goes in, and the heap stays one. The entry's own note is right, but
        the notes of all are so exactly when it did not rise. */
    method Start(task: Task, allocOk: bool) returns (ok: bool)
      requires Valid()
      modifies this, e
      ensures Valid() && (e == old(e) || fresh(e)) && (ok <==> old(len < e.Length) || allocOk)
      ensures Tasks() == if ok then old(Tasks()) + multiset{task} else old(Tasks())
      ensures len == (if ok then old(len) + 1 else old(len)) <= e.Length
      ensures ok ==> Idx(place, task.id) < len && e[Idx(place, task.id)] == task
      ensures place == if ok then old(place)[task.id := Idx(place, task.id)] else old(place)
      ensures ok && old(len == 0 || e[len / 2].ttl <= task.ttl) ==> e[..len] == old(e[..len]) + [task]
      ensures ok && old(NotesRight()) && Unused(old(e[..len]), task.id) ==>
        (NotesRight() <==> old(len == 0 || e[len / 2].ttl <= task.ttl))
    {
      hide Heap, Placed, Unused, Idx;
      ok := Grow(allocOk);
      if ok {
        Enter(task);
      }
    }

    /** The entry goes in, there being room. */
    method Enter(task: Task)
      requires len < e.Length && Heap(e[..len])
      modifies e, this`len, this`place
      ensures len == old(len) + 1 && Heap(e[..len])
      ensures multiset(e[..len]) == multiset(old(e[..len])) + multiset{task}
      ensures Idx(place, task.id) < len && e[Idx(place, task.id)] == task
      ensures place == old(place)[task.id := Idx(place, task.id)]
      ensures old(len) == 0 || old(e[len / 2]).ttl <= task.ttl ==> e[..len] == old(e[..len]) + [task]
      ensures Placed(old(e[..len]), old(place)) && Unused(old(e[..len]), task.id) ==>
        (Placed(e[..len], place) <==> old(len) == 0 || old(e[len / 2]).ttl <= task.ttl)
    {
      hide *;
      ghost var was, was0 := e[..len], place;
      var at := 0;
      if len == 0 {
        e[len] := task;
        place := place[task.id := 0];
        len := len + 1;
        assert e[..len] == was + [task] == [task];
        OneIsHeap(task);
      } else {
        at := SiftUp(task);
      }
      NoteIs(was0, task.id, at);
      if Placed(was, was0) && Unused(was, task.id) { Joins(was, e[..len], was0, task, at); }
    }

    /** The entry rises from the place after the last to where it belongs, and its place is noted. */
    method SiftUp(task: Task) returns (at: nat)
      requires 1 <= len < e.Length && Heap(e[..len])
      modifies e, this`len, this`place
      ensures len == old(len) + 1 && Heap(e[..len]) && at < len && e[at] == task
      ensures multiset(e[..len]) == multiset(old(e[..len])) + multiset{task}
      ensures place == old(place)[task.id := at]
      ensures at == old(len) <==> old(e[len / 2]).ttl <= task.ttl
      ensures if at == old(len) then e[..len] == old(e[..len]) + [task] else e[old(len)] == old(e[len / 2])
    {
      hide *;
      ghost var was, n := e[..len], len + 1;
      at := Rise(task);
      Risen(e[..n], at, task, was);
      OneNote(place, task.id, at);
      Put(at, task, Some(task.id), n);
      len := len + 1;
    }

    /** The loop that pushes every entry due later than `task` down the way up from the end. */
    method Rise(task: Task) returns (idx: nat)
      requires 1 <= len < e.Length && Heap(e[..len])
      modifies e
      ensures idx <= len && Rising(e[..len + 1], idx, task, old(e[..len]))
      ensures idx == idx / 2 || e[idx / 2].ttl <= task.ttl
    {
      hide *;
      ghost var was, n := e[..len], len + 1;
      AtEnd(was, e[len], task);
      assert was + [e[len]] == e[..n];
      idx := len;
      var parent: nat := len / 2;
      while idx != parent && e[parent].ttl > task.ttl
        invariant idx < n == len + 1 <= e.Length && parent == idx / 2
        invariant Rising(e[..n], idx, task, was)
        decreases idx
      {
        ghost var s := e[..n];
        Rises(s, idx, task, was);
        e[idx] := e[parent];
        assert e[..n] == s[idx := s[parent]];
        idx := parent;
        parent := idx / 2;
      }
    }

    /** The loop that `timer_task_pop` and `timer_task_stop` share: `task` sinks from `at` to its place.
        Only the second, which has `gone` to take out, notes the places. */
    method SiftDown(at: nat, task: Task, gone: Option<nat>) returns (ghost to: nat)
      requires at < len <= e.Length
      modifies e, this`place
      ensures multiset(e[..len]) == multiset(old(e[..len])[at := task])
      ensures HeapBelow(old(e[..len])[at := task], at) ==> Heap(e[..len])
      ensures at >= 1 && NoneSooner(old(e[..len]), at, task) ==> e[..len] == old(e[..len])[at := task]
      ensures to < len && e[to] == task && (gone == None ==> place == old(place))
      ensures gone.Some? && PlacedBut(old(e[..len]), old(place), at, task, gone.value) ==>
        (Placed(e[..len], place) <==> Left(to) < len)
    {
      hide *;
      ghost var was: seq<Task> := e[..len];
      ghost var sound := HeapBelow(was[at := task], at);
      ghost var was0 := place;
      ghost var noted := gone.Some? && PlacedBut(was, place, at, task, gone.value);
      StartsSinking(was, at, task);
      StartsNoting(was, place, at, task, gone);
      var idx: nat := at;
      var left, right := if idx == 0 then 1 else 2 * idx, if idx == 0 then 2 else 2 * idx + 1;
      while true
        invariant at <= idx < len <= e.Length
        invariant left == (if idx == 0 then 1 else 2 * idx) && right == left + 1
        invariant Sinking(e[..len], idx, task, was, at, sound)
        invariant Noting(e[..len], place, idx, task, gone, was0, noted)
        decreases len - idx
      {
        ghost var s := e[..len];
        if left >= len {
          Settled(s, idx, task, was, at, sound);
          break;
        }
        var min := left;
        if right < len {
          min := if e[left].ttl <= e[right].ttl then left else right;
        }
        ChildIs(s, idx, min);
        if e[min].ttl >= task.ttl {
          Settled(s, idx, task, was, at, sound);
          break;
        }
        Sinks(s, idx, min, task, was, at, sound);
        NoteFollows(s, place, idx, min, task, gone, was0, noted);
        Put(idx, e[min], if gone.Some? then Some(e[min].id) else None, len);
        idx := min;
        left, right := 2 * idx, 2 * idx + 1;
      }
      ghost var s := e[..len];
      NoteLands(s, place, idx, task, gone, was0, noted, left >= len);
      Put(idx, task, if gone.Some? then Some(if left >= len then gone.value else task.id) else None, len);
      to := idx;
      LeftIs(idx);
    }

    method Put(idx: nat, task: Task, note: Option<nat>, ghost n: nat)
      requires idx < n <= e.Length
      modifies e, this`place
      ensures e[..n] == old(e[..n])[idx := task] && e[idx] == task && place == Noted(old(place), note, idx)
    {
      e[idx] := task;
      if note.Some? {
        place := place[note.value := idx];
      }
    }

    /** `timer_task_pop`: a task that is due no later than any other, and it goes. No place is noted, so
        the notes stay right only when nothing is left. */
    method Pop() returns (item: Option<Task>)
      requires Valid()
      modifies this, e
      ensures Valid() && e == old(e) && place == old(place)
      ensures item == None <==> old(len) == 0
      ensures item == None ==> Tasks() == old(Tasks())
      ensures item.Some? ==> item.value in old(Tasks()) && Least(item.value, old(e[..len]))
      ensures item.Some? ==> Tasks() == old(Tasks()) - multiset{item.value}
      ensures old(NotesRight()) ==> (NotesRight() <==> old(len) <= 1)
    {
      if len == 0 {
        return None;
      }
      hide Placed, Heap, Least;
      if len == 0 {
        return None;
      }
      ghost var was := e[..len];
      RootGoes(was, place);
      item := Some(e[0]);
      TakeRoot();
    }

    /** The root is taken out, and the last entry comes in its place and sinks. */
    method TakeRoot()
      requires 0 < len <= e.Length && Heap(e[..len])
      modifies e, this`len, this`place
      ensures len == old(len) - 1 && Heap(e[..len]) && place == old(place)
      ensures multiset(e[..len]) == multiset(old(e[..len])) - multiset{old(e[..len])[0]}
      ensures Placed(old(e[..len]), old(place)) ==> (Placed(e[..len], place) <==> len == 0)
    {
      hide *;
      ghost var was := e[..len];
      RootGoes(was, place);
      len := len - 1;
      var task := e[len];
      assert e[..len] == was[..len];
      if len == 0 {
        e[0] := task;
        return;
      }
      ghost var to := SiftDown(0, task, None);
      if Placed(was, place) { LastMoved(was, e[..len], place); }
    }

    /** `timer_task_stop`: the entry goes when the place noted for it is where it is, and otherwise
        nothing happens. What comes in its place only ever sinks, so the heap is one again exactly when
        that entry is due no sooner than the one above; `to` is where that entry ends, and the notes stay
        right exactly when there is a place below that one, or nothing had to move. */
    method Stop(task: Task) returns (found: bool, ghost to: nat)
      requires Valid()
      modifies this, e
      ensures found <==> var i := old(Idx(place, task.id)); i < old(len) && old(e[..len])[i] == task
      ensures old(NotesRight()) ==> (found <==> task in old(Tasks()))
      ensures !found ==> len == old(len) && e[..] == old(e[..]) && place == old(place)
      ensures len == (if found then old(len) - 1 else old(len)) <= e.Length && e == old(e)
      ensures found ==> Tasks() == old(Tasks()) - multiset{task}
      ensures found ==> var i := old(Idx(place, task.id));
        Heap(e[..len]) <==> i == 0 || i == len || old(e[..len])[i / 2].ttl <= old(e[..len])[len].ttl
      ensures found ==> to == old(Idx(place, task.id)) == len || (to < len && e[to] == old(e[..len])[len])
      ensures found && old(NotesRight()) ==> (NotesRight() <==> to == len || Left(to) < len)
    {
      hide Heap, Placed, Idx, Left;
      ghost var was := e[..len];
      var i := Idx(place, task.id);
      if Placed(was, place) { StandsThere(was, place, task); }
      to := 0;
      if i >= len || e[i] != task {
        return false, to;
      }
      found := true;
      to := TakeOut(i, task.id);
    }

    /** The entry at `i` is taken out, and the last one comes in its place. */
    method TakeOut(i: nat, gone: nat) returns (ghost to: nat)
      requires i < len <= e.Length && Heap(e[..len]) && e[i].id == gone
      modifies e, this`len, this`place
      ensures len == old(len) - 1 && multiset(e[..len]) == multiset(old(e[..len])) - multiset{old(e[..len])[i]}
      ensures Heap(e[..len]) <==> i == 0 || i == len || old(e[..len])[i / 2].ttl <= old(e[..len])[len].ttl
      ensures to == i == len || (to < len && e[to] == old(e[..len])[len])
      ensures Placed(old(e[..len]), old(place)) ==> (Placed(e[..len], place) <==> to == len || Left(to) < len)
    {
      hide *;
      if i == len - 1 {
        to := i;
        DropLast(gone);
      } else {
        to := Refill(i, gone);
      }
    }

    method DropLast(gone: nat)
      requires 0 < len <= e.Length && Heap(e[..len]) && e[len - 1].id == gone
      modifies e, this`len, this`place
      ensures len == old(len) - 1 && multiset(e[..len]) == multiset(old(e[..len])) - multiset{old(e[..len])[len]}
      ensures Heap(e[..len]) && (Placed(old(e[..len]), old(place)) ==> Placed(e[..len], place))
    {
      hide *;
      ghost var was := e[..len];
      LastOut(was, place);
      len := len - 1;
      e[len] := e[len];
      place := place[gone := len];
      assert e[..len] == was[..len];
    }

    /** The last entry, taken off the end, put in the place of the entry at `i`. */
    method Refill(i: nat, gone: nat) returns (ghost to: nat)
      requires i < len - 1 < e.Length && Heap(e[..len]) && e[i].id == gone
      modifies e, this`len, this`place
      ensures len == old(len) - 1 && multiset(e[..len]) == multiset(old(e[..len])) - multiset{old(e[..len])[i]}
      ensures Heap(e[..len]) <==> i == 0 || old(e[..len])[i / 2].ttl <= old(e[..len])[len].ttl
      ensures to < len && e[to] == old(e[..len])[len]
      ensures Placed(old(e[..len]), old(place)) ==> (Placed(e[..len], place) <==> Left(to) < len)
    {
      hide *;
      ghost var was := e[..len];
      len := len - 1;
      var last := e[len];
      ghost var s := e[..len];
      assert was == s + [last];
      Refilled(was, s, last, i, place);
      assert was[i].id == gone && was[len] == last;
      to := SiftDown(i, last, Some(gone));
    }
  }

  /** The entry at `i` taken out and the last one in its place: below it the order may need mending; above
      it is broken exactly when the last one is due before the one above, and then nothing sinks. */
  lemma Refilled(was: seq<Task>, s: seq<Task>, last: Task, i: nat, place: map<nat, nat>)
    requires Heap(was) && was == s + [last] && i < |s|
    ensures multiset(s[i := last]) == multiset(was) - multiset{was[i]}
    ensures if i == 0 || was[i / 2].ttl <= last.ttl then HeapBelow(s[i := last], i)
      else i >= 1 && NoneSooner(s, i, last) && !Heap(s[i := last])
    ensures Placed(was, place) ==> PlacedBut(s, place, i, last, was[i].id)
  {
    assert was[..|s|] == s && was[|s|] == last;
    Replaced(s, i, last);
    if i == 0 || was[i / 2].ttl <= last.ttl {
      Sunk(was, i, last);
    } else {
      StaysAbove(was, i, last);
    }
    if Placed(was, place) { TakenOut(was, place, i); }
  }

  /** The root taken out and the last entry in its place. */
  lemma RootGoes(s: seq<Task>, place: map<nat, nat>)
    requires Heap(s) && s != []
    ensures Least(s[0], s) && s[0] in multiset(s)
    ensures var n := |s| - 1; if n == 0 then multiset(s[..n]) == multiset(s) - multiset{s[0]}
      && Heap(s[..n]) && Placed(s[..n], place)
      else HeapBelow(s[..n][0 := s[n]], 0) && multiset(s[..n][0 := s[n]]) == multiset(s) - multiset{s[0]}
    ensures var n := |s| - 1; n > 0 ==> s[n] in multiset(s[..n][0 := s[n]])
  {
    RootIsLeast(s);
    var n := |s| - 1;
    assert s == s[..n] + [s[n]];
    if n > 0 {
      Sunk(s, 0, s[n]);
      Replaced(s[..n], 0, s[n]);
      assert s[..n][0 := s[n]][0] == s[n];
    }
  }

  /** A run at whose end `timer_task_stop` does not find an entry that is queued: a later one, due sooner,
      rose above it, and its note was not mended. */
  method StopMisses() returns (q: TimerQueue, found: bool)
    ensures fresh(q) && q.Valid() && Task(0, 5) in q.Tasks() && !found
  {
    hide Heap, Placed;
    q := LaterSooner();
    assert q.e[..q.len][0] == Task(1, 1) && q.e[..q.len][1] == Task(0, 5);
    ghost var to;
    found, to := q.Stop(Task(0, 5));
  }

  /** Two entries, the later one due sooner. */
  method LaterSooner() returns (q: TimerQueue)
    ensures fresh(q) && fresh(q.e) && q.Valid() && q.e[..q.len] == [Task(1, 1), Task(0, 5)] && Idx(q.place, 0) == 0
  {
    var first, second := Task(0, 5), Task(1, 1);
    hide *;
    q := new TimerQueue();
    q.TasksAre();
    var _ := q.Start(first, true);
    ghost var was := q.place;
    var _ := q.Start(second, true);
    q.TasksAre();
    OtherNote(was, second.id, Idx(q.place, second.id), first.id);
    OneOfTwo(q.e[..q.len], first, second);
  }

  lemma OtherNote(place: map<nat, nat>, id: nat, at: nat, other: nat)
    requires other != id
    ensures Idx(place[id := at], other) == Idx(place, other)
  {
  }

  /** Entries named by their places. */
  function Named(due: seq<int>): seq<Task> { seq(|due|, j requires 0 <= j < |due| => Task(j, due[j])) }

  /** Entries that come in the order of a heap stay where they come in. */
  method ComeInOrder(due: seq<int>) returns (q: TimerQueue)
    requires forall i :: 1 <= i < |due| ==> due[i / 2] <= due[i]
    ensures fresh(q) && fresh(q.e) && q.Valid() && q.NotesRight() && q.e[..q.len] == Named(due)
  {
    hide *;
    q := new TimerQueue();
    NamedFrom(due, 0);
    for i := 0 to |due|
      invariant fresh(q) && fresh(q.e) && q.Valid() && q.len == i <= q.e.Length && q.NotesRight()
      invariant q.e[..i] == Named(due[..i])
    {
      NamedFrom(due, i);
      assert i > 0 ==> q.e[i / 2] == Named(due[..i])[i / 2];
      var _ := q.Start(Task(i, due[i]), true);
    }
    assert due[..|due|] == due;
  }

  lemma NamedFrom(due: seq<int>, i: nat)
    requires i <= |due|
    ensures |Named(due[..i])| == i && Unused(Named(due[..i]), i)
    ensures 1 <= i < |due| ==> Named(due[..i])[i / 2].ttl == due[i / 2]
    ensures i < |due| ==> Named(due[..i]) + [Task(i, due[i])] == Named(due[..i + 1])
  {
  }

  /** A run after which the heap is out of order: the last entry, due at 3, takes a place below an entry
      that is due at 10. */
  method StopBreaks() returns (q: TimerQueue, found: bool)
    ensures fresh(q) && found && q.len <= q.e.Length && !Heap(q.e[..q.len])
  {
    var due := [0, 1, 10, 2, 11, 12, 3];
    q := ComeInOrder(due);
    assert q.e[..q.len][4] == Task(4, 11) && q.e[..q.len][2] == Task(2, 10) && q.e[..q.len][6] == Task(6, 3);
    assert Idx(q.place, 4) == 4;
    hide Heap, Placed, Idx;
    ghost var to;
    found, to := q.Stop(Task(4, 11));
  }

  lemma OneOfTwo(s: seq<Task>, first: Task, second: Task)
    requires |s| == 2 && Heap(s) && multiset(s) == multiset{first, second} && second.ttl < first.ttl
    ensures s == [second, first]
  {
    assert s == [s[0], s[1]];
    assert s[0] in multiset(s) && s[1] in multiset(s);
    assert s[1 / 2].ttl <= s[1].ttl;
    assert multiset(s)[second] == 1;
  }

  lemma NoteIs(place: map<nat, nat>, id: nat, at: nat)
    ensures Idx(place[id := at], id) == at
  {
  }

  lemma OneIsHeap(t: Task)
    ensures Heap([t])
  {
  }

  /** With every note right, the entries are those that stand where their note says. */
  lemma StandsThere(s: seq<Task>, place: map<nat, nat>, t: Task)
    requires Placed(s, place)
    ensures t in multiset(s) <==> Idx(place, t.id) < |s| && s[Idx(place, t.id)] == t
  {
    if t in multiset(s) {
      var k :| 0 <= k < |s| && s[k] == t;
      assert Idx(place, s[k].id) == k;
    }
  }

  /** The last entry taken out. */
  lemma LastOut(s: seq<Task>, place: map<nat, nat>)
    requires Heap(s) && s != []
    ensures Heap(s[..|s| - 1]) && multiset(s[..|s| - 1]) == multiset(s) - multiset{s[|s| - 1]}
    ensures Placed(s, place) ==> Placed(s[..|s| - 1], place[s[|s| - 1].id := |s| - 1])
  {
    var n := |s| - 1;
    HeapShorter(s);
    assert s == s[..n] + [s[n]];
    if Placed(s, place) {
      forall k | 0 <= k < n ensures Idx(place[s[n].id := n], s[k].id) == k {
        assert Idx(place, s[k].id) == k && Idx(place, s[n].id) == n;
      }
    }
  }

  datatype Option<T> = None | Some(value: T)

  function Left(idx: nat): nat { if idx == 0 then 1 else 2 * idx }

  lemma LeftIs(idx: nat)
    ensures Left(idx) == if idx == 0 then 1 else 2 * idx
  {
  }

  /** What the rising loop keeps: the entries, and the order but for the one that rises, which has pushed
      the entry above the end to the end if it has moved at all. */
  ghost predicate Rising(s: seq<Task>, idx: nat, t: Task, was: seq<Task>) {
    && idx < |s| == |was| + 1 && was != [] && HeapAbove(s[idx := t], idx)
    && multiset(s[idx := t]) == multiset(was) + multiset{t}
    && (idx == |was| ==> s[..|was|] == was)
    && (idx < |was| ==> s[|was|] == was[|was| / 2] && was[|was| / 2].ttl > t.ttl)
  }

  lemma AtEnd(s: seq<Task>, last: Task, t: Task)
    requires Heap(s) && s != []
    ensures Rising(s + [last], |s|, t, s)
  {
    assert (s + [last])[|s| := t] == s + [t];
  }

  lemma Rises(s: seq<Task>, idx: nat, t: Task, was: seq<Task>)
    requires Rising(s, idx, t, was) && idx != idx / 2 && s[idx / 2].ttl > t.ttl
    ensures Rising(s[idx := s[idx / 2]], idx / 2, t, was)
  {
    StepUp(s, idx, t);
    HoleMoves(s, idx, idx / 2, t);
    if idx == |was| { assert s[idx / 2] == s[..|was|][idx / 2]; }
  }

  lemma Risen(s: seq<Task>, idx: nat, t: Task, was: seq<Task>)
    requires Rising(s, idx, t, was) && (idx == idx / 2 || s[idx / 2].ttl <= t.ttl)
    ensures Heap(s[idx := t]) && multiset(s[idx := t]) == multiset(was) + multiset{t}
    ensures idx == |was| <==> was[|was| / 2].ttl <= t.ttl
    ensures if idx == |was| then s[idx := t] == was + [t] else s[idx := t][|was|] == was[|was| / 2]
  {
    var w := s[idx := t];
    forall i | 1 <= i < |w| ensures w[i / 2].ttl <= w[i].ttl {}
    if idx == |was| { assert s[idx / 2] == s[..|was|][idx / 2]; }
  }

  /** The last task in the place of another: only the order below that place can be wrong. */
  lemma Sunk(s: seq<Task>, i: nat, t: Task)
    requires Heap(s) && i < |s| - 1 && t == s[|s| - 1] && (i == 0 || s[i / 2].ttl <= t.ttl)
    ensures HeapBelow(s[..|s| - 1][i := t], i)
  {
    var w := s[..|s| - 1][i := t];
    forall j | 1 <= j < |w| && j != i && j / 2 == i && 1 <= i ensures w[i / 2].ttl <= w[j].ttl {
      assert s[i / 2].ttl <= s[i].ttl && s[j / 2].ttl <= s[j].ttl;
    }
    forall j | 1 <= j < |w| && j / 2 != i && j != i ensures w[j / 2].ttl <= w[j].ttl {
      assert s[j / 2].ttl <= s[j].ttl;
    }
  }

  lemma Replaced(s: seq<Task>, i: nat, t: Task)
    requires i < |s|
    ensures multiset(s[i := t]) == multiset(s + [t]) - multiset{s[i]}
  {
  }

  /** Neither place below `idx` holds a task due before `t`. */
  ghost predicate NoneSooner(s: seq<Task>, idx: nat, t: Task) {
    forall i :: 1 <= i < |s| && i != idx && i / 2 == idx ==> s[i].ttl >= t.ttl
  }

  /** `min` is the child of `idx` that the code picks. */
  ghost predicate LeastOf(s: seq<Task>, idx: nat, min: nat) {
    Left(idx) < |s| && min == if Left(idx) + 1 < |s| && s[Left(idx)].ttl > s[Left(idx) + 1].ttl then Left(idx) + 1
      else Left(idx)
  }

  lemma ChildIs(s: seq<Task>, idx: nat, min: nat)
    requires var left := if idx == 0 then 1 else 2 * idx;
      left < |s| && min == if left + 1 < |s| && s[left].ttl > s[left + 1].ttl then left + 1 else left
    ensures LeastOf(s, idx, min) && idx < min < |s|
  {
  }

  lemma StartsSinking(s: seq<Task>, at: nat, t: Task)
    requires at < |s|
    ensures Sinking(s, at, t, s, at, HeapBelow(s[at := t], at))
  {
  }

  /** What the loop keeps: the entries, the order but for the one that sinks, and, if that one need not
      sink at all, its place. */
  ghost predicate Sinking(s: seq<Task>, idx: nat, t: Task, was: seq<Task>, at: nat, sound: bool) {
    && idx < |s| == |was| && at < |was|
    && multiset(s[idx := t]) == multiset(was[at := t])
    && (sound ==> HeapBelow(s[idx := t], idx))
    && (at >= 1 && NoneSooner(was, at, t) ==> idx == at && s == was)
  }

  /** Above the root's one child the code also looks at place 2, but never picks it: it is the child of
      place 1, and a tie goes to the left. */
  lemma LeastChild(s: seq<Task>, idx: nat, min: nat, t: Task)
    requires idx < |s| && HeapBelow(s[idx := t], idx) && LeastOf(s, idx, min)
    ensures idx < min < |s| && min / 2 == idx
    ensures forall i :: 1 <= i < |s| && i != idx && i / 2 == idx ==> s[min].ttl <= s[i].ttl
  {
    if idx == 0 && 2 < |s| {
      assert s[idx := t][2 / 2].ttl <= s[idx := t][2].ttl;
    }
  }

  lemma Sinks(s: seq<Task>, idx: nat, min: nat, t: Task, was: seq<Task>, at: nat, sound: bool)
    requires Sinking(s, idx, t, was, at, sound) && LeastOf(s, idx, min) && s[min].ttl < t.ttl
    ensures Sinking(s[idx := s[min]], min, t, was, at, sound)
  {
    assert idx < min < |s|;
    HoleMoves(s, idx, min, t);
    if sound {
      LeastChild(s, idx, min, t);
      StepDown(s, idx, min, t);
    }
  }

  lemma Settled(s: seq<Task>, idx: nat, t: Task, was: seq<Task>, at: nat, sound: bool)
    requires Sinking(s, idx, t, was, at, sound)
    requires var left := if idx == 0 then 1 else 2 * idx;
      left < |s| ==> s[left].ttl >= t.ttl && (left + 1 < |s| ==> s[left + 1].ttl >= t.ttl)
    ensures sound ==> Heap(s[idx := t])
    ensures multiset(s[idx := t]) == multiset(was[at := t])
    ensures at >= 1 && NoneSooner(was, at, t) ==> s[idx := t] == was[at := t]
  {
    if sound {
      var w := s[idx := t];
      forall i | 1 <= i < |w| ensures w[i / 2].ttl <= w[i].ttl {
        if i / 2 == idx && i != idx { assert i == Left(idx) || i == Left(idx) + 1; }
      }
    }
  }

  /** When the last task is due before the one above place `i`, nothing below `i` is due before it. */
  lemma StaysAbove(s: seq<Task>, i: nat, t: Task)
    requires Heap(s) && 1 <= i < |s| - 1 && t.ttl < s[i / 2].ttl
    ensures NoneSooner(s[..|s| - 1], i, t)
    ensures !Heap(s[..|s| - 1][i := t])
  {
    var w := s[..|s| - 1];
    forall j | 1 <= j < |w| && j != i && j / 2 == i ensures w[j].ttl >= t.ttl {
      assert s[i / 2].ttl <= s[i].ttl && s[j / 2].ttl <= s[j].ttl;
    }
    assert w[i := t][i / 2].ttl > w[i := t][i].ttl;
  }
}
