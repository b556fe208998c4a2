// The timer of src/core/sp_timer.cpp: one descending pass over a list of actions, erasing
// and re-arming entries in place while the clock moves on, and the runs of such passes.
module Timer {

  // What is called, with what, and how often: never again when `freq` is 0.
  datatype Task = Task(act: int, params: nat, freq: nat)
  datatype Entry = Entry(task: Task, moment: int)

  // The n-th answer of `time(NULL)`.
  type Clock = nat -> int

  ghost predicate Forward(tick: Clock) {
    forall m: nat, n: nat :: m <= n ==> tick(m) <= tick(n)
  }

  // What a pass leaves in the list, what it called in order, and the next clock reading.
  datatype Swept = Swept(todo: seq<Entry>, fired: seq<Entry>, next: nat)

  // One entry: one reading to test it, and one more when it is due and periodic.
  function SweepOne(e: Entry, tick: Clock, t: nat): (r: Swept)
    ensures t < r.next
    ensures r.fired == [] <==> tick(t) < e.moment
  {
    if tick(t) < e.moment then Swept([e], [], t + 1)
    else if e.task.freq != 0 then Swept([e.(moment := tick(t + 1) + e.task.freq)], [e], t + 2)
    else Swept([], [e], t + 1)
  }

  // A pass, the last entry first.
  function Sweep(todo: seq<Entry>, tick: Clock, t: nat): (r: Swept)
    ensures t <= r.next
  {
    if todo == [] then Swept([], [], t)
    else
      var one := SweepOne(todo[|todo| - 1], tick, t);
      var rest := Sweep(todo[..|todo| - 1], tick, one.next);
      Swept(rest.todo + one.todo, one.fired + rest.fired, rest.next)
  }

  class Timer {
    var todo: seq<Entry>

    constructor ()
      ensures todo == []
    {
      todo := [];
    }

    // `timerSetAction`
    method SetAction(now: int, offset: nat, act: int, params: nat, freq: nat)
      modifies this
      ensures todo == old(todo) + [Entry(Task(act, params, freq), now + offset)]
    {
      var te := Entry(Task(act, params, freq), now + offset);
      todo := todo + [te];
    }

    // One turn of the loop in `timerLoop`, on entry `i`.
    method Visit(i: nat, tick: Clock, t: nat) returns (fired: seq<Entry>, next: nat)
      requires i < |todo|
      modifies this
      ensures var one := SweepOne(old(todo[i]), tick, t);
        && todo == old(todo[..i]) + one.todo + old(todo[i + 1..])
        && fired == one.fired && next == one.next
    {
      fired, next := [], t + 1;
      if todo[i].moment <= tick(t) {
        fired := [todo[i]];
        if todo[i].task.freq != 0 {
          todo := todo[i := todo[i].(moment := tick(next) + todo[i].task.freq)];
          next := next + 1;
        } else {
          todo := todo[..i] + todo[i + 1..];
        }
      }
    }

    // The same turn, after the entries behind `i` have had theirs.
    method Turn(ghost was: seq<Entry>, i: nat, tick: Clock, ghost t: nat, next: nat)
        returns (called: seq<Entry>, after: nat)
      requires i < |was|
      requires var right := Sweep(was[i + 1..], tick, t);
        todo == was[..i + 1] + right.todo && next == right.next
      modifies this
      ensures var right := Sweep(was[i + 1..], tick, t);
        var left := Sweep(was[i..], tick, t);
        todo == was[..i] + left.todo && right.fired + called == left.fired && after == left.next
    {
      SweepGrows(was, i, tick, t);
      ghost var right := Sweep(was[i + 1..], tick, t);
      assert todo[i] == was[i] && todo[..i] == was[..i] && todo[i + 1..] == right.todo;
      called, after := Visit(i, tick, next);
    }

    // The whole loop, from clock reading `t` on.
    method Pass(tick: Clock, t: nat) returns (fired: seq<Entry>, next: nat)
      modifies this
      ensures Swept(todo, fired, next) == Sweep(old(todo), tick, t)
    {
      ghost var was := todo;
      fired, next := [], t;
      assert was[..|was|] == was && was[|was|..] == [];
      for i := |todo| downto 0
        invariant var done := Sweep(was[i..], tick, t);
          todo == was[..i] + done.todo && fired == done.fired && next == done.next
      {
        var called, after := Turn(was, i, tick, t, next);
        fired, next := fired + called, after;
      }
      assert was[0..] == was;
    }
  }

  // ------------------------------------------------------------------
  // One pass.

  lemma SweepOfOne(s: seq<Entry>, tick: Clock, t: nat)
    requires |s| == 1
    ensures Sweep(s, tick, t) == SweepOne(s[0], tick, t)
  {
  }

  lemma Regroup(a: seq<Entry>, b: seq<Entry>, c: seq<Entry>)
    ensures (a + b) + c == a + (b + c)
  {
  }

  // A pass over two lists in a row is a pass over the second and then over the first.
  lemma {:induction false} SweepSplits(a: seq<Entry>, b: seq<Entry>, tick: Clock, t: nat)
    ensures var right := Sweep(b, tick, t);
      var left := Sweep(a, tick, right.next);
      Sweep(a + b, tick, t) == Swept(left.todo + right.todo, right.fired + left.fired, left.next)
    decreases |b|
  {
    if b == [] {
      assert a + b == a;
    } else {
      var n := |b| - 1;
      var one := SweepOne(b[n], tick, t);
      SweepSplits(a, b[..n], tick, one.next);
      assert (a + b)[..|a + b| - 1] == a + b[..n] && (a + b)[|a + b| - 1] == b[n];
      var right := Sweep(b[..n], tick, one.next);
      var left := Sweep(a, tick, right.next);
      Regroup(left.todo, right.todo, one.todo);
      Regroup(one.fired, right.fired, left.fired);
    }
  }

  lemma SweepGrows(s: seq<Entry>, i: nat, tick: Clock, t: nat)
    requires i < |s|
    ensures var right := Sweep(s[i + 1..], tick, t);
      var one := SweepOne(s[i], tick, right.next);
      Sweep(s[i..], tick, t) == Swept(one.todo + right.todo, right.fired + one.fired, one.next)
  {
    assert s[i..] == s[i..i + 1] + s[i + 1..];
    SweepSplits(s[i..i + 1], s[i + 1..], tick, t);
    SweepOfOne(s[i..i + 1], tick, Sweep(s[i + 1..], tick, t).next);
  }

  // Every entry is tested exactly once, at a reading of its own; what becomes of it
  // depends on that reading only, and what is kept keeps its order.
  lemma EachEntryOnce(todo: seq<Entry>, i: nat, tick: Clock, t: nat)
    requires i < |todo|
    ensures var right := Sweep(todo[i + 1..], tick, t);
      var one := SweepOne(todo[i], tick, right.next);
      var left := Sweep(todo[..i], tick, one.next);
      Sweep(todo, tick, t) ==
        Swept(left.todo + one.todo + right.todo, right.fired + one.fired + left.fired, left.next)
  {
    SweepSplits(todo[..i], todo[i..], tick, t);
    assert todo == todo[..i] + todo[i..];
    SweepGrows(todo, i, tick, t);
  }

  // Whatever was due when the pass began is called; whatever is called was due by its end.
  lemma DueAreCalled(todo: seq<Entry>, i: nat, tick: Clock, t: nat)
    requires i < |todo| && Forward(tick)
    ensures todo[i].moment <= tick(t) ==> todo[i] in Sweep(todo, tick, t).fired
    ensures tick(Sweep(todo, tick, t).next) < todo[i].moment ==> todo[i] in Sweep(todo, tick, t).todo
  {
    EachEntryOnce(todo, i, tick, t);
    var right := Sweep(todo[i + 1..], tick, t);
    var one := SweepOne(todo[i], tick, right.next);
    assert tick(t) <= tick(right.next) <= tick(Sweep(todo, tick, t).next);
    assert todo[i].moment <= tick(right.next) ==> one.fired == [todo[i]];
  }

  // Nothing that a pass leaves behind was due when it began, re-armed entries included.
  lemma {:induction false} LeftAreLater(todo: seq<Entry>, tick: Clock, t: nat)
    requires Forward(tick)
    ensures forall e :: e in Sweep(todo, tick, t).todo ==> tick(t) < e.moment
    decreases |todo|
  {
    if todo != [] {
      var n := |todo| - 1;
      var one := SweepOne(todo[n], tick, t);
      LeftAreLater(todo[..n], tick, one.next);
      assert tick(t) <= tick(t + 1) && tick(t) <= tick(one.next);
    }
  }

  // Entry `i` is not due at the reading it gets when nothing after it is.
  predicate Early(todo: seq<Entry>, i: nat, tick: Clock, t: nat)
    requires i < |todo|
  {
    tick(t + (|todo| - 1 - i)) < todo[i].moment
  }

  lemma EarlyPeels(todo: seq<Entry>, tick: Clock, t: nat)
    requires todo != []
    ensures var n, next := |todo| - 1, t + 1;
      var front := todo[..n];
      (forall i :: 0 <= i < |todo| ==> Early(todo, i, tick, t)) <==>
      tick(t) < todo[n].moment && forall i :: 0 <= i < n ==> Early(front, i, tick, next)
  {
    var n, next := |todo| - 1, t + 1;
    var front := todo[..n];
    assert Early(todo, n, tick, t) <==> tick(t) < todo[n].moment;
    forall i | 0 <= i < n
      ensures Early(front, i, tick, next) <==> Early(todo, i, tick, t)
    {
      assert next + (n - 1 - i) == t + (|todo| - 1 - i);
    }
  }

  // A pass calls nothing, and then changes nothing, exactly when no entry is due at its turn.
  lemma {:induction false} QuietExactly(todo: seq<Entry>, tick: Clock, t: nat)
    ensures Sweep(todo, tick, t).fired == [] <==> forall i :: 0 <= i < |todo| ==> Early(todo, i, tick, t)
    decreases |todo|
  {
    if todo != [] {
      var n := |todo| - 1;
      QuietExactly(todo[..n], tick, t + 1);
      EarlyPeels(todo, tick, t);
    }
  }

  lemma {:induction false} QuietKeeps(todo: seq<Entry>, tick: Clock, t: nat)
    requires Sweep(todo, tick, t).fired == []
    ensures Sweep(todo, tick, t).todo == todo
    decreases |todo|
  {
    if todo != [] {
      var n := |todo| - 1;
      QuietKeeps(todo[..n], tick, t + 1);
      assert todo == todo[..n] + [todo[n]];
    }
  }

  // A second pass before the clock has moved finds nothing to do.
  lemma SecondPassIsQuiet(todo: seq<Entry>, tick: Clock, t: nat, again: Clock)
    requires Forward(tick) && forall n: nat :: again(n) == tick(t)
    ensures Sweep(Sweep(todo, tick, t).todo, again, 0).todo == Sweep(todo, tick, t).todo
    ensures Sweep(Sweep(todo, tick, t).todo, again, 0).fired == []
  {
    LeftAreLater(todo, tick, t);
    var left := Sweep(todo, tick, t).todo;
    assert forall i :: 0 <= i < |left| ==> left[i] in left && Early(left, i, again, 0);
    QuietExactly(left, again, 0);
    QuietKeeps(left, again, 0);
  }

  // When the clock stands still, a pass is these two filters.
  function Due(todo: seq<Entry>, now: int): seq<Entry> {
    if todo == [] then [] else Due(todo[1..], now) + if todo[0].moment <= now then [todo[0]] else []
  }

  function Remaining(todo: seq<Entry>, now: int): seq<Entry> {
    if todo == [] then []
    else
      var e := todo[0];
      (if now < e.moment then [e] else if e.task.freq != 0 then [e.(moment := now + e.task.freq)] else [])
      + Remaining(todo[1..], now)
  }

  lemma {:induction false} StillClock(todo: seq<Entry>, tick: Clock, t: nat, now: int)
    requires forall n: nat :: tick(n) == now
    ensures Sweep(todo, tick, t).fired == Due(todo, now)
    ensures Sweep(todo, tick, t).todo == Remaining(todo, now)
    decreases |todo|
  {
    if todo != [] {
      StillClock(todo[1..], tick, t, now);
      SweepGrows(todo, 0, tick, t);
      assert todo[0..] == todo && tick(Sweep(todo[1..], tick, t).next) == now;
    }
  }

  // ------------------------------------------------------------------
  // A whole pass on a clock that moves, entry by entry.

  // The number of the clock reading once the entries from `i` on have had their turn:
  // each takes one reading to be tested, and one more when it is due and periodic.
  function Reading(todo: seq<Entry>, i: nat, tick: Clock, t: nat): nat
    requires i <= |todo|
    decreases |todo| - i
  {
    if i == |todo| then t
    else
      var m := Reading(todo, i + 1, tick, t);
      if todo[i].moment <= tick(m) && todo[i].task.freq != 0 then m + 2 else m + 1
  }

  predicate IsDue(todo: seq<Entry>, i: nat, tick: Clock, t: nat)
    requires i < |todo|
  {
    todo[i].moment <= tick(Reading(todo, i + 1, tick, t))
  }

  // Only one-shots that are due leave the list.
  predicate Stays(todo: seq<Entry>, i: nat, tick: Clock, t: nat)
    requires i < |todo|
  {
    IsDue(todo, i, tick, t) ==> todo[i].task.freq != 0
  }

  // How many of the first `i` entries stay.
  function Place(todo: seq<Entry>, i: nat, tick: Clock, t: nat): nat
    requires i <= |todo|
  {
    if i == 0 then 0 else Place(todo, i - 1, tick, t) + if Stays(todo, i - 1, tick, t) then 1 else 0
  }

  // How many of the entries from `i` on and before `j` are due.
  function DueIn(todo: seq<Entry>, i: nat, j: nat, tick: Clock, t: nat): nat
    requires i <= j <= |todo|
  {
    if i == j then 0 else DueIn(todo, i, j - 1, tick, t) + if IsDue(todo, j - 1, tick, t) then 1 else 0
  }

  // What becomes of an entry that stays: untouched, or re-armed from the reading that
  // follows its call.
  function Kept(todo: seq<Entry>, i: nat, tick: Clock, t: nat): Entry
    requires i < |todo|
  {
    var m := Reading(todo, i + 1, tick, t);
    if todo[i].moment <= tick(m) then Entry(todo[i].task, tick(m + 1) + todo[i].task.freq) else todo[i]
  }

  // What is left of the first `i` entries, which have their turn last.
  ghost predicate LeftSoFar(todo: seq<Entry>, i: nat, tick: Clock, t: nat, left: seq<Entry>)
    requires i <= |todo|
  {
    && |left| == Place(todo, i, tick, t)
    && forall j :: 0 <= j < i && Stays(todo, j, tick, t) ==>
         Place(todo, j, tick, t) < |left| && left[Place(todo, j, tick, t)] == Kept(todo, j, tick, t)
  }

  // What is called of them, the last one first.
  ghost predicate FiredSoFar(todo: seq<Entry>, i: nat, tick: Clock, t: nat, fired: seq<Entry>)
    requires i <= |todo|
  {
    && |fired| == DueIn(todo, 0, i, tick, t)
    && forall j :: 0 <= j < i && IsDue(todo, j, tick, t) ==>
         DueIn(todo, j + 1, i, tick, t) < |fired| && fired[DueIn(todo, j + 1, i, tick, t)] == todo[j]
  }

  // A pass over the first `i` entries, from the reading they begin with.
  lemma SweepLast(todo: seq<Entry>, i: nat, tick: Clock, t: nat)
    requires 0 < i <= |todo|
    ensures var m := Reading(todo, i, tick, t);
      var one, rest := SweepOne(todo[i - 1], tick, m), Sweep(todo[..i - 1], tick, Reading(todo, i - 1, tick, t));
      && Sweep(todo[..i], tick, m) == Swept(rest.todo + one.todo, one.fired + rest.fired, rest.next)
      && one.todo == (if Stays(todo, i - 1, tick, t) then [Kept(todo, i - 1, tick, t)] else [])
      && one.fired == if IsDue(todo, i - 1, tick, t) then [todo[i - 1]] else []
  {
    assert todo[..i][..i - 1] == todo[..i - 1];
  }

  lemma {:induction false} PrefixLeft(todo: seq<Entry>, i: nat, tick: Clock, t: nat)
    requires i <= |todo|
    ensures LeftSoFar(todo, i, tick, t, Sweep(todo[..i], tick, Reading(todo, i, tick, t)).todo)
    ensures Sweep(todo[..i], tick, Reading(todo, i, tick, t)).next == Reading(todo, 0, tick, t)
  {
    if i > 0 {
      PrefixLeft(todo, i - 1, tick, t);
      SweepLast(todo, i, tick, t);
    }
  }

  lemma FiredMore(todo: seq<Entry>, i: nat, tick: Clock, t: nat, rest: seq<Entry>)
    requires 0 < i <= |todo| && FiredSoFar(todo, i - 1, tick, t, rest)
    ensures FiredSoFar(todo, i, tick, t, (if IsDue(todo, i - 1, tick, t) then [todo[i - 1]] else []) + rest)
  {
    var d := if IsDue(todo, i - 1, tick, t) then 1 else 0;
    var fired := (if d == 1 then [todo[i - 1]] else []) + rest;
    forall j | 0 <= j < i && IsDue(todo, j, tick, t)
      ensures DueIn(todo, j + 1, i, tick, t) < |fired| && fired[DueIn(todo, j + 1, i, tick, t)] == todo[j]
    {
      if j < i - 1 {
        assert DueIn(todo, j + 1, i, tick, t) == DueIn(todo, j + 1, i - 1, tick, t) + d;
      }
    }
  }

  lemma {:induction false} PrefixFired(todo: seq<Entry>, i: nat, tick: Clock, t: nat)
    requires i <= |todo|
    ensures FiredSoFar(todo, i, tick, t, Sweep(todo[..i], tick, Reading(todo, i, tick, t)).fired)
  {
    if i > 0 {
      PrefixFired(todo, i - 1, tick, t);
      SweepLast(todo, i, tick, t);
      FiredMore(todo, i, tick, t, Sweep(todo[..i - 1], tick, Reading(todo, i - 1, tick, t)).fired);
    }
  }

  // The pass as a whole.  Entry i is tested at reading m, which is one for every entry
  // behind it and one more for every such entry that is called and periodic; if it is due
  // it is called, the later entries before it; if it stays it stands in its place among
  // those that stay, and if it was called its next moment is a whole period after the
  // reading that follows the call.
  lemma PassExactly(todo: seq<Entry>, tick: Clock, t: nat)
    ensures var r := Sweep(todo, tick, t);
      && r.next == Reading(todo, 0, tick, t)
      && LeftSoFar(todo, |todo|, tick, t, r.todo) && FiredSoFar(todo, |todo|, tick, t, r.fired)
  {
    PrefixLeft(todo, |todo|, tick, t);
    PrefixFired(todo, |todo|, tick, t);
    assert todo[..|todo|] == todo;
  }

  // The action of a periodic entry that is due at 100 takes until 103: with a period of 10
  // it is due again at 113.
  lemma SlowAction(task: Task, tick: Clock)
    requires task.freq == 10 && tick(0) == 100 && tick(1) == 103
    ensures Sweep([Entry(task, 100)], tick, 0).todo == [Entry(task, 113)]
  {
    var todo := [Entry(task, 100)];
    PassExactly(todo, tick, 0);
    assert Reading(todo, 1, tick, 0) == 0 && Stays(todo, 0, tick, 0) && Place(todo, 0, tick, 0) == 0;
    assert Place(todo, 1, tick, 0) == 1;
  }

  // ------------------------------------------------------------------
  // Runs.

  datatype Event =
    | Added(entry: Entry)
    | Woken(tick: Clock)

  datatype History = History(todo: seq<Entry>, added: seq<Entry>, fired: seq<Entry>)

  function Happen(h: History, ev: Event): History {
    match ev
    case Added(e) => History(h.todo + [e], h.added + [e], h.fired)
    case Woken(tick) =>
      var r := Sweep(h.todo, tick, 0);
      History(r.todo, h.added, h.fired + r.fired)
  }

  function Run(events: seq<Event>): History {
    if events == [] then History([], [], [])
    else Happen(Run(events[..|events| - 1]), events[|events| - 1])
  }

  // How often a task occurs.
  function Count(s: seq<Entry>, k: Task): nat {
    if s == [] then 0 else (if s[0].task == k then 1 else 0) + Count(s[1..], k)
  }

  lemma {:induction false} CountJoins(a: seq<Entry>, b: seq<Entry>, k: Task)
    ensures Count(a + b, k) == Count(a, k) + Count(b, k)
    decreases |a|
  {
    if a == [] {
      assert a + b == b;
    } else {
      assert (a + b)[1..] == a[1..] + b;
      CountJoins(a[1..], b, k);
    }
  }

  lemma {:induction false} SweepConserves(todo: seq<Entry>, tick: Clock, t: nat, k: Task)
    ensures var r := Sweep(todo, tick, t);
      Count(r.todo, k) + (if k.freq == 0 then Count(r.fired, k) else 0) == Count(todo, k)
    decreases |todo|
  {
    if todo != [] {
      var n := |todo| - 1;
      var one := SweepOne(todo[n], tick, t);
      var rest := Sweep(todo[..n], tick, one.next);
      SweepConserves(todo[..n], tick, one.next, k);
      OneConserves(todo[n], tick, t, k);
      CountJoins(rest.todo, one.todo, k);
      CountJoins(one.fired, rest.fired, k);
      CountJoins(todo[..n], [todo[n]], k);
      assert todo == todo[..n] + [todo[n]];
    }
  }

  lemma OneConserves(e: Entry, tick: Clock, t: nat, k: Task)
    ensures var one := SweepOne(e, tick, t);
      Count(one.todo, k) + (if k.freq == 0 then Count(one.fired, k) else 0) == Count([e], k)
  {
    assert [e][1..] == [];
  }

  // Over every run, a one-shot task is in the list or has been called, as often as it was
  // added, and a periodic task stays in the list.
  lemma {:induction false} Conservation(events: seq<Event>, k: Task)
    ensures var h := Run(events);
      Count(h.added, k) == Count(h.todo, k) + if k.freq == 0 then Count(h.fired, k) else 0
    decreases |events|
  {
    if events != [] {
      var n := |events| - 1;
      var h := Run(events[..n]);
      Conservation(events[..n], k);
      match events[n] {
        case Added(e) =>
          CountJoins(h.todo, [e], k);
          CountJoins(h.added, [e], k);
        case Woken(tick) =>
          SweepConserves(h.todo, tick, 0, k);
          CountJoins(h.fired, Sweep(h.todo, tick, 0).fired, k);
      }
    }
  }

  // A one-shot that was added once is called at most once, and then it is gone.
  lemma CalledAtMostOnce(events: seq<Event>, k: Task)
    requires k.freq == 0 && Count(Run(events).added, k) == 1
    ensures Count(Run(events).fired, k) == 0 || Count(Run(events).todo, k) == 0
    ensures Count(Run(events).fired, k) <= 1
  {
    Conservation(events, k);
  }
}
