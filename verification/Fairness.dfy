/**
 How kernel/process.cc picks the next process, and how long a process can wait.

 The scheduler takes the process with the smallest last tick from the running
 list, the one nearest the front if there are several. `Sched` is what that
 decision depends on; `Yield` and `Switch` are what yielding and switching do to it.
 */
module Fairness {
  import Pools

  datatype Sched = Sched(list: seq<nat>, last: map<nat, nat>, tick: nat, current: nat, idle: nat) {

    ghost predicate Valid() {
      && (forall p <- list :: p in last)
      && idle in last
      && (forall p <- last :: last[p] <= tick)
    }
  }

  /** The process on `list` with the smallest last tick, the first such; `idle` if the list is empty. */
  function Pick(list: seq<nat>, last: map<nat, nat>, idle: nat): (r: nat)
    requires forall p <- list :: p in last
    ensures list == [] ==> r == idle
    ensures list != [] ==> r in list && forall p <- list :: last[r] <= last[p]
  {
    if list == [] then idle else
      var rest := Pick(list[1..], last, idle);
      if list[1..] == [] || last[list[0]] <= last[rest] then list[0] else rest
  }

  /** A scan from the front with a strict comparison computes the pick. */
  lemma {:induction false} PickAppend(list: seq<nat>, x: nat, last: map<nat, nat>, idle: nat)
    requires forall p <- list + [x] :: p in last
    ensures forall p <- list :: p in last
    ensures var front := Pick(list, last, idle);
      Pick(list + [x], last, idle) == if list == [] || last[x] < last[front] then x else front
  {
    assert x in list + [x];
    assert forall p <- list :: p in list + [x];
    if list != [] {
      assert (list + [x])[1..] == list[1..] + [x];
      PickAppend(list[1..], x, last, idle);
    }
  }

  /** switch_process. */
  function Run(s: Sched, p: nat): (r: Sched)
    requires s.Valid() && p in s.last
    ensures r.Valid() && r.last.Keys == s.last.Keys
  {
    s.(last := s.last[p := s.tick], current := p)
  }

  /** proc_switch, for a process that is not being killed. */
  function Switch(s: Sched, p: nat): (r: Sched)
    requires s.Valid() && p in s.last
    ensures r.Valid() && r.last.Keys == s.last.Keys
  {
    if p == s.current then s else Run(s, p)
  }

  function Yield(s: Sched): (r: Sched)
    requires s.Valid()
    ensures r.Valid() && r.list == s.list && r.tick == s.tick + 1 && r.last.Keys == s.last.Keys
  {
    var ticked := s.(tick := s.tick + 1,
                     last := if s.current in s.last then s.last[s.current := s.tick + 1] else s.last);
    Switch(ticked, Pick(ticked.list, ticked.last, ticked.idle))
  }

  lemma YieldsToReady(s: Sched)
    requires s.Valid()
    ensures s.list == [] ==> Yield(s).current == s.idle
    ensures s.list != [] ==> Yield(s).current in s.list
  {
  }

  /** Yielding moves to a process that has waited at least as long as any other on the list. */
  lemma YieldPicksOldest(s: Sched, p: nat)
    requires s.Valid() && p in s.list
    ensures var q := Yield(s).current;
      && q in s.list
      && (q != s.current && p != s.current ==> s.last[q] <= s.last[p])
      && (q == s.current ==> forall r <- s.list :: r == s.current)
  {
  }

  /**
   A yield; a switch to an unblocked process; the scheduler's choice in place of a
   process that is being killed; any change of the running list; a new process, under
   a pid that may have been in use before; the end of one that is on no list.
   */
  datatype Step =
    | DoYield
    | DoSwitch(pid: nat)
    | DoRun(pid: nat)
    | Relist(list: seq<nat>)
    | DoCreate(pid: nat)
    | DoDestroy(pid: nat)

  predicate Enabled(s: Sched, step: Step) {
    match step
    case DoYield => true
    case DoSwitch(pid) => pid in s.last
    case DoRun(pid) => pid in s.last
    case Relist(list) => forall p <- list :: p in s.last
    case DoCreate(pid) => pid !in s.last
    case DoDestroy(pid) => pid in s.last && pid !in s.list && pid != s.idle && pid != s.current
  }

  function Apply(s: Sched, step: Step): (r: Sched)
    requires s.Valid() && Enabled(s, step)
    ensures r.Valid()
  {
    match step
    case DoYield => Yield(s)
    case DoSwitch(pid) => Switch(s, pid)
    case DoRun(pid) => Run(s, pid)
    case Relist(list) => s.(list := list)
    case DoCreate(pid) => s.(last := s.last[pid := 0])
    case DoDestroy(pid) => s.(last := s.last - {pid})
  }

  /** Last ticks never go back as long as the process exists. */
  lemma LastTickNeverDecreases(s: Sched, step: Step, p: nat)
    requires s.Valid() && Enabled(s, step) && p in s.last && step != DoDestroy(p)
    ensures p in Apply(s, step).last && Apply(s, step).last[p] >= s.last[p]
  {
  }

  /** A run, as the sequence of its states. */
  ghost predicate IsRun(states: seq<Sched>, steps: seq<Step>) {
    && |states| == |steps| + 1
    && (forall i :: 0 <= i < |states| ==> states[i].Valid())
    && (forall i :: 0 <= i < |steps| ==> Enabled(states[i], steps[i]) && states[i + 1] == Apply(states[i], steps[i]))
  }

  /** Throughout the run `p` is ready and does not get to run. */
  ghost predicate Waits(states: seq<Sched>, p: nat) {
    forall i :: 0 <= i < |states| ==> p in states[i].list && states[i].current != p
  }

  /** `q` has run since `p` last did. */
  ghost predicate Passed(s: Sched, p: nat, q: nat) {
    p in s.last && q in s.last && s.last[q] > s.last[p]
  }

  lemma WaiterKeepsTick(s: Sched, step: Step, p: nat)
    requires s.Valid() && Enabled(s, step) && p in s.list && s.current != p && Apply(s, step).current != p
    ensures p in s.last && p in Apply(s, step).last && Apply(s, step).last[p] == s.last[p]
  {
  }

  lemma PassedStep(s: Sched, step: Step, p: nat, q: nat)
    requires s.Valid() && Enabled(s, step) && p in s.list && s.current != p && Apply(s, step).current != p
    requires Passed(s, p, q) && step != DoDestroy(q)
    ensures Passed(Apply(s, step), p, q)
  {
    WaiterKeepsTick(s, step, p);
    LastTickNeverDecreases(s, step, q);
  }

  /** The pid is in use by the same process from state `i` to state `j`. */
  ghost predicate Persists(steps: seq<Step>, q: nat, i: nat, j: nat) {
    forall k :: i <= k < j && k < |steps| ==> steps[k] != DoDestroy(q)
  }

  /** Whoever has run since `p` last did stays behind `p`. */
  lemma {:induction false} PassedStaysPassed(states: seq<Sched>, steps: seq<Step>, p: nat, q: nat, i: nat, j: nat)
    requires IsRun(states, steps) && Waits(states, p) && i <= j < |states|
    requires Passed(states[i], p, q) && Persists(steps, q, i, j)
    ensures Passed(states[j], p, q)
    decreases j - i
  {
    hide Apply, Sched.Valid, Passed, Enabled;
    if i < j {
      assert states[i + 1].current != p && p in states[i].list;
      PassedStep(states[i], steps[i], p, q);
      PassedStaysPassed(states, steps, p, q, i + 1, j);
    }
  }

  /** A yield that passes over `p` leaves the process it picked behind `p`. */
  lemma PickedIsPassed(s: Sched, p: nat)
    requires s.Valid() && p in s.list && s.current != p && Yield(s).current != p
    ensures Passed(Yield(s), p, Yield(s).current)
  {
  }

  /** A process behind `p` is not picked while `p` is ready. */
  lemma PassedIsNotPicked(s: Sched, p: nat, q: nat)
    requires s.Valid() && p in s.list && s.current != p && Passed(s, p, q)
    ensures Yield(s).current != q
  {
  }

  /** Bounded bypass: while `p` waits, yields pick any one other process at most once, whatever else happens. */
  lemma BypassedAtMostOnce(states: seq<Sched>, steps: seq<Step>, p: nat, i: nat, j: nat)
    requires IsRun(states, steps) && Waits(states, p) && i < j < |steps| && steps[i].DoYield? && steps[j].DoYield?
    requires Persists(steps, states[i + 1].current, i + 1, j)
    ensures states[i + 1].current != states[j + 1].current
  {
    hide Persists;
    assert states[i + 1].current != p && states[j + 1] == Yield(states[j]);
    PickedIsPassed(states[i], p);
    PassedStaysPassed(states, steps, p, states[i + 1].current, i + 1, j);
    PassedIsNotPicked(states[j], p, states[i + 1].current);
  }

  // Under a pid that is used again the bound fails, and this is the only way.

  /** What the end of process `q` and the start of another under its pid come to, with the new one made ready. */
  function Reused(s: Sched, q: nat): (r: Sched)
    requires s.Valid() && Enabled(s, DoDestroy(q))
    ensures r.Valid() && r == s.(last := s.last[q := 0], list := [q] + s.list)
  {
    var gone := Apply(s, DoDestroy(q));
    assert q !in gone.last;
    var back := Apply(gone, DoCreate(q));
    assert back.last == s.last[q := 0];
    Apply(back, Relist([q] + s.list))
  }

  lemma ReuseOvertakes(s: Sched, q: nat)
    requires s.Valid() && Enabled(s, DoDestroy(q))
    ensures Yield(Reused(s, q)).current == q
  {
    var r := Reused(s, q);
    assert r.list[0] == q && r.list[1..] == s.list;
  }

  /**
   Whoever a yield picks is picked again at the next while the others wait, if it leaves
   the list while idle runs, ends, and another process gets its pid.
   */
  lemma ReusedPidBypasses(s: Sched, rest: seq<nat>)
    requires s.Valid() && Yield(s).current != s.idle
    requires forall p <- rest :: p in s.list && p != Yield(s).current
    ensures var q, t := Yield(s).current, Switch(Yield(s), s.idle).(list := rest);
      t.Valid() && t.current == s.idle && Enabled(t, DoDestroy(q)) && Yield(Reused(t, q)).current == q
  {
    PickExists(s);
    var q, t := Yield(s).current, Switch(Yield(s), s.idle).(list := rest);
    ReuseOvertakes(t, q);
    hide Pick, Yield, Reused;
  }

  /** A run from `s` in which `p` waits and `q` does not end, up to a yield that picks `q`. */
  ghost predicate PicksNext(s: Sched, p: nat, q: nat, states: seq<Sched>, steps: seq<Step>) {
    && IsRun(states, steps)
    && states[0] == s
    && Waits(states, p)
    && Persists(steps, q, 0, |steps|)
    && steps != []
    && steps[|steps| - 1].DoYield?
    && states[|steps|].current == q
  }

  lemma FrontIsPicked(s: Sched, p: nat, q: nat)
    requires s.Valid() && s.list == [q, p] && s.current != p && q != s.current && s.last[q] <= s.last[p]
    ensures Yield(s).current == q
  {
    assert s.list[1..] == [p];
  }

  ghost predicate CanBePicked(s: Sched, p: nat, q: nat) {
    exists states, steps :: PicksNext(s, p, q, states, steps)
  }

  lemma OtherCanBePicked(s: Sched, p: nat, q: nat)
    requires s.Valid() && p in s.list && s.current != p && p != q && q != s.current
    requires q in s.last && s.last[q] <= s.last[p]
    ensures CanBePicked(s, p, q)
  {
    var relisted := s.(list := [q, p]);
    FrontIsPicked(relisted, p, q);
    hide Yield, Pick;
    assert PicksNext(s, p, q, [s, relisted, Yield(relisted)], [Relist([q, p]), DoYield]);
  }

  lemma PickedLater(s: Sched, step: Step, p: nat, q: nat)
    requires s.Valid() && Enabled(s, step) && step != DoDestroy(q) && p in s.list && s.current != p
    requires CanBePicked(Apply(s, step), p, q)
    ensures CanBePicked(s, p, q)
  {
    hide Apply, Enabled;
    var states, steps :| PicksNext(Apply(s, step), p, q, states, steps);
    assert PicksNext(s, p, q, [s] + states, [step] + steps);
  }

  /** The current process can, once another has taken its place. */
  lemma CurrentCanBePicked(s: Sched, p: nat, q: nat)
    requires s.Valid() && p in s.list && q == s.current && p != q && q in s.last && s.last[q] <= s.last[p]
    ensures CanBePicked(s, p, q)
  {
    hide CanBePicked;
    var r := Pools.FreeBelow(s.last.Keys, |s.last| + 1);
    var born := Apply(s, DoCreate(r));
    OtherCanBePicked(Apply(born, DoSwitch(r)), p, q);
    PickedLater(born, DoSwitch(r), p, q);
    PickedLater(s, DoCreate(r), p, q);
  }

  lemma PassedCannotBePicked(s: Sched, p: nat, q: nat)
    requires Passed(s, p, q)
    ensures !CanBePicked(s, p, q)
  {
    forall states, steps ensures !PicksNext(s, p, q, states, steps) {
      if PicksNext(s, p, q, states, steps) {
        var n := |steps| - 1;
        PassedStaysPassed(states, steps, p, q, 0, n);
        PassedIsNotPicked(states[n], p, q);
      }
    }
  }

  /** A process can be picked while `p` waits exactly if it has not run since `p` did. */
  lemma PickedExactly(s: Sched, p: nat, q: nat)
    requires s.Valid() && p in s.list && s.current != p && p != q
    ensures CanBePicked(s, p, q) <==> !Passed(s, p, q)
  {
    hide CanBePicked, Yield, Pick;
    if Passed(s, p, q) {
      PassedCannotBePicked(s, p, q);
    } else if q !in s.last {
      var born := Apply(s, DoCreate(q));
      if q == s.current {
        CurrentCanBePicked(born, p, q);
      } else {
        OtherCanBePicked(born, p, q);
      }
      PickedLater(s, DoCreate(q), p, q);
    } else if q == s.current {
      CurrentCanBePicked(s, p, q);
    } else {
      OtherCanBePicked(s, p, q);
    }
  }

  // A run that begins with the yield of `p` itself.

  ghost predicate WaitsAfterYield(states: seq<Sched>, steps: seq<Step>, p: nat) {
    && IsRun(states, steps) && steps != [] && steps[0].DoYield?
    && p in states[0].list && states[0].current == p && Waits(states[1..], p)
  }

  lemma RunTail(states: seq<Sched>, steps: seq<Step>)
    requires IsRun(states, steps) && steps != []
    ensures IsRun(states[1..], steps[1..])
  {
  }

  /** Only the process that this first yield picks can be picked a second time. */
  lemma OnlyFirstPickTwice(states: seq<Sched>, steps: seq<Step>, p: nat, i: nat, j: nat)
    requires WaitsAfterYield(states, steps, p) && i < j < |steps| && steps[i].DoYield? && steps[j].DoYield?
    requires Persists(steps, states[i + 1].current, i + 1, j)
    ensures states[i + 1].current == states[j + 1].current ==> i == 0
  {
    if i > 0 {
      RunTail(states, steps);
      assert states[1..][i] == states[i + 1] && states[1..][j] == states[j + 1];
      assert Persists(steps[1..], states[i + 1].current, i, j - 1);
      BypassedAtMostOnce(states[1..], steps[1..], p, i - 1, j - 1);
    }
  }

  /** And not even that one, from the first time on that it yields. */
  lemma FirstPickYields(states: seq<Sched>, steps: seq<Step>, p: nat, k: nat, j: nat)
    requires WaitsAfterYield(states, steps, p) && 1 <= k <= j < |steps| && steps[k].DoYield? && steps[j].DoYield?
    requires states[k].current == states[1].current && Persists(steps, states[1].current, k, j)
    ensures states[j + 1].current != states[1].current
  {
    var q := states[1].current;
    RunTail(states, steps);
    PickExists(states[0]);
    assert states[1..][k - 1] == states[k] && states[1..][k] == states[k + 1] && states[1..][0] == states[1];
    assert p in states[k].list && states[k].current != p && states[k + 1].current != p;
    CurrentExists(states[1..], steps[1..], k - 1);
    YielderIsPassed(states[k], p);
    if k < j {
      assert Persists(steps[1..], q, k, j - 1);
      PassedStaysPassed(states[1..], steps[1..], p, q, k, j - 1);
      assert states[1..][j - 1] == states[j] && p in states[j].list && states[j].current != p;
      PassedIsNotPicked(states[j], p, q);
    }
  }

  lemma PickExists(s: Sched)
    requires s.Valid()
    ensures Yield(s).current in Yield(s).last
  {
  }

  lemma {:induction false} CurrentExists(states: seq<Sched>, steps: seq<Step>, k: nat)
    requires IsRun(states, steps) && states[0].current in states[0].last && k < |states|
    ensures states[k].current in states[k].last
  {
    if k > 0 {
      CurrentExists(states, steps, k - 1);
      assert states[k] == Apply(states[k - 1], steps[k - 1]);
      PickExists(states[k - 1]);
    }
  }

  lemma YielderIsPassed(s: Sched, p: nat)
    requires s.Valid() && p in s.list && s.current != p && Yield(s).current != p && s.current in s.last
    ensures Yield(s).current != s.current && Passed(Yield(s), p, s.current)
  {
  }

  /** The bound needs `p` not to be the one that yields first: then a switch can let another process in twice. */
  lemma OwnYieldCanTie()
    ensures var s := Sched([2, 1], map[1 := 0, 2 := 0, 3 := 0, 9 := 0], 0, 1, 9);
      && s.Valid()
      && Yield(s).current == 2
      && Yield(Switch(Yield(s), 3)).current == 2
  {
    var s := Sched([2, 1], map[1 := 0, 2 := 0, 3 := 0, 9 := 0], 0, 1, 9);
    var last1 := s.last[1 := 1];
    assert Pick([1], last1, 9) == 1;
    assert Pick([2, 1], last1, 9) == 2;
    var s1 := Yield(s);
    assert s1 == Sched([2, 1], last1[2 := 1], 1, 2, 9);
    var s2 := Switch(s1, 3);
    var last2 := s2.last[3 := 2];
    assert Pick([1], last2, 9) == 1;
    assert Pick([2, 1], last2, 9) == 2;
  }

  // With a stable list.

  function AfterYields(s: Sched, k: nat): (r: Sched)
    requires s.Valid()
    ensures r.Valid() && r.list == s.list && r.last.Keys == s.last.Keys
  {
    if k == 0 then s else Yield(AfterYields(s, k - 1))
  }

  /** The processes picked by the first `k` yields. */
  ghost function Picked(s: Sched, k: nat): set<nat>
    requires s.Valid()
  {
    if k == 0 then {} else Picked(s, k - 1) + {AfterYields(s, k).current}
  }

  /** `q` cannot be picked before `p`: it runs now, or ran after `p` did. */
  ghost predicate Behind(s: Sched, p: nat, q: nat) {
    p in s.last && q in s.last && (q == s.current || s.last[q] > s.last[p])
  }

  lemma BehindStays(s: Sched, p: nat, q: nat)
    requires s.Valid() && p in s.list && Yield(s).current != p && q != p && Behind(s, p, q)
    requires p != s.current
    ensures Yield(s).current != q && Behind(Yield(s), p, q)
  {
  }

  /** While `p` is not picked, each yield picks a new process. */
  lemma {:induction false} PicksAreDistinct(s: Sched, p: nat, k: nat)
    requires s.Valid() && p in s.list && p !in Picked(s, k)
    ensures |Picked(s, k)| == k && Picked(s, k) <= Pools.Elements(s.list) - {p}
    ensures AllBehind(AfterYields(s, k), p, Picked(s, k))
    ensures k > 0 ==> AfterYields(s, k).current != p
  {
    hide Yield, Pools.Elements, Sched.Valid, AllBehind;
    if k == 0 {
      NoneBehind(s, p);
    } else {
      PicksAreDistinct(s, p, k - 1);
      YieldPicksOldest(AfterYields(s, k - 1), p);
      MoreBehind(AfterYields(s, k - 1), p, Picked(s, k - 1));
    }
  }

  ghost predicate AllBehind(s: Sched, p: nat, picked: set<nat>) {
    forall q <- picked :: Behind(s, p, q)
  }

  lemma NoneBehind(s: Sched, p: nat)
    ensures AllBehind(s, p, {})
  {
  }

  lemma MoreBehind(s: Sched, p: nat, picked: set<nat>)
    requires s.Valid() && p in s.list && AllBehind(s, p, picked) && p !in picked && Yield(s).current != p
    requires picked != {} ==> s.current != p
    ensures Yield(s).current !in picked && AllBehind(Yield(s), p, picked + {Yield(s).current})
  {
    NowBehind(s, p);
    forall q | q in picked
      ensures Yield(s).current != q && Behind(Yield(s), p, q)
    {
      BehindStays(s, p, q);
    }
  }

  lemma NowBehind(s: Sched, p: nat)
    requires s.Valid() && p in s.list
    ensures Behind(Yield(s), p, Yield(s).current)
  {
  }

  /** On a stable list of n processes, `p` is picked within n yields, even if it is the one that yields first. */
  lemma RunsWithinListLength(s: Sched, p: nat)
    requires s.Valid() && p in s.list
    ensures p in Picked(s, |s.list|)
  {
    if p !in Picked(s, |s.list|) {
      PicksAreDistinct(s, p, |s.list|);
      Pools.SubsetSize(Picked(s, |s.list|), Pools.Elements(s.list) - {p});
    }
  }

  // With switches and changes of the list in between.

  function Yields(steps: seq<Step>): (n: nat)
    ensures n <= |steps|
  {
    if steps == [] then 0 else Yields(steps[..|steps| - 1]) + if steps[|steps| - 1].DoYield? then 1 else 0
  }

  /** The processes that the yields of a run picked. */
  ghost function PickedIn(states: seq<Sched>, steps: seq<Step>): set<nat>
    requires |states| == |steps| + 1
  {
    if steps == [] then {} else
      var n := |steps| - 1;
      PickedIn(states[..n + 1], steps[..n]) + if steps[n].DoYield? then {states[n + 1].current} else {}
  }

  /** The ready are always among `pool`, and no pid of `pool` goes to another process. */
  ghost predicate Within(states: seq<Sched>, steps: seq<Step>, pool: set<nat>) {
    && (forall i, q :: 0 <= i < |states| && q in states[i].list ==> q in pool)
    && (forall k :: 0 <= k < |steps| && steps[k].DoDestroy? ==> steps[k].pid !in pool)
  }

  lemma {:induction false} PickedWas(states: seq<Sched>, steps: seq<Step>, q: nat) returns (i: nat)
    requires |states| == |steps| + 1 && q in PickedIn(states, steps)
    ensures i < |steps| && steps[i].DoYield? && states[i + 1].current == q
  {
    var n := |steps| - 1;
    if q in PickedIn(states[..n + 1], steps[..n]) {
      i := PickedWas(states[..n + 1], steps[..n], q);
    } else {
      i := n;
    }
  }

  lemma {:induction false} PicksCounted(states: seq<Sched>, steps: seq<Step>, p: nat, pool: set<nat>)
    requires IsRun(states, steps) && Waits(states, p) && Within(states, steps, pool)
    ensures |PickedIn(states, steps)| == Yields(steps) && PickedIn(states, steps) <= pool - {p}
  {
    if steps != [] {
      hide Apply, Sched.Valid, Enabled, Yield, IsRun, Waits, Within;
      var n := |steps| - 1;
      RunFront(states, steps, p, pool);
      PicksCounted(states[..n + 1], steps[..n], p, pool);
      if steps[n].DoYield? {
        NewPick(states, steps, p, pool);
      }
    }
  }

  lemma RunFront(states: seq<Sched>, steps: seq<Step>, p: nat, pool: set<nat>)
    requires IsRun(states, steps) && Waits(states, p) && Within(states, steps, pool) && steps != []
    ensures var n := |steps| - 1;
      IsRun(states[..n + 1], steps[..n]) && Waits(states[..n + 1], p) && Within(states[..n + 1], steps[..n], pool)
  {
    hide Apply, Sched.Valid, Enabled;
    var front := states[..|steps|];
    assert forall i :: 0 <= i < |front| ==> front[i] == states[i];
  }

  lemma NewPick(states: seq<Sched>, steps: seq<Step>, p: nat, pool: set<nat>)
    requires IsRun(states, steps) && Waits(states, p) && Within(states, steps, pool)
    requires steps != [] && steps[|steps| - 1].DoYield?
    ensures var n := |steps| - 1; var q := states[n + 1].current;
      q !in PickedIn(states[..n + 1], steps[..n]) && q in pool && q != p
  {
    hide PickedIn, Sched.Valid;
    var n := |steps| - 1;
    var q := states[n + 1].current;
    assert p in states[n].list && p in states[n + 1].list && states[n + 1] == Yield(states[n]);
    YieldPicksOldest(states[n], p);
    if q in PickedIn(states[..n + 1], steps[..n]) {
      var i := PickedWas(states[..n + 1], steps[..n], q);
      assert Persists(steps, q, i + 1, n);
      BypassedAtMostOnce(states, steps, p, i, n);
    }
  }

  /**
   However switches and changes of the list are mixed in, a waiting process sees at most as many yields as
   there are others to run.
   */
  lemma YieldsBounded(states: seq<Sched>, steps: seq<Step>, p: nat, pool: set<nat>)
    requires IsRun(states, steps) && Waits(states, p) && Within(states, steps, pool)
    ensures Yields(steps) <= |pool - {p}|
  {
    PicksCounted(states, steps, p, pool);
    Pools.SubsetSize(PickedIn(states, steps), pool - {p});
  }
}
